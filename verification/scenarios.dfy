/**
  Worked conversions of small files, computed through the model.
 */
module Scenarios {
  import opened Strings
  import opened Source
  import opened Scanner
  import opened Emitter
  import opened Converter

  /** `dojo.provide("a.b"); dojo.require("x.y"); var v=1;` as pieces. The
      declaration patterns end at the closing parenthesis, so each `;` stays
      in the text that follows the call. */
  const OneModule: seq<Piece> := [
    Provide("a.b", "dojo.provide(\"a.b\")"),
    Text("; "),
    Require("x.y", "dojo.require(\"x.y\")"),
    Text("; var v=1;")
  ]

  const OneProvide: Prefix := Prefix("a.b", ["x.y"], "dojo.provide(\"a.b\")")

  /** The scan of that file: one descriptor, `a.b` requiring `x.y`. */
  lemma OneModuleScan()
    ensures Declarations(OneModule) == [ProvideDecl("a.b"), RequireDecl("x.y")]
    ensures Scan(Declarations(OneModule)) == ScanState([Descriptor("a.b", ["x.y"])], {"a.b"})
  {
    var decls := Declarations(OneModule);
    assert decls == [ProvideDecl("a.b"), RequireDecl("x.y")];
    assert decls[..1] == [ProvideDecl("a.b")];
    assert decls[..1][..0] == [];
    var st1 := ScanState([Descriptor("a.b", [])], {"a.b"});
    assert Scan(decls[..1]) == st1;
    assert st1.deps[..0] == [];
    var rq: seq<Name> := [];
    assert rq + ["x.y"] == ["x.y"];
    assert st1.deps[..0] + [Descriptor("a.b", rq + ["x.y"])] == [Descriptor("a.b", ["x.y"])];
    assert Step(st1, RequireDecl("x.y")) == ScanState([Descriptor("a.b", ["x.y"])], {"a.b"});
  }

  /** The loop over that file: an empty leading chunk, then the chunk
      governed by `a.b` with the require removed. */
  lemma OneModuleWalk()
    ensures StripRequires(OneModule) == [OneModule[0], OneModule[1], OneModule[3]]
    ensures Walk(StripRequires(OneModule), [Descriptor("a.b", ["x.y"])], {"a.b"}, 0, 0, None)
      == Some([Chunk(None, []), Chunk(Some(OneProvide), [Text("; "), Text("; var v=1;")])])
  {
    var sp := StripRequires(OneModule);
    var descs := [Descriptor("a.b", ["x.y"])];
    assert sp == [OneModule[0], OneModule[1], OneModule[3]];
    assert FindProvide(sp, "a.b", 0) == Some(0);
    assert External(["x.y"], {"a.b"}) == ["x.y"];
    var seg := sp[1..];
    assert seg == [Text("; "), Text("; var v=1;")];
    var w1 := Walk(sp, descs, {"a.b"}, 1, 1, Some(OneProvide));
    assert w1 == Some([Chunk(Some(OneProvide), seg)]);
    WalkStep(sp, descs, {"a.b"}, 0, 0, None, 0, OneProvide);
    assert sp[0..0] == [];
    assert [Chunk(None, sp[0..0])] + w1.value == [Chunk(None, []), Chunk(Some(OneProvide), seg)];
  }

  /** The file is converted without pause/resume into those two chunks. */
  lemma OneModulePlan(text: string)
    ensures Plan(OneModule, Stripped(text, Declarations(OneModule)))
      == Converted([Chunk(None, []), Chunk(Some(OneProvide), [Text("; "), Text("; var v=1;")])], false)
  {
    OneModuleScan();
    OneModuleWalk();
  }

  /** The wrapper of that chunk: `x.y` joins the fixed dependencies and is
      bound to `_R0`, and the module returns `a.b`. */
  lemma OneModuleWrapper()
    ensures WriteRunEnd(Some(OneProvide), [Text("; "), Text("; var v=1;")])
      == RunBlock("a.b", "\"run\", \"dojo\", \"dijit\", \"dojox\", \"x.y\"", "run, dojo, dijit, dojox, _R0",
                  "dojo.provide(\"a.b\")", "; ; var v=1;")
    ensures ReturnExpr("a.b") == "a.b"
  {
    var rw := RewriteCache([Text("; "), Text("; var v=1;")], ["x.y"]);
    RewritePlaceholders([Text("; "), Text("; var v=1;")], ["x.y"]);
    assert rw.reqs == ["x.y"];
    assert rw.parts == ["; ", "; var v=1;"];
    ReqStringOne();
    ArgStringOne();
    assert Concat(rw.parts) == "; ; var v=1;" by {
      assert rw.parts[1..] == ["; var v=1;"];
      assert Concat(["; var v=1;"]) == "; var v=1;" by {
        assert ["; var v=1;"][1..] == [];
      }
    }
    assert '-' !in "a.b";
  }

  lemma ReqStringOne()
    ensures FixedDepText + ReqString(["x.y"]) == "\"run\", \"dojo\", \"dijit\", \"dojox\", \"x.y\""
  {
  }

  lemma ArgStringOne()
    ensures FixedParamText + ArgString(1) == "run, dojo, dijit, dojox, _R0"
  {
    assert NatToString(0) == "0";
  }

  /** Two modules in one file: `a` requires the outside module `z`, and `b`
      requires `a`. */
  function TwoModules(a: Name, b: Name, z: Name, la: string, lb: string, gap: string): seq<Piece>
  {
    [Provide(a, la), Require(z, ""), Text(gap), Provide(b, lb), Require(a, "")]
  }

  /** The declarations of such a file. */
  lemma TwoModulesDecls(a: Name, b: Name, z: Name, la: string, lb: string, gap: string)
    ensures Declarations(TwoModules(a, b, z, la, lb, gap)) == [ProvideDecl(a), RequireDecl(z), ProvideDecl(b), RequireDecl(a)]
  {
    var f := TwoModules(a, b, z, la, lb, gap);
    var f2, f3 := f[2..], f[3..];
    assert f[1..][1..] == f2 && f2[1..] == f3 && f3[1..][1..] == [];
    assert Declarations(f3) == [ProvideDecl(b), RequireDecl(a)];
    assert Declarations(f2) == [ProvideDecl(b), RequireDecl(a)];
  }

  /** The require-stripped pieces of such a file. */
  lemma TwoModulesStripped(a: Name, b: Name, z: Name, la: string, lb: string, gap: string)
    ensures StripRequires(TwoModules(a, b, z, la, lb, gap)) == [Provide(a, la), Text(gap), Provide(b, lb)]
  {
    var f := TwoModules(a, b, z, la, lb, gap);
    var f2, f3 := f[2..], f[3..];
    assert f[1..][1..] == f2 && f2[1..] == f3 && f3[1..][1..] == [];
    assert StripRequires(f3) == [Provide(b, lb)];
    assert StripRequires(f2) == [Text(gap), Provide(b, lb)];
  }

  /** The descriptors of such a file: `b` still lists `a` as a require. */
  lemma TwoModulesScan(a: Name, b: Name, z: Name, la: string, lb: string, gap: string)
    ensures var decls := Declarations(TwoModules(a, b, z, la, lb, gap));
      && Descs(decls) == [Descriptor(a, [z]), Descriptor(b, [a])]
      && ProvidedSet(decls) == {a, b}
  {
    TwoModulesDecls(a, b, z, la, lb, gap);
    var decls := Declarations(TwoModules(a, b, z, la, lb, gap));
    var d1, d2, d3 := decls[1..], decls[2..], decls[3..];
    assert d1[1..] == d2 && d2[1..] == d3 && d3[1..] == [];
    assert RequiresUntilProvide(d3) == [a];
    assert RequiresUntilProvide(d1) == [z];
    assert Descs(d2) == [Descriptor(b, [a])];
    assert DeclProvideNames(decls) == [a, b];
  }

  /** The search for each provide of such a file lands on it. */
  lemma TwoModulesSearches(sp: seq<Piece>, a: Name, b: Name, la: string, lb: string, gap: string)
    requires sp == [Provide(a, la), Text(gap), Provide(b, lb)]
    ensures FindProvide(sp, a, 0) == Some(0)
    ensures FindProvide(sp, b, 1) == Some(2)
  {
  }

  /** The last two iterations of the loop over such a file: `a` governs the
      text up to `b`, and `b`'s wrapper does not depend on `a`, which the
      same file provides. */
  lemma TwoModulesTail(sp: seq<Piece>, a: Name, b: Name, z: Name, la: string, lb: string, gap: string)
    requires a != b && z != a && z != b
    requires sp == [Provide(a, la), Text(gap), Provide(b, lb)]
    ensures var w := Walk(sp, [Descriptor(a, [z]), Descriptor(b, [a])], {a, b}, 1, 1, Some(Prefix(a, [z], la)));
      && w.Some? && |w.value| == 2
      && w.value[0] == Chunk(Some(Prefix(a, [z], la)), [Text(gap)])
      && w.value[1] == Chunk(Some(Prefix(b, [], lb)), [])
  {
    var descs := [Descriptor(a, [z]), Descriptor(b, [a])];
    var provided := {a, b};
    assert External([a], provided) == [];
    TwoModulesSearches(sp, a, b, la, lb, gap);
    var pa, pb := Prefix(a, [z], la), Prefix(b, [], lb);
    var w2 := Walk(sp, descs, provided, 2, 3, Some(pb));
    assert sp[3..] == [];
    assert w2 == Some([Chunk(Some(pb), [])]);
    WalkStep(sp, descs, provided, 1, 1, Some(pa), 2, pb);
    assert sp[1..2] == [Text(gap)];
  }

  /** The whole loop over such a file: an empty leading chunk, then one
      chunk per provide, `a`'s depending on `z`. */
  lemma TwoModulesWalk(sp: seq<Piece>, a: Name, b: Name, z: Name, la: string, lb: string, gap: string)
    requires a != b && z != a && z != b
    requires sp == [Provide(a, la), Text(gap), Provide(b, lb)]
    ensures var w := Walk(sp, [Descriptor(a, [z]), Descriptor(b, [a])], {a, b}, 0, 0, None);
      && w.Some? && |w.value| == 3
      && w.value[0] == Chunk(None, [])
      && w.value[1] == Chunk(Some(Prefix(a, [z], la)), [Text(gap)])
      && w.value[2] == Chunk(Some(Prefix(b, [], lb)), [])
  {
    var descs := [Descriptor(a, [z]), Descriptor(b, [a])];
    var provided := {a, b};
    assert External([z], provided) == [z];
    TwoModulesSearches(sp, a, b, la, lb, gap);
    TwoModulesTail(sp, a, b, z, la, lb, gap);
    WalkStep(sp, descs, provided, 0, 0, None, 0, Prefix(a, [z], la));
    assert sp[0..0] == [];
  }

  /** Such a file is converted into two wrappers bracketed by pause/resume. */
  lemma TwoModulesPlan(a: Name, b: Name, z: Name, la: string, lb: string, gap: string, text: string)
    requires a != b && z != a && z != b
    ensures var file := TwoModules(a, b, z, la, lb, gap);
      var o := Plan(file, Stripped(text, Declarations(file)));
      && o.Converted? && o.bracketed && |o.chunks| == 3
      && o.chunks[1] == Chunk(Some(Prefix(a, [z], la)), [Text(gap)])
      && o.chunks[2] == Chunk(Some(Prefix(b, [], lb)), [])
  {
    var file := TwoModules(a, b, z, la, lb, gap);
    var decls := Declarations(file);
    TwoModulesScan(a, b, z, la, lb, gap);
    ScanMatchesReference(decls);
    TwoModulesStripped(a, b, z, la, lb, gap);
    TwoModulesWalk(StripRequires(file), a, b, z, la, lb, gap);
    var st := Scan(decls);
    assert st.provided == {a, b};
    assert |st.deps| == 2;
    var w := Walk(StripRequires(file), st.deps, st.provided, 0, 0, None);
    assert Plan(file, Stripped(text, decls)) == Converted(w.value, true);
  }

  /** A hyphenated module name is not an identifier, so its wrapper
      returns `null`. */
  lemma HyphenReturnsNull()
    ensures WriteRunEnd(Some(Prefix("a-b", [], "dojo.provide(\"a-b\")")), [])
      == RunBlock("a-b", FixedDepText, FixedParamText, "dojo.provide(\"a-b\")", "")
    ensures ReturnExpr("a-b") == "null"
  {
    assert RewriteCache([], []) == Rewritten([], []);
    assert ReqString([]) == "" && ArgString(0) == "" && Concat([]) == "";
    assert FixedDepText + "" == FixedDepText && FixedParamText + "" == FixedParamText;
    assert "a-b"[1] == '-';
  }

  /** The concrete names in these lemmas arrive as parameters pinned by a
      `requires`: written as literals in the call, the verifier unfolds the
      string functions on them far more often than the proof needs. */
  lemma ModuleSlashes(mod: string)
    requires mod == "my.t"
    ensures ReplaceChar(mod, '.', '/') == "my/t"
  {
  }

  lemma FileBangs(file: string)
    requires file == "W.html"
    ensures ReplaceChar(file, '.', '!') == "W!html"
  {
  }

  /** The text name of the template `W.html` of module `my.t`. */
  lemma TemplateTextName(mod: string, file: string)
    requires mod == "my.t" && file == "W.html"
    ensures TextName(mod, file) == "text!my/t/W!html"
  {
    TextNameShape(mod, file);
    ModuleSlashes(mod);
    FileBangs(file);
  }

  /** A `dojo.cache` call after one external dependency becomes `_R1`,
      bound to the text dependency for the template file: the module's dots
      become slashes and the file's dot becomes a `!`. */
  lemma CacheBecomesTextDependency(mod: string, file: string)
    requires mod == "my.t" && file == "W.html"
    ensures var rw := RewriteCache([Cache(mod, file, "dojo.cache(...)")], ["dep"]);
      rw.reqs == ["dep", "text!my/t/W!html"] && rw.parts == ["_R1"]
  {
    var seg := [Cache(mod, file, "dojo.cache(...)")];
    RewritePlaceholders(seg, ["dep"]);
    TemplateTextName(mod, file);
    assert CacheNames(seg) == [TextName(mod, file)];
    assert CachesBefore(seg, 0) == 0 by {
      assert seg[..0] == [];
    }
    assert Placeholder(1) == "_R1" by {
      assert NatToString(1) == "1";
    }
  }
}
