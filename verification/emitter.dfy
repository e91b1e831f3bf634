/**
  The wrapper emitter (`writeRunEnd`): turns one segment of the
  require-stripped file into a `run("name", [deps], function(params) { ... })`
  registration block, governed by the properties (`prefixProps`) of the
  provide that precedes the segment.
 */
module Emitter {
  import opened Strings
  import opened Source

  /** `prefixProps`: the governing provide's name, its external dependencies
      and the exact text its `dojo.provide(...)` call was matched from. */
  datatype Prefix = Prefix(provide: Name, reqs: seq<Name>, matched: string)

  /** The synthetic `text!` dependency for `dojo.cache(mod, file)`: the dots of
      the module path become slashes, then every remaining dot becomes a bang. */
  function TextName(mod: string, file: string): Name
  {
    var path := "text!" + ReplaceChar(mod, '.', '/') + "/" + file;
    SplitJoinIsReplace(path, '.', '!');
    Join(SplitOn(path, '.'), "!")
  }

  /** The text name is the slash-joined module path followed by the file name
      with each `.` turned into `!`; no dot survives. */
  lemma TextNameShape(mod: string, file: string)
    ensures TextName(mod, file) == "text!" + ReplaceChar(mod, '.', '/') + "/" + ReplaceChar(file, '.', '!')
    ensures '.' !in TextName(mod, file)
  {
    var path := ReplaceChar(mod, '.', '/');
    SplitJoinIsReplace("text!" + path + "/" + file, '.', '!');
    ReplaceCharAppend("text!" + path + "/", file, '.', '!');
    ReplaceCharAppend("text!" + path, "/", '.', '!');
    ReplaceCharAppend("text!", path, '.', '!');
    ReplaceCharAbsent("text!", '.', '!');
    ReplaceCharAbsent(path, '.', '!');
    ReplaceCharAbsent("/", '.', '!');
  }

  /** The positional parameter `_Rk` bound to the k-th external dependency. */
  function Placeholder(k: nat): string
  {
    "_R" + NatToString(k)
  }

  /** Distinct positions get distinct parameter names. */
  lemma PlaceholdersDistinct(j: nat, k: nat)
    requires j != k
    ensures Placeholder(j) != Placeholder(k)
  {
    if Placeholder(j) == Placeholder(k) {
      assert NatToString(j) == Placeholder(j)[2..];
      assert NatToString(k) == Placeholder(k)[2..];
      NatToStringInjective(j, k);
    }
  }

  /** The text names of the segment's `dojo.cache` calls, in order. */
  function CacheNames(seg: seq<Piece>): seq<Name>
  {
    if |seg| == 0 then []
    else if seg[0].Cache? then [TextName(seg[0].mod, seg[0].file)] + CacheNames(seg[1..])
    else CacheNames(seg[1..])
  }

  /** How many `dojo.cache` calls come before position j. */
  function CachesBefore(seg: seq<Piece>, j: nat): nat
    requires j <= |seg|
  {
    |CacheNames(seg[..j])|
  }

  /** Counting from the second piece on. */
  lemma CachesBeforeShift(seg: seq<Piece>)
    requires |seg| > 0
    ensures CachesBefore(seg, 0) == 0
    ensures forall j :: 1 <= j <= |seg| ==>
      CachesBefore(seg, j) == (if seg[0].Cache? then 1 else 0) + CachesBefore(seg[1..], j - 1)
  {
    assert seg[..0] == [];
    forall j | 1 <= j <= |seg| {
      CachesBeforeStep(seg, j);
    }
  }

  lemma CachesBeforeStep(seg: seq<Piece>, j: nat)
    requires 1 <= j <= |seg|
    ensures CachesBefore(seg, j) == (if seg[0].Cache? then 1 else 0) + CachesBefore(seg[1..], j - 1)
  {
    assert seg[..j][1..] == seg[1..][..j - 1];
  }

  /** The segment after the `dojo.cache` rewrite, one output string per piece,
      and the dependency list with the synthetic text names appended. */
  datatype Rewritten = Rewritten(parts: seq<string>, reqs: seq<Name>)

  /** The `contents.replace(/dojo.cache(...)/g, ...)` pass: each cache call
      appends its text name to the dependencies and is replaced by the
      placeholder of the position it was appended at; every other piece is
      left as it was. */
  function RewriteCache(seg: seq<Piece>, reqs: seq<Name>): (r: Rewritten)
    ensures r.reqs == reqs + CacheNames(seg)
    ensures |r.parts| == |seg|
  {
    if |seg| == 0 then Rewritten([], reqs)
    else
      var more := if seg[0].Cache? then reqs + [TextName(seg[0].mod, seg[0].file)] else reqs;
      var rest := RewriteCache(seg[1..], more);
      var head := if seg[0].Cache? then Placeholder(|more| - 1) else Literal(seg[0]);
      Rewritten([head] + rest.parts, rest.reqs)
  }

  /** Each cache call is replaced by the placeholder of the position its text
      name takes in the dependency list; every other piece is left as it was. */
  lemma {:induction false} RewritePlaceholders(seg: seq<Piece>, reqs: seq<Name>)
    ensures var r := RewriteCache(seg, reqs);
      forall j :: 0 <= j < |seg| ==>
        r.parts[j] == (if seg[j].Cache? then Placeholder(|reqs| + CachesBefore(seg, j)) else Literal(seg[j]))
  {
    if |seg| > 0 {
      var more := if seg[0].Cache? then reqs + [TextName(seg[0].mod, seg[0].file)] else reqs;
      var r, rest := RewriteCache(seg, reqs), RewriteCache(seg[1..], more);
      RewritePlaceholders(seg[1..], more);
      CachesBeforeShift(seg);
      forall j | 0 <= j < |seg|
        ensures r.parts[j] == (if seg[j].Cache? then Placeholder(|reqs| + CachesBefore(seg, j)) else Literal(seg[j]))
      {
        if j > 0 {
          assert r.parts[j] == rest.parts[j - 1];
          assert seg[j] == seg[1..][j - 1];
        }
      }
    }
  }

  /** A segment without `dojo.cache` calls passes the rewrite unchanged and
      adds no dependency. */
  lemma {:induction false} RewriteWithoutCache(seg: seq<Piece>, reqs: seq<Name>)
    requires forall j :: 0 <= j < |seg| ==> !seg[j].Cache?
    ensures RewriteCache(seg, reqs).reqs == reqs
    ensures Concat(RewriteCache(seg, reqs).parts) == Render(seg)
  {
    if |seg| > 0 {
      var rest := RewriteCache(seg[1..], reqs);
      assert forall j :: 0 <= j < |seg[1..]| ==> seg[1..][j] == seg[j + 1];
      RewriteWithoutCache(seg[1..], reqs);
      assert RewriteCache(seg, reqs).parts == [Literal(seg[0])] + rest.parts;
      assert ([Literal(seg[0])] + rest.parts)[1..] == rest.parts;
    }
  }

  /** The leading runtime dependencies and parameters every wrapper gets. */
  const FixedDeps: seq<string> := ["\"run\"", "\"dojo\"", "\"dijit\"", "\"dojox\""]
  const FixedParams: seq<string> := ["run", "dojo", "dijit", "dojox"]
  const FixedDepText: string := "\"run\", \"dojo\", \"dijit\", \"dojox\""
  const FixedParamText: string := "run, dojo, dijit, dojox"

  /** The dependency array of a wrapper as a list of entries. */
  function DepArray(reqs: seq<Name>): seq<string>
  {
    FixedDeps + seq(|reqs|, i requires 0 <= i < |reqs| => "\"" + reqs[i] + "\"")
  }

  /** The parameter list of a wrapper as a list of entries. */
  function ParamList(n: nat): seq<string>
  {
    FixedParams + seq(n, i requires 0 <= i < n => Placeholder(i))
  }

  /** `reqString` as the `prefixProps.reqs` loop builds it: `, "<req>"` per entry. */
  function ReqString(reqs: seq<Name>): string
  {
    if |reqs| == 0 then "" else ReqString(reqs[..|reqs| - 1]) + ", \"" + reqs[|reqs| - 1] + "\""
  }

  /** `argString` as the same loop builds it: `, _R<i>` per entry. */
  function ArgString(n: nat): string
  {
    if n == 0 then "" else ArgString(n - 1) + ", " + Placeholder(n - 1)
  }

  /** The return expression: the provided name, or `null` when the name has a
      hyphen and so is not a valid identifier. */
  function ReturnExpr(name: Name): string
  {
    if '-' in name then "null" else name
  }

  /** The fixed shape of a registration block around its variable parts. */
  function RunBlock(provide: Name, depText: string, paramText: string, matched: string, body: string): string
  {
    "run(\"" + provide + "\", [" + depText + "], function(" + paramText + ") {\n" +
    matched + body + "\nreturn " + ReturnExpr(provide) + "; });\n"
  }

  /** `writeRunEnd(prefixProps, contents)`: the leading segment (no governing
      provide) is returned as it is; any other segment is wrapped. */
  function WriteRunEnd(gov: Option<Prefix>, seg: seq<Piece>): string
  {
    match gov
    case None => Render(seg)
    case Some(p) =>
      var rw := RewriteCache(seg, p.reqs);
      RunBlock(p.provide,
               FixedDepText + ReqString(rw.reqs),
               FixedParamText + ArgString(|rw.reqs|),
               p.matched, Concat(rw.parts))
  }

  lemma FixedListsJoined()
    ensures Join(FixedDeps, ", ") == FixedDepText
    ensures Join(FixedParams, ", ") == FixedParamText
  {
    assert FixedDeps[1..] == ["\"dojo\"", "\"dijit\"", "\"dojox\""];
    assert FixedDeps[1..][1..] == ["\"dijit\"", "\"dojox\""];
    assert FixedDeps[1..][1..][1..] == ["\"dojox\""];
    assert FixedParams[1..] == ["dojo", "dijit", "dojox"];
    assert FixedParams[1..][1..] == ["dijit", "dojox"];
    assert FixedParams[1..][1..][1..] == ["dojox"];
  }

  /** The dependency string the loop builds is the dependency array joined with `, `. */
  lemma {:induction false} ReqStringIsJoin(reqs: seq<Name>)
    ensures FixedDepText + ReqString(reqs) == Join(DepArray(reqs), ", ")
  {
    if |reqs| == 0 {
      assert DepArray(reqs) == FixedDeps;
      FixedListsJoined();
    } else {
      var init := reqs[..|reqs| - 1];
      var last := reqs[|reqs| - 1];
      var q := "\"" + last + "\"";
      ReqStringIsJoin(init);
      assert DepArray(reqs) == DepArray(init) + [q];
      JoinSnoc(DepArray(init), q, ", ");
      var t := ReqString(init);
      assert ReqString(reqs) == t + ", \"" + last + "\"";
      assert t + ", \"" + last + "\"" == t + ", " + q;
    }
  }

  lemma ParamListSnoc(n: nat)
    requires n > 0
    ensures ParamList(n) == ParamList(n - 1) + [Placeholder(n - 1)]
  {
  }

  /** The parameter string the loop builds is the parameter list joined with `, `. */
  lemma {:induction false} ArgStringIsJoin(n: nat)
    ensures FixedParamText + ArgString(n) == Join(ParamList(n), ", ")
  {
    if n == 0 {
      assert ParamList(0) == FixedParams;
      FixedListsJoined();
    } else {
      ArgStringIsJoin(n - 1);
      ParamListSnoc(n);
      JoinSnoc(ParamList(n - 1), Placeholder(n - 1), ", ");
      assert FixedParamText + ArgString(n) == (FixedParamText + ArgString(n - 1)) + ", " + Placeholder(n - 1);
    }
  }

  /** The emitted block, read through the structured lists: name, dependency
      array, an equally long parameter list, then the provide's own text and
      the rewritten segment, then the return of the module value. The external
      dependencies come first in the array, before any text dependency. */
  lemma WrapperShape(p: Prefix, seg: seq<Piece>)
    ensures var rw := RewriteCache(seg, p.reqs);
      && WriteRunEnd(Some(p), seg) ==
        RunBlock(p.provide, Join(DepArray(rw.reqs), ", "), Join(ParamList(|rw.reqs|), ", "),
                 p.matched, Concat(rw.parts))
      && |DepArray(rw.reqs)| == |ParamList(|rw.reqs|)|
      && rw.reqs[..|p.reqs|] == p.reqs
  {
    var rw := RewriteCache(seg, p.reqs);
    ReqStringIsJoin(rw.reqs);
    ArgStringIsJoin(|rw.reqs|);
  }

  lemma SuffixOf(a: string, b: string)
    ensures |a + b| >= |b| && (a + b)[|a + b| - |b|..] == b
  {
  }

  /** The emitted block ends by returning the module value: the provided
      name, or `null` when the name holds a hyphen and is not an identifier. */
  lemma WrapperReturns(p: Prefix, seg: seq<Piece>)
    ensures var w := WriteRunEnd(Some(p), seg);
      var tail := if '-' in p.provide then "\nreturn null; });\n" else "\nreturn " + p.provide + "; });\n";
      |w| >= |tail| && w[|w| - |tail|..] == tail
  {
    var rw := RewriteCache(seg, p.reqs);
    RunBlockEnds(p.provide, FixedDepText + ReqString(rw.reqs), FixedParamText + ArgString(|rw.reqs|),
                 p.matched, Concat(rw.parts));
  }

  lemma RunBlockEnds(provide: Name, depText: string, paramText: string, matched: string, body: string)
    ensures var b := RunBlock(provide, depText, paramText, matched, body);
      var tail := if '-' in provide then "\nreturn null; });\n" else "\nreturn " + provide + "; });\n";
      |b| >= |tail| && b[|b| - |tail|..] == tail
  {
    var head := "run(\"" + provide + "\", [" + depText + "], function(" + paramText + ") {\n" + matched + body;
    SuffixOf(head, "\nreturn " + ReturnExpr(provide) + "; });\n");
  }


  /** Each `dojo.cache` call is replaced by the parameter whose position in
      the parameter list matches the position of its text dependency in the
      dependency array, so the loader passes that text resource in its place. */
  lemma CachePlaceholderBinds(p: Prefix, seg: seq<Piece>, j: nat)
    requires j < |seg| && seg[j].Cache?
    ensures var rw := RewriteCache(seg, p.reqs);
      var k := |FixedDeps| + |p.reqs| + CachesBefore(seg, j);
      && k < |DepArray(rw.reqs)| && k < |ParamList(|rw.reqs|)|
      && rw.parts[j] == ParamList(|rw.reqs|)[k]
      && DepArray(rw.reqs)[k] == "\"" + TextName(seg[j].mod, seg[j].file) + "\""
  {
    var rw := RewriteCache(seg, p.reqs);
    RewritePlaceholders(seg, p.reqs);
    var c := CachesBefore(seg, j);
    var i := |p.reqs| + c;
    CacheNamesSplit(seg, j);
    assert rw.reqs[i] == TextName(seg[j].mod, seg[j].file);
    assert rw.parts[j] == Placeholder(i);
    assert |FixedDeps| == 4 && |FixedParams| == 4;
    assert ParamList(|rw.reqs|)[4 + i] == Placeholder(i);
    assert DepArray(rw.reqs)[4 + i] == "\"" + rw.reqs[i] + "\"";
  }

  lemma {:induction false} CacheNamesAppend(a: seq<Piece>, b: seq<Piece>)
    ensures CacheNames(a + b) == CacheNames(a) + CacheNames(b)
  {
    if |a| == 0 {
      assert a + b == b;
    } else {
      assert (a + b)[1..] == a[1..] + b;
      CacheNamesAppend(a[1..], b);
    }
  }

  lemma CacheNamesSplit(seg: seq<Piece>, j: nat)
    requires j < |seg| && seg[j].Cache?
    ensures CachesBefore(seg, j) < |CacheNames(seg)|
    ensures CacheNames(seg)[CachesBefore(seg, j)] == TextName(seg[j].mod, seg[j].file)
  {
    assert seg == seg[..j] + ([seg[j]] + seg[j + 1..]);
    CacheNamesAppend(seg[..j], [seg[j]] + seg[j + 1..]);
    assert CacheNames([seg[j]] + seg[j + 1..])[0] == TextName(seg[j].mod, seg[j].file);
  }
}
