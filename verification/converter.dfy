/**
  The per-file converter (`convert`): scan the comment-stripped declarations,
  split the require-stripped original text at each `dojo.provide(...)`, and
  emit every segment through `writeRunEnd`, bracketing multi-module files with
  `run.pause()` / `run.resume()`.
 */
module Converter {
  import opened Strings
  import opened Source
  import opened Scanner
  import opened Emitter

  /** The external dependencies of a module: its requires, in order, without
      the names provided anywhere in the same file (the loop that pushes a
      require unless `deps.provides[module]` is set). */
  function External(required: seq<Name>, provided: set<Name>): (r: seq<Name>)
    ensures forall x :: x in r <==> x in required && x !in provided
  {
    if |required| == 0 then []
    else
      var rest := External(required[1..], provided);
      assert required == [required[0]] + required[1..];
      if required[0] in provided then rest else [required[0]] + rest
  }

  /** A require survives the filter exactly as often as it was listed,
      unless the file provides it, and then not at all. */
  lemma {:induction false} ExternalCounts(required: seq<Name>, provided: set<Name>)
    ensures forall x :: multiset(External(required, provided))[x] ==
                        (if x in provided then 0 else multiset(required)[x])
  {
    if |required| > 0 {
      ExternalCounts(required[1..], provided);
      assert required == [required[0]] + required[1..];
    }
  }

  /** The properties every plain object inherits from `Object.prototype` in
      Rhino: the standard ones, plus Rhino's `toSource` and the getter/setter
      accessors. Looking one of them up on `deps.provides` yields a function,
      which is truthy. */
  const PrototypeNames: set<Name> :=
    {"constructor", "hasOwnProperty", "isPrototypeOf", "propertyIsEnumerable",
     "toLocaleString", "toString", "valueOf", "toSource",
     "__defineGetter__", "__defineSetter__", "__lookupGetter__", "__lookupSetter__"}

  /** The filter as written: `!deps.provides[module]` on a plain object, which
      also rejects a require named after an inherited property. */
  function ExternalAsWritten(required: seq<Name>, provided: set<Name>): (r: seq<Name>)
    ensures forall x :: x in r <==> x in required && x !in provided && x !in PrototypeNames
  {
    if |required| == 0 then []
    else
      var rest := ExternalAsWritten(required[1..], provided);
      assert required == [required[0]] + required[1..];
      if required[0] in provided || required[0] in PrototypeNames then rest else [required[0]] + rest
  }

  /** A module named `toString` or `toSource`, provided nowhere in the file,
      is dropped from the dependencies as written, though it is external. */
  lemma PrototypeNameDropped()
    ensures ExternalAsWritten(["toString"], {}) == []
    ensures External(["toString"], {}) == ["toString"]
    ensures ExternalAsWritten(["toSource"], {}) == []
    ensures External(["toSource"], {}) == ["toSource"]
  {
  }

  /** Away from the inherited property names, the lookup as written and the
      set lookup the model uses agree. */
  lemma {:induction false} AsWrittenAgrees(required: seq<Name>, provided: set<Name>)
    requires forall i :: 0 <= i < |required| ==> required[i] !in PrototypeNames
    ensures ExternalAsWritten(required, provided) == External(required, provided)
  {
    if |required| > 0 {
      assert forall i :: 0 <= i < |required[1..]| ==> required[1..][i] == required[i + 1];
      AsWrittenAgrees(required[1..], provided);
    }
  }

  /** Filtering commutes with concatenation: the external dependencies keep
      the relative order of the requires they come from. */
  lemma {:induction false} ExternalAppend(a: seq<Name>, b: seq<Name>, provided: set<Name>)
    ensures External(a + b, provided) == External(a, provided) + External(b, provided)
  {
    if |a| == 0 {
      assert a + b == b;
    } else {
      assert (a + b)[1..] == a[1..] + b;
      ExternalAppend(a[1..], b, provided);
    }
  }

  /** Whether the piece at k is a provide of exactly this name, which is what
      the per-descriptor provide pattern matches in the original text. */
  predicate ProvideOf(sp: seq<Piece>, k: int, name: Name)
  {
    0 <= k < |sp| && sp[k].Provide? && sp[k].name == name
  }

  /** The provide search from the cursor (the per-descriptor `provideRegExp`
      run from `markIndex`): the first provide of that name at or after
      `from`, or nothing, where the source's `exec` returns null and the
      following `[0]` throws. */
  function FindProvide(sp: seq<Piece>, name: Name, from: nat): (r: Option<nat>)
    requires from <= |sp|
    ensures r.Some? ==> from <= r.value && ProvideOf(sp, r.value, name)
    ensures r.Some? ==> forall k :: from <= k < r.value ==> !ProvideOf(sp, k, name)
    ensures r.None? ==> forall k :: from <= k < |sp| ==> !ProvideOf(sp, k, name)
    decreases |sp| - from
  {
    if from == |sp| then None
    else if sp[from].Provide? && sp[from].name == name then Some(from)
    else FindProvide(sp, name, from + 1)
  }

  /** One piece of output before rendering: a segment and the provide that
      governs it (none for the file's leading segment). */
  datatype Chunk = Chunk(governor: Option<Prefix>, segment: seq<Piece>)

  /** Every chunk after the first is governed by some provide. */
  predicate Chained(cs: seq<Chunk>)
  {
    |cs| >= 1 && forall j :: 1 <= j < |cs| ==> cs[j].governor.Some?
  }

  /** The pieces the chunks were cut from: each segment, with the governing
      provide's own matched text put back between consecutive segments. */
  function Reassemble(cs: seq<Chunk>): seq<Piece>
    requires Chained(cs)
  {
    if |cs| == 1 then cs[0].segment
    else
      var g := cs[1].governor.value;
      assert Chained(cs[1..]) by {
        assert forall j :: 1 <= j < |cs[1..]| ==> cs[1..][j] == cs[j + 1];
      }
      cs[0].segment + [Provide(g.provide, g.matched)] + Reassemble(cs[1..])
  }

  /** The governing properties that the source saves for descriptor `d`. */
  predicate GovernedBy(g: Option<Prefix>, d: Descriptor, provided: set<Name>)
  {
    g.Some? && g.value.provide == d.provide && g.value.reqs == External(d.required, provided)
  }

  /** Chunk j+1 is governed by descriptor j, for every j, and there is exactly
      one chunk more than there are descriptors. */
  predicate GovernedChain(cs: seq<Chunk>, ds: seq<Descriptor>, provided: set<Name>)
    decreases |ds|
  {
    if |ds| == 0 then |cs| == 1
    else |cs| >= 2 && GovernedBy(cs[1].governor, ds[0], provided) && GovernedChain(cs[1..], ds[1..], provided)
  }

  /** The chain read index by index. */
  lemma {:induction false} GovernedChainAt(cs: seq<Chunk>, ds: seq<Descriptor>, provided: set<Name>)
    requires GovernedChain(cs, ds, provided)
    ensures |cs| == |ds| + 1
    ensures forall j :: 0 <= j < |ds| ==> GovernedBy(cs[j + 1].governor, ds[j], provided)
    decreases |ds|
  {
    if |ds| > 0 {
      GovernedChainAt(cs[1..], ds[1..], provided);
      forall j | 0 <= j < |ds|
        ensures GovernedBy(cs[j + 1].governor, ds[j], provided)
      {
        if j > 0 {
          assert cs[j + 1] == cs[1..][(j - 1) + 1];
          assert ds[j] == ds[1..][j - 1];
        }
      }
    }
  }

  /** Putting a chunk in front of a governed chain. */
  lemma ExtendChain(gov: Option<Prefix>, seg: seq<Piece>, rest: seq<Chunk>, ds: seq<Descriptor>, provided: set<Name>)
    requires |ds| > 0 && Chained(rest)
    requires GovernedBy(rest[0].governor, ds[0], provided) && GovernedChain(rest, ds[1..], provided)
    ensures var cs := [Chunk(gov, seg)] + rest;
      && Chained(cs) && cs[0].governor == gov
      && GovernedChain(cs, ds, provided)
      && Reassemble(cs) == seg + [Provide(rest[0].governor.value.provide, rest[0].governor.value.matched)] + Reassemble(rest)
  {
  }

  /** The split-and-emit loop over `deps` from iteration i, cursor
      `markIndex` and the properties saved by the previous iteration. The
      text from the cursor to the next provide belongs to the PREVIOUS
      provide; the last chunk runs from the last provide to the end. */
  function Walk(sp: seq<Piece>, descs: seq<Descriptor>, provided: set<Name>,
                i: nat, cursor: nat, gov: Option<Prefix>): (r: Option<seq<Chunk>>)
    requires i <= |descs| && cursor <= |sp|
    ensures r.Some? ==> Chained(r.value) && r.value[0].governor == gov
    ensures r.Some? ==> GovernedChain(r.value, descs[i..], provided)
    decreases |descs| - i
  {
    if i == |descs| then Some([Chunk(gov, sp[cursor..])])
    else
      match FindProvide(sp, descs[i].provide, cursor)
      case None => None
      case Some(k) =>
        var next := Prefix(descs[i].provide, External(descs[i].required, provided), sp[k].lit);
        match Walk(sp, descs, provided, i + 1, k + 1, Some(next))
        case None => None
        case Some(rest) =>
          var cs := [Chunk(gov, sp[cursor..k])] + rest;
          assert descs[i..][0] == descs[i] && descs[i..][1..] == descs[i + 1..];
          ExtendChain(gov, sp[cursor..k], rest, descs[i..], provided);
          Some(cs)
  }

  /** One iteration of the loop, when the search succeeds and the rest of
      the loop does too. */
  lemma WalkStep(sp: seq<Piece>, descs: seq<Descriptor>, provided: set<Name>,
                 i: nat, cursor: nat, gov: Option<Prefix>, k: nat, next: Prefix)
    requires i < |descs| && cursor <= |sp|
    requires FindProvide(sp, descs[i].provide, cursor) == Some(k)
    requires next == Prefix(descs[i].provide, External(descs[i].required, provided), sp[k].lit)
    requires Walk(sp, descs, provided, i + 1, k + 1, Some(next)).Some?
    ensures Walk(sp, descs, provided, i, cursor, gov) ==
      Some([Chunk(gov, sp[cursor..k])] + Walk(sp, descs, provided, i + 1, k + 1, Some(next)).value)
  {
  }

  /** The segments the loop cuts, with each provide's matched text put back,
      are the require-stripped text from the cursor on: the segments partition
      the text and the cursor only moves forward. */
  lemma {:induction false} WalkPartition(sp: seq<Piece>, descs: seq<Descriptor>, provided: set<Name>,
                                         i: nat, cursor: nat, gov: Option<Prefix>)
    requires i <= |descs| && cursor <= |sp|
    requires Walk(sp, descs, provided, i, cursor, gov).Some?
    ensures Reassemble(Walk(sp, descs, provided, i, cursor, gov).value) == sp[cursor..]
    decreases |descs| - i
  {
    if i < |descs| {
      var k := FindProvide(sp, descs[i].provide, cursor).value;
      var next := Prefix(descs[i].provide, External(descs[i].required, provided), sp[k].lit);
      assert Walk(sp, descs, provided, i + 1, k + 1, Some(next)).Some?;
      var rest := Walk(sp, descs, provided, i + 1, k + 1, Some(next)).value;
      WalkPartition(sp, descs, provided, i + 1, k + 1, Some(next));
      WalkStep(sp, descs, provided, i, cursor, gov, k, next);
      assert descs[i..][0] == descs[i] && descs[i..][1..] == descs[i + 1..];
      ExtendChain(gov, sp[cursor..k], rest, descs[i..], provided);
      assert Provide(next.provide, next.matched) == sp[k];
      CutAt(sp, cursor, k);
    }
  }

  /** Segment j holds no provide of descriptor j's name: each segment ends
      at the FIRST provide of the next descriptor's name after the cursor. */
  predicate CutsAtFirst(cs: seq<Chunk>, ds: seq<Descriptor>)
    decreases |ds|
  {
    |ds| == 0 ||
    (|cs| > 0 && ds[0].provide !in ProvidedNames(cs[0].segment) && CutsAtFirst(cs[1..], ds[1..]))
  }

  /** The chain read index by index. */
  lemma {:induction false} CutsAtFirstAt(cs: seq<Chunk>, ds: seq<Descriptor>)
    requires CutsAtFirst(cs, ds)
    ensures |cs| >= |ds|
    ensures forall j :: 0 <= j < |ds| ==> ds[j].provide !in ProvidedNames(cs[j].segment)
    decreases |ds|
  {
    if |ds| > 0 {
      CutsAtFirstAt(cs[1..], ds[1..]);
      assert forall j :: 1 <= j < |ds| ==> cs[j] == cs[1..][j - 1] && ds[j] == ds[1..][j - 1];
    }
  }

  lemma CutsAtFirstCons(c: Chunk, rest: seq<Chunk>, descs: seq<Descriptor>, i: nat)
    requires i < |descs| && descs[i].provide !in ProvidedNames(c.segment)
    requires CutsAtFirst(rest, descs[i + 1..])
    ensures CutsAtFirst([c] + rest, descs[i..])
  {
    assert ([c] + rest)[1..] == rest;
    assert descs[i..][1..] == descs[i + 1..];
  }

  /** The loop cuts every segment at the first provide of the closing name,
      even when that name recurs later (say, in a comment the scanner never
      saw). */
  lemma {:induction false} WalkCutsAtFirst(sp: seq<Piece>, descs: seq<Descriptor>, provided: set<Name>,
                                           i: nat, cursor: nat, gov: Option<Prefix>)
    requires i <= |descs| && cursor <= |sp|
    requires Walk(sp, descs, provided, i, cursor, gov).Some?
    ensures CutsAtFirst(Walk(sp, descs, provided, i, cursor, gov).value, descs[i..])
    decreases |descs| - i
  {
    if i < |descs| {
      var name := descs[i].provide;
      var k := FindProvide(sp, name, cursor).value;
      var next := Prefix(name, External(descs[i].required, provided), sp[k].lit);
      WalkCutsAtFirst(sp, descs, provided, i + 1, k + 1, Some(next));
      WalkStep(sp, descs, provided, i, cursor, gov, k, next);
      FindProvideSplit(sp, name, cursor, k);
      CutsAtFirstCons(Chunk(gov, sp[cursor..k]), Walk(sp, descs, provided, i + 1, k + 1, Some(next)).value, descs, i);
    }
  }

  lemma CutAt<T>(s: seq<T>, from: nat, k: nat)
    requires from <= k < |s|
    ensures s[from..] == s[from..k] + [s[k]] + s[k + 1..]
  {
  }

  /** The provided names of the descriptors, in order. */
  function DescNames(ds: seq<Descriptor>): (r: seq<Name>)
    ensures |r| == |ds|
    ensures forall i :: 0 <= i < |ds| ==> r[i] == ds[i].provide
  {
    if |ds| == 0 then [] else [ds[0].provide] + DescNames(ds[1..])
  }

  /** `xs` can be read off `ys` left to right, skipping entries: the
      reference for when every provide search of the loop succeeds. */
  predicate IsSubseq<T(==)>(xs: seq<T>, ys: seq<T>)
    decreases |ys|
  {
    |xs| == 0 ||
    (|ys| > 0 && ((xs[0] == ys[0] && IsSubseq(xs[1..], ys[1..])) || IsSubseq(xs, ys[1..])))
  }

  lemma {:induction false} SubseqDropHead<T>(xs: seq<T>, ys: seq<T>)
    requires |xs| > 0 && IsSubseq(xs, ys)
    ensures IsSubseq(xs[1..], ys)
    decreases |ys|
  {
    if IsSubseq(xs, ys[1..]) {
      SubseqDropHead(xs, ys[1..]);
    }
  }

  lemma {:induction false} SubseqNeedsHead<T>(xs: seq<T>, ys: seq<T>)
    requires |xs| > 0 && xs[0] !in ys
    ensures !IsSubseq(xs, ys)
    decreases |ys|
  {
    if |ys| > 0 {
      assert xs[0] != ys[0];
      assert forall y :: y in ys[1..] ==> y in ys;
      SubseqNeedsHead(xs, ys[1..]);
    }
  }

  /** Matching `x` against its first occurrence loses nothing: what is left
      of `xs` must then be found after it. */
  lemma {:induction false} SubseqAtFirst<T>(x: T, xs: seq<T>, pre: seq<T>, post: seq<T>, zs: seq<T>, ys: seq<T>)
    requires x !in pre && zs == [x] + xs && ys == pre + [x] + post
    ensures IsSubseq(zs, ys) <==> IsSubseq(xs, post)
    decreases |pre|
  {
    assert zs[0] == x && zs[1..] == xs;
    if |pre| == 0 {
      assert ys[0] == x && ys[1..] == post;
      if IsSubseq(zs, post) {
        SubseqDropHead(zs, post);
      }
    } else {
      assert ys[0] == pre[0] && pre[0] != x;
      assert ys[1..] == pre[1..] + [x] + post;
      SubseqAtFirst(x, xs, pre[1..], post, zs, ys[1..]);
    }
  }

  /** When the search fails, no provide from `from` on carries the name. */
  lemma {:induction false} FindProvideMissing(sp: seq<Piece>, name: Name, from: nat)
    requires from <= |sp| && FindProvide(sp, name, from).None?
    ensures name !in ProvidedNames(sp[from..])
    decreases |sp| - from
  {
    if from < |sp| {
      FindProvideMissing(sp, name, from + 1);
      ProvidedNamesCons(sp, from, |sp|);
      assert sp[from..|sp|] == sp[from..] && sp[from + 1..|sp|] == sp[from + 1..];
    }
  }

  /** The names of the provides from `from` on, around the piece the search
      finds: the searched name does not occur before it. */
  lemma {:induction false} FindProvideSplit(sp: seq<Piece>, name: Name, from: nat, k: nat)
    requires from <= |sp| && FindProvide(sp, name, from) == Some(k)
    ensures from <= k < |sp|
    ensures ProvidedNames(sp[from..]) == ProvidedNames(sp[from..k]) + [name] + ProvidedNames(sp[k + 1..])
    ensures name !in ProvidedNames(sp[from..k])
    decreases |sp| - from
  {
    ProvidedNamesCons(sp, from, |sp|);
    assert sp[from..|sp|] == sp[from..] && sp[from + 1..|sp|] == sp[from + 1..];
    if k == from {
      assert sp[from..from] == [];
    } else {
      FindProvideSplit(sp, name, from + 1, k);
      ProvidedNamesCons(sp, from, k);
    }
  }

  lemma ProvidedNamesCons(sp: seq<Piece>, from: nat, to: nat)
    requires from < to <= |sp|
    ensures ProvidedNames(sp[from..to]) ==
      (if sp[from].Provide? then [sp[from].name] else []) + ProvidedNames(sp[from + 1..to])
  {
    assert sp[from..to][0] == sp[from] && sp[from..to][1..] == sp[from + 1..to];
  }

  /** One iteration decides the loop's success: the search must succeed and
      so must the rest of the loop. */
  lemma WalkSomeStep(sp: seq<Piece>, descs: seq<Descriptor>, provided: set<Name>,
                     i: nat, cursor: nat, gov: Option<Prefix>)
    requires i < |descs| && cursor <= |sp|
    ensures var f := FindProvide(sp, descs[i].provide, cursor);
      Walk(sp, descs, provided, i, cursor, gov).Some? <==>
        (f.Some? &&
         Walk(sp, descs, provided, i + 1, f.value + 1,
              Some(Prefix(descs[i].provide, External(descs[i].required, provided), sp[f.value].lit))).Some?)
  {
  }

  lemma DescNamesFrom(descs: seq<Descriptor>, i: nat)
    requires i < |descs|
    ensures DescNames(descs[i..]) == [descs[i].provide] + DescNames(descs[i + 1..])
  {
    assert descs[i..] == [descs[i]] + descs[i + 1..];
    assert descs[i..][1..] == descs[i + 1..];
  }

  /** A search that fails: the name is not among the provides left, so the
      remaining names cannot be read off them. */
  lemma SearchFails(sp: seq<Piece>, descs: seq<Descriptor>, i: nat, cursor: nat)
    requires i < |descs| && cursor <= |sp| && FindProvide(sp, descs[i].provide, cursor).None?
    ensures !IsSubseq(DescNames(descs[i..]), ProvidedNames(sp[cursor..]))
  {
    DescNamesFrom(descs, i);
    FindProvideMissing(sp, descs[i].provide, cursor);
    SubseqNeedsHead(DescNames(descs[i..]), ProvidedNames(sp[cursor..]));
  }

  /** A search that lands on k: the rest of the names must be read off the
      provides after k. */
  lemma SearchLands(sp: seq<Piece>, descs: seq<Descriptor>, i: nat, cursor: nat, k: nat)
    requires i < |descs| && cursor <= |sp| && FindProvide(sp, descs[i].provide, cursor) == Some(k)
    ensures IsSubseq(DescNames(descs[i..]), ProvidedNames(sp[cursor..])) <==>
            IsSubseq(DescNames(descs[i + 1..]), ProvidedNames(sp[k + 1..]))
  {
    var name, xs, zs := descs[i].provide, DescNames(descs[i + 1..]), DescNames(descs[i..]);
    DescNamesFrom(descs, i);
    FindProvideSplit(sp, name, cursor, k);
    var pre, post, ys := ProvidedNames(sp[cursor..k]), ProvidedNames(sp[k + 1..]), ProvidedNames(sp[cursor..]);
    SubseqAtFirst(name, xs, pre, post, zs, ys);
  }

  /** The loop finishes exactly when the names of the remaining descriptors
      can be read, in order, off the provides from the cursor on; otherwise
      some search fails and the source's catch is taken. */
  lemma {:induction false} WalkSucceeds(sp: seq<Piece>, descs: seq<Descriptor>, provided: set<Name>,
                                        i: nat, cursor: nat, gov: Option<Prefix>)
    requires i <= |descs| && cursor <= |sp|
    ensures Walk(sp, descs, provided, i, cursor, gov).Some? <==>
            IsSubseq(DescNames(descs[i..]), ProvidedNames(sp[cursor..]))
    decreases |descs| - i
  {
    if i < |descs| {
      WalkSomeStep(sp, descs, provided, i, cursor, gov);
      var f := FindProvide(sp, descs[i].provide, cursor);
      if f.None? {
        SearchFails(sp, descs, i, cursor);
      } else {
        var k := f.value;
        WalkSucceeds(sp, descs, provided, i + 1, k + 1,
                     Some(Prefix(descs[i].provide, External(descs[i].required, provided), sp[k].lit)));
        SearchLands(sp, descs, i, cursor, k);
      }
    }
  }


  /** What the comment stripper hands the scanner: the decompiled text and
      the declarations the declaration pattern finds in it, or a parse error. */
  datatype Stripped = Stripped(text: string, decls: seq<Decl>) | ParseFailure

  /** The three ways `convert` can end. */
  datatype Outcome =
    | Unchanged                                        // the catch: original contents
    | Decompiled(text: string)                         // no provide: the stripped text
    | Converted(chunks: seq<Chunk>, bracketed: bool)   // wrapped modules

  /** All provided names of the declarations, as a lookup set. */
  function ProvidedSet(ds: seq<Decl>): set<Name>
  {
    set n | n in DeclProvideNames(ds)
  }

  /** Pieces free of `dojo.require` calls. */
  predicate NoRequires(seg: seq<Piece>)
  {
    forall i :: 0 <= i < |seg| ==> !seg[i].Require?
  }

  /** The decisions of `convert`, before the strings are built. The catch is
      taken on a parse failure, or when the file's provides, in the order the
      scanner saw them, cannot all be found again in order in the original
      text. */
  function Plan(original: seq<Piece>, strip: Stripped): (o: Outcome)
    ensures strip.ParseFailure? ==> o == Unchanged
    ensures o.Unchanged? <==> (strip.ParseFailure? ||
      (DeclProvideNames(strip.decls) != [] && !IsSubseq(DeclProvideNames(strip.decls), ProvidedNames(original))))
    ensures o.Decompiled? <==> strip.Stripped? && DeclProvideNames(strip.decls) == []
    ensures o.Decompiled? ==> o.text == strip.text
    ensures o.Converted? ==>
      && strip.Stripped?
      && |o.chunks| == |DeclProvideNames(strip.decls)| + 1
      && o.bracketed == (|DeclProvideNames(strip.decls)| > 1)
      && o.chunks[0].governor == None
      && GovernedChain(o.chunks, Descs(strip.decls), ProvidedSet(strip.decls))
      && Chained(o.chunks)
      && Reassemble(o.chunks) == StripRequires(original)
      && (forall j :: 0 <= j < |o.chunks| ==> NoRequires(o.chunks[j].segment))
      && (forall j :: 0 <= j < |Descs(strip.decls)| ==>
            Descs(strip.decls)[j].provide !in ProvidedNames(o.chunks[j].segment))
  {
    match strip
    case ParseFailure => Unchanged
    case Stripped(text, decls) =>
      var st := Scan(decls);
      ScanMatchesReference(decls);
      assert st.provided == ProvidedSet(decls);
      if |st.deps| == 0 then Decompiled(text)
      else
        var sp := StripRequires(original);
        assert sp[0..] == sp;
        assert st.deps[0..] == st.deps;
        assert DescNames(st.deps) == DeclProvideNames(decls);
        ProvideNamesAgree(original);
        WalkSucceeds(sp, st.deps, st.provided, 0, 0, None);
        match Walk(sp, st.deps, st.provided, 0, 0, None)
        case None => Unchanged
        case Some(chunks) =>
          GovernedChainAt(chunks, st.deps, st.provided);
          WalkPartition(sp, st.deps, st.provided, 0, 0, None);
          SegmentsFreeOfRequires(chunks);
          WalkCutsAtFirst(sp, st.deps, st.provided, 0, 0, None);
          CutsAtFirstAt(chunks, st.deps);
          Converted(chunks, |st.deps| > 1)
  }

  lemma {:induction false} SegmentsFreeOfRequires(cs: seq<Chunk>)
    requires Chained(cs) && NoRequires(Reassemble(cs))
    ensures forall j :: 0 <= j < |cs| ==> NoRequires(cs[j].segment)
  {
    if |cs| > 1 {
      var g := cs[1].governor.value;
      var whole := cs[0].segment + [Provide(g.provide, g.matched)] + Reassemble(cs[1..]);
      assert Chained(cs[1..]) by {
        assert forall j :: 1 <= j < |cs[1..]| ==> cs[1..][j] == cs[j + 1];
      }
      assert forall i :: 0 <= i < |cs[0].segment| ==> whole[i] == cs[0].segment[i];
      assert forall i :: 0 <= i < |Reassemble(cs[1..])| ==>
        whole[|cs[0].segment| + 1 + i] == Reassemble(cs[1..])[i];
      SegmentsFreeOfRequires(cs[1..]);
      assert forall j :: 1 <= j < |cs| ==> cs[j] == cs[1..][j - 1];
    }
  }

  const PauseCall: string := "run.pause();\n"
  const ResumeCall: string := "run.resume();\n"

  /** The emitted text of the chunks, in order. */
  function EmitChunks(cs: seq<Chunk>): string
  {
    if |cs| == 0 then "" else WriteRunEnd(cs[0].governor, cs[0].segment) + EmitChunks(cs[1..])
  }

  /** `convert(fileName, fileContents)`: the original file as pieces and what
      the comment stripper made of it. */
  function Convert(original: seq<Piece>, strip: Stripped): (r: string)
    ensures strip.ParseFailure? ==> r == Render(original)
    ensures (strip.Stripped? && DeclProvideNames(strip.decls) != [] &&
             !IsSubseq(DeclProvideNames(strip.decls), ProvidedNames(original))) ==> r == Render(original)
    ensures strip.Stripped? && DeclProvideNames(strip.decls) == [] ==> r == strip.text
    ensures Plan(original, strip).Converted? && |DeclProvideNames(strip.decls)| > 1 ==>
      r == PauseCall + EmitChunks(Plan(original, strip).chunks) + ResumeCall
    ensures Plan(original, strip).Converted? && |DeclProvideNames(strip.decls)| == 1 ==>
      r == EmitChunks(Plan(original, strip).chunks)
  {
    match Plan(original, strip)
    case Unchanged => Render(original)
    case Decompiled(text) => text
    case Converted(chunks, bracketed) =>
      var body := EmitChunks(chunks);
      if bracketed then PauseCall + body + ResumeCall else body
  }
}
