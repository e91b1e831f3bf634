/**
  Conversion of a well-behaved file: when the declarations the scanner sees in
  the comment-stripped text are exactly the declarations of the original text
  (none hides inside a comment or a string), every provide search succeeds,
  so the catch is never taken and each segment is cut at the right provide.
 */
module Alignment {
  import opened Strings
  import opened Source
  import opened Scanner
  import opened Emitter
  import opened Converter

  lemma {:induction false} NoProvideNoNames(ps: seq<Piece>)
    requires forall m :: 0 <= m < |ps| ==> !ps[m].Provide?
    ensures ProvidedNames(ps) == []
  {
    if |ps| > 0 {
      NoProvideNoNames(ps[1..]);
    }
  }

  /** The position of the first provide piece, and what lies either side of it. */
  lemma {:induction false} FirstProvide(ps: seq<Piece>) returns (k: nat)
    requires ProvidedNames(ps) != []
    ensures k < |ps| && ps[k].Provide?
    ensures forall m :: 0 <= m < k ==> !ps[m].Provide?
    ensures ProvidedNames(ps) == [ps[k].name] + ProvidedNames(ps[k + 1..])
  {
    if ps[0].Provide? {
      k := 0;
    } else {
      var k' := FirstProvide(ps[1..]);
      k := k' + 1;
      assert ps[1..][k' + 1..] == ps[k + 1..];
    }
  }

  /** When the next provide after the cursor carries `name`, the search
      lands on it, and nothing before it is a provide. */
  lemma SearchFindsNextProvide(sp: seq<Piece>, name: Name, cursor: nat) returns (k: nat)
    requires cursor <= |sp|
    requires ProvidedNames(sp[cursor..]) != [] && ProvidedNames(sp[cursor..])[0] == name
    ensures cursor <= k < |sp|
    ensures FindProvide(sp, name, cursor) == Some(k)
    ensures ProvidedNames(sp[cursor..]) == [name] + ProvidedNames(sp[k + 1..])
    ensures ProvidedNames(sp[cursor..k]) == []
  {
    var ps := sp[cursor..];
    var k0 := FirstProvide(ps);
    k := cursor + k0;
    assert ps[k0] == sp[k];
    assert ps[k0 + 1..] == sp[k + 1..];
    assert ProvideOf(sp, k, name);
    assert forall m :: cursor <= m < k ==> !sp[m].Provide? by {
      assert forall m :: cursor <= m < k ==> sp[m] == ps[m - cursor];
    }
    assert forall m :: 0 <= m < |sp[cursor..k]| ==> !sp[cursor..k][m].Provide? by {
      assert forall m :: 0 <= m < |sp[cursor..k]| ==> sp[cursor..k][m] == sp[cursor + m];
    }
    NoProvideNoNames(sp[cursor..k]);
  }

  /** No chunk's segment holds a provide. */
  predicate ProvideFree(cs: seq<Chunk>)
  {
    |cs| == 0 || (ProvidedNames(cs[0].segment) == [] && ProvideFree(cs[1..]))
  }

  lemma {:induction false} ProvideFreeAt(cs: seq<Chunk>)
    requires ProvideFree(cs)
    ensures forall j :: 0 <= j < |cs| ==> ProvidedNames(cs[j].segment) == []
  {
    if |cs| > 0 {
      ProvideFreeAt(cs[1..]);
      assert forall j :: 1 <= j < |cs| ==> cs[j] == cs[1..][j - 1];
    }
  }

  lemma ProvideFreeCons(c: Chunk, rest: seq<Chunk>)
    requires ProvidedNames(c.segment) == [] && ProvideFree(rest)
    ensures ProvideFree([c] + rest)
  {
    assert ([c] + rest)[1..] == rest;
  }

  /** When the provides from the cursor on are exactly the remaining
      descriptors, in order, the loop finishes, and no segment it cuts holds
      a provide: each provide piece is the boundary of its own segment. */
  lemma {:induction false} WalkAligned(sp: seq<Piece>, descs: seq<Descriptor>, provided: set<Name>,
                                       i: nat, cursor: nat, gov: Option<Prefix>)
    requires i <= |descs| && cursor <= |sp|
    requires ProvidedNames(sp[cursor..]) == DescNames(descs[i..])
    ensures Walk(sp, descs, provided, i, cursor, gov).Some?
    ensures ProvideFree(Walk(sp, descs, provided, i, cursor, gov).value)
    decreases |descs| - i
  {
    if i < |descs| {
      var name := descs[i].provide;
      DescNamesFrom(descs, i);
      var k := SearchFindsNextProvide(sp, name, cursor);
      var next := Prefix(name, External(descs[i].required, provided), sp[k].lit);
      WalkAligned(sp, descs, provided, i + 1, k + 1, Some(next));
      WalkStep(sp, descs, provided, i, cursor, gov, k, next);
      ProvideFreeCons(Chunk(gov, sp[cursor..k]), Walk(sp, descs, provided, i + 1, k + 1, Some(next)).value);
    } else {
      assert Walk(sp, descs, provided, i, cursor, gov).value == [Chunk(gov, sp[cursor..])];
      assert [Chunk(gov, sp[cursor..])][1..] == [];
    }
  }

  /** A file whose declarations are all visible to the scanner, with at least
      one provide, is converted: one chunk per provide plus the leading one,
      chunk j+1 governed by the j-th provide of the file, and no segment holds
      a provide, so each wrapper's body carries exactly its own provide. */
  lemma AlignedFileConverts(original: seq<Piece>, text: string)
    requires ProvidedNames(original) != []
    ensures var o := Plan(original, Stripped(text, Declarations(original)));
      && o.Converted?
      && |o.chunks| == |ProvidedNames(original)| + 1
      && o.bracketed == (|ProvidedNames(original)| > 1)
      && (forall j :: 1 <= j < |o.chunks| ==>
            o.chunks[j].governor.Some? && o.chunks[j].governor.value.provide == ProvidedNames(original)[j - 1])
      && (forall j :: 0 <= j < |o.chunks| ==> ProvidedNames(o.chunks[j].segment) == [])
  {
    var decls := Declarations(original);
    ProvideNamesAgree(original);
    ScanMatchesReference(decls);
    var st := Scan(decls);
    var sp := StripRequires(original);
    assert sp[0..] == sp;
    assert st.deps[0..] == st.deps;
    assert DescNames(st.deps) == DeclProvideNames(decls);
    WalkAligned(sp, st.deps, st.provided, 0, 0, None);
    var cs := Walk(sp, st.deps, st.provided, 0, 0, None).value;
    ProvideFreeAt(cs);
    var o := Plan(original, Stripped(text, decls));
    assert o.chunks == cs;
    GovernedChainAt(cs, Descs(decls), ProvidedSet(decls));
    forall j | 1 <= j < |cs|
      ensures cs[j].governor.Some? && cs[j].governor.value.provide == ProvidedNames(original)[j - 1]
    {
      var d := j - 1;
      assert cs[d + 1] == cs[j];
      assert GovernedBy(cs[d + 1].governor, Descs(decls)[d], ProvidedSet(decls));
      assert Descs(decls)[d].provide == DeclProvideNames(decls)[d];
    }
  }
}
