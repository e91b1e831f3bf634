/**
  The dependency scanner: the loop over the declaration matches of the
  comment-stripped text, which builds one descriptor per `dojo.provide` and
  appends each `dojo.require` to the most recent descriptor.
 */
module Scanner {
  import opened Source

  /** `{provide: ..., requires: [...]}` */
  datatype Descriptor = Descriptor(provide: Name, required: seq<Name>)

  /** The scan's state: the descriptors so far (`deps`) and the quick-lookup
      set of provided names (`deps.provides`). The current descriptor is the
      last one in `deps`. */
  datatype ScanState = ScanState(deps: seq<Descriptor>, provided: set<Name>)

  /** One iteration of the scan loop, for one declaration match. A require
      seen while there is no current descriptor is skipped. */
  function Step(st: ScanState, d: Decl): (r: ScanState)
  {
    match d
    case ProvideDecl(n) =>
      ScanState(st.deps + [Descriptor(n, [])], st.provided + {n})
    case RequireDecl(n) =>
      if |st.deps| == 0 then st
      else
        var cur := st.deps[|st.deps| - 1];
        ScanState(st.deps[..|st.deps| - 1] + [Descriptor(cur.provide, cur.required + [n])], st.provided)
  }

  /** The whole scan: the loop run over the declarations left to right. */
  function Scan(ds: seq<Decl>): ScanState
  {
    if |ds| == 0 then ScanState([], {})
    else Step(Scan(ds[..|ds| - 1]), ds[|ds| - 1])
  }

  /** The requires that follow, up to the next provide. */
  function RequiresUntilProvide(ds: seq<Decl>): seq<Name>
  {
    if |ds| == 0 || ds[0].ProvideDecl? then []
    else [ds[0].name] + RequiresUntilProvide(ds[1..])
  }

  /** Reference definition of the descriptors, read front to back: every
      provide opens a descriptor holding the requires that follow it up to
      the next provide; requires before the first provide belong to nobody. */
  function Descs(ds: seq<Decl>): (r: seq<Descriptor>)
    ensures |r| == |DeclProvideNames(ds)|
    ensures forall i :: 0 <= i < |r| ==> r[i].provide == DeclProvideNames(ds)[i]
  {
    if |ds| == 0 then []
    else match ds[0]
      case RequireDecl(_) => Descs(ds[1..])
      case ProvideDecl(n) => [Descriptor(n, RequiresUntilProvide(ds[1..]))] + Descs(ds[1..])
  }

  lemma {:induction false} DeclProvideNamesSnoc(ds: seq<Decl>, x: Decl)
    ensures DeclProvideNames(ds + [x]) == DeclProvideNames(ds) + (if x.ProvideDecl? then [x.name] else [])
  {
    if |ds| == 0 {
      assert [x][1..] == [];
    } else {
      assert (ds + [x])[1..] == ds[1..] + [x];
      DeclProvideNamesSnoc(ds[1..], x);
    }
  }

  lemma {:induction false} RequiresUntilProvideSnoc(ds: seq<Decl>, x: Decl)
    ensures RequiresUntilProvide(ds + [x]) ==
      if DeclProvideNames(ds) != [] || x.ProvideDecl? then RequiresUntilProvide(ds)
      else RequiresUntilProvide(ds) + [x.name]
  {
    if |ds| == 0 {
      assert [x][1..] == [];
    } else {
      assert (ds + [x])[1..] == ds[1..] + [x];
      RequiresUntilProvideSnoc(ds[1..], x);
    }
  }

  /** Appending one declaration to the reference is one loop iteration. */
  lemma {:induction false} DescsSnoc(ds: seq<Decl>, x: Decl, p: set<Name>)
    ensures Descs(ds + [x]) == Step(ScanState(Descs(ds), p), x).deps
  {
    if |ds| == 0 {
      assert [x][1..] == [];
    } else {
      var tail := ds[1..];
      assert (ds + [x])[1..] == tail + [x];
      DescsSnoc(tail, x, p);
      match ds[0]
      case RequireDecl(_) =>
      case ProvideDecl(n) =>
        RequiresUntilProvideSnoc(tail, x);
        var d := Descriptor(n, RequiresUntilProvide(tail));
        var l := Descs(tail);
        assert Descs(ds) == [d] + l;
        match x
        case ProvideDecl(m) =>
          assert Descs(ds + [x]) == [d] + (l + [Descriptor(m, [])]);
        case RequireDecl(m) =>
          if |l| == 0 {
            assert Descs(ds + [x]) == [Descriptor(n, RequiresUntilProvide(tail) + [m])];
          } else {
            var cur := l[|l| - 1];
            assert ([d] + l)[..|l|] == [d] + l[..|l| - 1];
            assert Descs(ds + [x]) == [d] + (l[..|l| - 1] + [Descriptor(cur.provide, cur.required + [m])]);
          }
    }
  }

  /** The scan loop builds exactly the reference descriptors, and its lookup
      set holds exactly the provided names. */
  lemma {:induction false} ScanMatchesReference(ds: seq<Decl>)
    ensures Scan(ds).deps == Descs(ds)
    ensures forall n :: n in Scan(ds).provided <==> n in DeclProvideNames(ds)
  {
    if |ds| > 0 {
      var init := ds[..|ds| - 1];
      var x := ds[|ds| - 1];
      assert init + [x] == ds;
      ScanMatchesReference(init);
      DescsSnoc(init, x, Scan(init).provided);
      DeclProvideNamesSnoc(init, x);
    }
  }

  /** Requires that appear before the first provide are silently dropped. */
  lemma {:induction false} LeadingRequiresDropped(pre: seq<Decl>, rest: seq<Decl>)
    requires forall i :: 0 <= i < |pre| ==> pre[i].RequireDecl?
    ensures Scan(pre + rest).deps == Scan(rest).deps
  {
    ScanMatchesReference(pre + rest);
    ScanMatchesReference(rest);
    DropRequires(pre, rest);
  }

  lemma {:induction false} DropRequires(pre: seq<Decl>, rest: seq<Decl>)
    requires forall i :: 0 <= i < |pre| ==> pre[i].RequireDecl?
    ensures Descs(pre + rest) == Descs(rest)
  {
    if |pre| > 0 {
      assert (pre + rest)[1..] == pre[1..] + rest;
      DropRequires(pre[1..], rest);
    } else {
      assert pre + rest == rest;
    }
  }
}
