/**
  The data model of one Dojo source file.

  The converter matches four kinds of text with regular expressions:
  `dojo.provide("x")`, `dojo.require("x")`, `dojo.cache("mod", "file")`, and
  everything else. The model treats that matching as already done: a file is
  the sequence of its pieces, and each declaration piece keeps the exact text
  it was matched from, so the original file can be rebuilt from the pieces.
 */
module Source {

  /** A module name as the declaration regex captures it (`[\w-_\.]+`): never empty. */
  type Name = s: string | |s| > 0 witness "a"

  datatype Piece =
    | Text(text: string)
    | Provide(name: Name, lit: string)
    | Require(name: Name, lit: string)
    | Cache(mod: string, file: string, lit: string)

  /** The source text a piece stands for. */
  function Literal(p: Piece): string
  {
    match p
    case Text(t) => t
    case Provide(_, l) => l
    case Require(_, l) => l
    case Cache(_, _, l) => l
  }

  /** The file text made of a sequence of pieces. */
  function Render(ps: seq<Piece>): string
  {
    if |ps| == 0 then "" else Literal(ps[0]) + Render(ps[1..])
  }

  /** A declaration as the scanner sees it in the comment-stripped text. */
  datatype Decl = ProvideDecl(name: Name) | RequireDecl(name: Name)

  /** The declarations of a file in source order, as the declaration regex finds
      them when no declaration sits inside a comment or a string. */
  function Declarations(ps: seq<Piece>): (ds: seq<Decl>)
    ensures |ds| <= |ps|
  {
    if |ps| == 0 then []
    else
      var rest := Declarations(ps[1..]);
      match ps[0]
      case Provide(n, _) => [ProvideDecl(n)] + rest
      case Require(n, _) => [RequireDecl(n)] + rest
      case _ => rest
  }

  /** Removes every `dojo.require(...)` call from the original text (the global
      replace with an empty string). Every other piece is kept, in order. */
  function StripRequires(ps: seq<Piece>): (r: seq<Piece>)
    ensures forall i :: 0 <= i < |r| ==> !r[i].Require?
    ensures forall p :: p in r <==> p in ps && !p.Require?
    ensures |r| <= |ps|
    ensures |ps| == 1 ==> r == (if ps[0].Require? then [] else ps)
  {
    if |ps| == 0 then []
    else if ps[0].Require? then StripRequires(ps[1..])
    else [ps[0]] + StripRequires(ps[1..])
  }

  /** The replace works piece by piece: stripping a concatenation strips each
      part, so the kept pieces stay in their order and multiplicity. */
  lemma {:induction false} StripRequiresAppend(a: seq<Piece>, b: seq<Piece>)
    ensures StripRequires(a + b) == StripRequires(a) + StripRequires(b)
  {
    if |a| == 0 {
      assert a + b == b;
    } else {
      assert (a + b)[0] == a[0] && (a + b)[1..] == a[1..] + b;
      StripRequiresAppend(a[1..], b);
    }
  }

  /** The names of the Provide pieces, in source order. */
  function ProvidedNames(ps: seq<Piece>): seq<Name>
  {
    if |ps| == 0 then []
    else if ps[0].Provide? then [ps[0].name] + ProvidedNames(ps[1..])
    else ProvidedNames(ps[1..])
  }

  /** The names of the provide declarations, in source order. */
  function DeclProvideNames(ds: seq<Decl>): seq<Name>
  {
    if |ds| == 0 then []
    else if ds[0].ProvideDecl? then [ds[0].name] + DeclProvideNames(ds[1..])
    else DeclProvideNames(ds[1..])
  }

  /** Stripping the requires keeps every provide, in order, and the
      declaration view lists exactly the file's provides. */
  lemma {:induction false} ProvideNamesAgree(ps: seq<Piece>)
    ensures ProvidedNames(StripRequires(ps)) == ProvidedNames(ps)
    ensures DeclProvideNames(Declarations(ps)) == ProvidedNames(ps)
  {
    if |ps| > 0 {
      ProvideNamesAgree(ps[1..]);
      if !ps[0].Require? {
        assert ([ps[0]] + StripRequires(ps[1..]))[1..] == StripRequires(ps[1..]);
      }
      match ps[0]
      case Provide(n, _) =>
        assert ([ProvideDecl(n)] + Declarations(ps[1..]))[1..] == Declarations(ps[1..]);
      case Require(n, _) =>
        assert ([RequireDecl(n)] + Declarations(ps[1..]))[1..] == Declarations(ps[1..]);
      case _ =>
    }
  }
}
