/** Syntax trees of patterns, and the capture groups they contain. */
module RegexpSyntax {
  import opened CharSets

  const INFINITE: int := 0x7fff_ffff // INT32_MAX: no upper bound on the repetition
  const MAX_CODE_POINT: int := 0x10_ffff
  const CAPTURE_COUNT_MAX: int := 255

  /**
   * One term of a pattern. A disjunction lists its alternatives (at least one in parsed patterns), an alternative its
   * terms.
   */
  datatype Term =
    | LineStart
    | LineEnd
    | WordBoundary(negated: bool)
    | Dot
    | Char(c: int)
    | Class(points: Points)
    | BackReference(index: int)
    | Group(alts: Disjunction)
    | Capture(alts: Disjunction)
    | Look(negated: bool, behind: bool, alts: Disjunction)
    | Quantified(atom: Term, min: int, max: int, greedy: bool)

  datatype Alternative = Alternative(terms: seq<Term>)
  type Disjunction = seq<Alternative>

  function Captures(t: Term): nat
    decreases t
  {
    match t
    case Group(d) => DisjunctionCaptures(d)
    case Capture(d) => 1 + DisjunctionCaptures(d)
    case Look(_, _, d) => DisjunctionCaptures(d)
    case Quantified(a, _, _, _) => Captures(a)
    case _ => 0
  }

  function SequenceCaptures(a: seq<Term>): nat
    decreases a
  {
    if |a| == 0 then 0 else SequenceCaptures(a[..|a| - 1]) + Captures(a[|a| - 1])
  }

  function DisjunctionCaptures(d: Disjunction): nat
    decreases d
  {
    if |d| == 0 then 0 else DisjunctionCaptures(d[..|d| - 1]) + SequenceCaptures(d[|d| - 1].terms)
  }

  /** A parsed term all of whose classes can be emitted. */
  ghost predicate WellFormed(t: Term)
    decreases t
  {
    match t
    case Char(c) => 0 <= c <= MAX_CODE_POINT
    case Class(p) => Canonical(p) && |p| <= 2 * 65534
    case BackReference(i) => 0 <= i < 256
    case Group(d) => DisjunctionWellFormed(d)
    case Capture(d) => DisjunctionWellFormed(d)
    case Look(_, _, d) => DisjunctionWellFormed(d)
    case Quantified(a, min, max, _) => WellFormed(a) && 0 <= min <= max <= INFINITE
    case _ => true
  }

  ghost predicate SequenceWellFormed(a: seq<Term>)
    decreases a
  {
    |a| == 0 || (SequenceWellFormed(a[..|a| - 1]) && WellFormed(a[|a| - 1]))
  }

  ghost predicate DisjunctionWellFormed(d: Disjunction)
    decreases d
  {
    |d| == 0 || (DisjunctionWellFormed(d[..|d| - 1]) && SequenceWellFormed(d[|d| - 1].terms))
  }

  /** What the parser guarantees of a term; it leaves the size of classes to the code generator. */
  ghost predicate Parsed(t: Term)
    decreases t
  {
    match t
    case Char(c) => 0 <= c <= MAX_CODE_POINT
    case Class(p) => Canonical(p)
    case BackReference(i) => 0 <= i < 256
    case Group(d) => DisjunctionParsed(d)
    case Capture(d) => DisjunctionParsed(d)
    case Look(_, _, d) => DisjunctionParsed(d)
    case Quantified(a, min, max, _) => Parsed(a) && 0 <= min <= max <= INFINITE
    case _ => true
  }

  ghost predicate SequenceParsed(a: seq<Term>)
    decreases a
  {
    forall i :: 0 <= i < |a| ==> Parsed(a[i])
  }

  ghost predicate DisjunctionParsed(d: Disjunction)
    decreases d
  {
    |d| > 0 && forall i :: 0 <= i < |d| ==> SequenceParsed(d[i].terms)
  }

  lemma {:induction false} SequencePrefix(a: seq<Term>, i: nat)
    requires i <= |a|
    ensures SequenceWellFormed(a) ==> SequenceWellFormed(a[..i])
    ensures SequenceCaptures(a[..i]) <= SequenceCaptures(a)
    decreases |a|
  {
    if i < |a| {
      SequencePrefix(a[..|a| - 1], i);
      assert a[..|a| - 1][..i] == a[..i];
    } else {
      assert a[..i] == a;
    }
  }

  lemma {:induction false} DisjunctionPrefix(d: Disjunction, i: nat)
    requires i <= |d|
    ensures DisjunctionWellFormed(d) ==> DisjunctionWellFormed(d[..i])
    ensures DisjunctionCaptures(d[..i]) <= DisjunctionCaptures(d)
    decreases |d|
  {
    if i < |d| {
      DisjunctionPrefix(d[..|d| - 1], i);
      assert d[..|d| - 1][..i] == d[..i];
    } else {
      assert d[..i] == d;
    }
  }
}
