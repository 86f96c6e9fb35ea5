/**
 * The meaning of patterns: a recursive backtracking matcher in the style of section 22.2.2 of ECMA-262. Instead of
 * calling a continuation, a matcher returns all its end states in the order in which backtracking would try them. As in
 * the engine (and unlike in ECMA-262) a quantifier with minimum 0 clears the captures of its atom once, when it is
 * entered, and a group sets its start capture on entry.
 */
module RegexpSemantics {
  import opened CharSets
  import opened RegexpSyntax
  import opened RegexpCode

  const UNSET: int := -1 // a NULL capture pointer

  /** The subject of a match: fixed-width characters, the flags, and the number of capture groups (group 0 included). */
  datatype Subject = Subject(input: seq<int>, opts: Options, captureCount: nat)

  ghost predicate SubjectOk(s: Subject) {
    OptionsOk(s.opts) && forall i :: 0 <= i < |s.input| ==> 0 <= s.input[i] <= MAX_CODE_POINT
  }

  datatype MatchState = MatchState(pos: int, captures: seq<int>)

  /** Positions and captures lie in the input. */
  ghost predicate Valid(s: Subject, x: MatchState) {
    && 0 <= x.pos <= |s.input|
    && |x.captures| == 2 * s.captureCount
    && forall i :: 0 <= i < |x.captures| ==> UNSET <= x.captures[i] <= |s.input|
  }

  /** y is at or after x in the direction of matching. */
  ghost predicate Ahead(back: bool, x: MatchState, y: MatchState) {
    if back then y.pos <= x.pos else x.pos <= y.pos
  }

  ghost predicate AllFrom(s: Subject, back: bool, x: MatchState, ys: seq<MatchState>) {
    forall i :: 0 <= i < |ys| ==> Valid(s, ys[i]) && Ahead(back, x, ys[i])
  }

  ghost predicate AllValid(s: Subject, ys: seq<MatchState>) {
    forall i :: 0 <= i < |ys| ==> Valid(s, ys[i])
  }

  predicate IsLineTerminator(c: int) {
    c == 0x0a || c == 0x0d || c == 0x2028 || c == 0x2029
  }

  predicate IsWordChar(c: int) {
    0x30 <= c <= 0x39 || 0x61 <= c <= 0x7a || 0x41 <= c <= 0x5a || c == 0x5f
  }

  predicate WordCharAt(s: Subject, i: int) {
    0 <= i < |s.input| && IsWordChar(s.input[i])
  }

  /** The terms that match exactly one character. */
  predicate IsOneChar(t: Term) {
    t.Dot? || t.Char? || t.Class?
  }

  ghost predicate MatchesChar(o: Options, t: Term, c: int)
    requires IsOneChar(t)
  {
    match t
    case Dot => o.dotAll || !IsLineTerminator(c)
    case Char(d) => Fold(o, c) == Fold(o, d)
    case Class(p) => Member(p, Fold(o, c))
  }

  ghost predicate AssertionHolds(s: Subject, t: Term, pos: int)
    requires t.LineStart? || t.LineEnd? || t.WordBoundary?
    requires 0 <= pos <= |s.input|
  {
    match t
    case LineStart => pos == 0 || (s.opts.multiLine && IsLineTerminator(s.input[pos - 1]))
    case LineEnd => pos == |s.input| || (s.opts.multiLine && IsLineTerminator(s.input[pos]))
    case WordBoundary(negated) => (WordCharAt(s, pos - 1) != WordCharAt(s, pos)) != negated
  }

  predicate SameAt(s: Subject, p: int, q: int, i: int)
    requires 0 <= p + i < |s.input| && 0 <= q + i < |s.input|
  {
    Fold(s.opts, s.input[p + i]) == Fold(s.opts, s.input[q + i])
  }

  /** The n characters from p on equal, up to case folding, the n characters from q on. */
  ghost predicate SameText(s: Subject, p: int, q: int, n: int)
    requires 0 <= p && 0 <= q && p + n <= |s.input| && q + n <= |s.input|
  {
    forall i :: 0 <= i < n ==> SameAt(s, p, q, i)
  }

  ghost function MatchBackReference(s: Subject, index: int, back: bool, x: MatchState): (r: seq<MatchState>)
    requires Valid(s, x) && 0 <= index
    ensures AllFrom(s, back, x, r) && |r| <= 1
  {
    if index >= s.captureCount then []
    else
      var start, end := x.captures[2 * index], x.captures[2 * index + 1];
      var n := if start == UNSET || end == UNSET || end < start then 0 else end - start;
      var from := if back then x.pos - n else x.pos;
      if n == 0 then [x]
      else if 0 <= from && from + n <= |s.input| && SameText(s, start, from, n) then
        [x.(pos := if back then x.pos - n else x.pos + n)]
      else []
  }

  function SetCapture(x: MatchState, i: int, v: int): MatchState
    requires 0 <= i < |x.captures|
  {
    x.(captures := x.captures[i := v])
  }

  /** Clears the captures of the groups numbered from first up to but excluding end. */
  function ResetCaptures(captures: seq<int>, first: int, end: int): (r: seq<int>)
    ensures |r| == |captures|
    ensures forall i :: 0 <= i < |r| ==> r[i] == if 2 * first <= i < 2 * end then UNSET else captures[i]
  {
    seq(|captures|, i requires 0 <= i < |captures| => if 2 * first <= i < 2 * end then UNSET else captures[i])
  }

  /** How far a state is from the end of the input in the direction of matching. */
  function Distance(s: Subject, back: bool, x: MatchState): int {
    if back then x.pos else |s.input| - x.pos
  }

  ghost function MatchOneChar(s: Subject, t: Term, back: bool, x: MatchState): (r: seq<MatchState>)
    requires IsOneChar(t) && Valid(s, x)
    ensures AllFrom(s, back, x, r) && |r| <= 1
  {
    if back then
      if x.pos > 0 && MatchesChar(s.opts, t, s.input[x.pos - 1]) then [x.(pos := x.pos - 1)] else []
    else
      if x.pos < |s.input| && MatchesChar(s.opts, t, s.input[x.pos]) then [x.(pos := x.pos + 1)] else []
  }

  /** All the ways to match t from x, best first. The groups of t are numbered from cap on. */
  ghost function Match(s: Subject, t: Term, back: bool, cap: nat, x: MatchState): (r: seq<MatchState>)
    requires WellFormed(t) && Valid(s, x) && cap + Captures(t) <= s.captureCount
    ensures AllFrom(s, back, x, r)
    decreases t, 0, 0, 0, 0
  {
    match t
    case LineStart => if AssertionHolds(s, t, x.pos) then [x] else []
    case LineEnd => if AssertionHolds(s, t, x.pos) then [x] else []
    case WordBoundary(_) => if AssertionHolds(s, t, x.pos) then [x] else []
    case Dot => MatchOneChar(s, t, back, x)
    case Char(_) => MatchOneChar(s, t, back, x)
    case Class(_) => MatchOneChar(s, t, back, x)
    case BackReference(i) => MatchBackReference(s, i, back, x)
    case Group(d) => MatchDisjunction(s, d, back, cap, x)
    case Capture(d) =>
      // forward, the start is set on entry and the end on exit; backward, the other way round
      var x' := SetCapture(x, if back then 2 * cap + 1 else 2 * cap, x.pos);
      CloseCapture(s, if back then 2 * cap else 2 * cap + 1, MatchDisjunction(s, d, back, cap + 1, x'))
    case Look(negated, behind, d) =>
      var ys := MatchDisjunction(s, d, behind, cap, x);
      if negated then if |ys| == 0 then [x] else []
      else if |ys| == 0 then [] else [x.(captures := ys[0].captures)]
    case Quantified(a, min, max, greedy) =>
      var x' := if min == 0 then x.(captures := ResetCaptures(x.captures, cap, cap + Captures(a))) else x;
      MatchUpToAll(s, a, back, cap, Remaining(min, max), greedy, x, MatchExactly(s, a, back, cap, min, x'))
  }

  function Remaining(min: int, max: int): int {
    if max == INFINITE then INFINITE else max - min
  }

  ghost function CloseCapture(s: Subject, i: nat, ys: seq<MatchState>): (r: seq<MatchState>)
    requires AllValid(s, ys) && i < 2 * s.captureCount
    ensures |r| == |ys| && forall k :: 0 <= k < |r| ==> r[k] == SetCapture(ys[k], i, ys[k].pos)
    ensures AllValid(s, r)
  {
    seq(|ys|, k requires 0 <= k < |ys| => SetCapture(ys[k], i, ys[k].pos))
  }

  ghost function MatchAll(s: Subject, t: Term, back: bool, cap: nat, x: MatchState,
                          ys: seq<MatchState>): (r: seq<MatchState>)
    requires WellFormed(t) && AllFrom(s, back, x, ys) && cap + Captures(t) <= s.captureCount
    ensures AllFrom(s, back, x, r)
    decreases t, 1, 0, 0, |ys|
  {
    if |ys| == 0 then [] else Match(s, t, back, cap, ys[0]) + MatchAll(s, t, back, cap, x, ys[1..])
  }

  /** Exactly n iterations, which may match the empty string. */
  ghost function MatchExactly(s: Subject, a: Term, back: bool, cap: nat, n: nat, x: MatchState): (r: seq<MatchState>)
    requires WellFormed(a) && Valid(s, x) && cap + Captures(a) <= s.captureCount
    ensures AllFrom(s, back, x, r)
    decreases a, 2, n, 0, 0
  {
    if n == 0 then [x] else MatchExactlyAll(s, a, back, cap, n - 1, x, Match(s, a, back, cap, x))
  }

  ghost function MatchExactlyAll(s: Subject, a: Term, back: bool, cap: nat, n: nat, x: MatchState,
                                 ys: seq<MatchState>): (r: seq<MatchState>)
    requires WellFormed(a) && AllFrom(s, back, x, ys) && cap + Captures(a) <= s.captureCount
    ensures AllFrom(s, back, x, r)
    decreases a, 2, n, 1, |ys|
  {
    if |ys| == 0 then []
    else MatchExactly(s, a, back, cap, n, ys[0]) + MatchExactlyAll(s, a, back, cap, n, x, ys[1..])
  }

  /** At most n further iterations (any number for INFINITE), each of which must move. */
  ghost function MatchUpTo(s: Subject, a: Term, back: bool, cap: nat, n: int, greedy: bool,
                           x: MatchState): (r: seq<MatchState>)
    requires WellFormed(a) && Valid(s, x) && cap + Captures(a) <= s.captureCount && 0 <= n
    ensures AllFrom(s, back, x, r)
    decreases a, 3, Distance(s, back, x), 1, 0
  {
    if n == 0 then [x]
    else
      var more := MatchMoved(s, a, back, cap, if n == INFINITE then n else n - 1, greedy, x, Match(s, a, back, cap, x));
      if greedy then more + [x] else [x] + more
  }

  /** Continues with up to n iterations from those of ys that moved away from x. */
  ghost function MatchMoved(s: Subject, a: Term, back: bool, cap: nat, n: int, greedy: bool, x: MatchState,
                            ys: seq<MatchState>): (r: seq<MatchState>)
    requires WellFormed(a) && Valid(s, x) && AllFrom(s, back, x, ys) && cap + Captures(a) <= s.captureCount && 0 <= n
    ensures AllFrom(s, back, x, r)
    decreases a, 3, Distance(s, back, x), 0, |ys|
  {
    if |ys| == 0 then []
    else
      (if ys[0].pos == x.pos then [] else MatchUpTo(s, a, back, cap, n, greedy, ys[0]))
      + MatchMoved(s, a, back, cap, n, greedy, x, ys[1..])
  }

  ghost function MatchUpToAll(s: Subject, a: Term, back: bool, cap: nat, n: int, greedy: bool, x: MatchState,
                              ys: seq<MatchState>): (r: seq<MatchState>)
    requires WellFormed(a) && AllFrom(s, back, x, ys) && cap + Captures(a) <= s.captureCount && 0 <= n
    ensures AllFrom(s, back, x, r)
    decreases a, 4, 0, 0, |ys|
  {
    if |ys| == 0 then []
    else MatchUpTo(s, a, back, cap, n, greedy, ys[0]) + MatchUpToAll(s, a, back, cap, n, greedy, x, ys[1..])
  }

  /** Terms in sequence; backward, the last term is matched first. */
  ghost function MatchSequence(s: Subject, ts: seq<Term>, back: bool, cap: nat, x: MatchState): (r: seq<MatchState>)
    requires SequenceWellFormed(ts) && Valid(s, x) && cap + SequenceCaptures(ts) <= s.captureCount
    ensures AllFrom(s, back, x, r)
    decreases ts, 0, 0, 0, 0
  {
    if |ts| == 0 then [x]
    else
      var init, last := ts[..|ts| - 1], ts[|ts| - 1];
      if back then MatchSequenceAll(s, init, back, cap, x, Match(s, last, back, cap + SequenceCaptures(init), x))
      else MatchAll(s, last, back, cap + SequenceCaptures(init), x, MatchSequence(s, init, back, cap, x))
  }

  ghost function MatchSequenceAll(s: Subject, ts: seq<Term>, back: bool, cap: nat, x: MatchState,
                                  ys: seq<MatchState>): (r: seq<MatchState>)
    requires SequenceWellFormed(ts) && AllFrom(s, back, x, ys) && cap + SequenceCaptures(ts) <= s.captureCount
    ensures AllFrom(s, back, x, r)
    decreases ts, 1, 0, 0, |ys|
  {
    if |ys| == 0 then []
    else MatchSequence(s, ts, back, cap, ys[0]) + MatchSequenceAll(s, ts, back, cap, x, ys[1..])
  }

  /** Alternatives from left to right. */
  ghost function MatchDisjunction(s: Subject, d: Disjunction, back: bool, cap: nat, x: MatchState): (r: seq<MatchState>)
    requires DisjunctionWellFormed(d) && Valid(s, x) && cap + DisjunctionCaptures(d) <= s.captureCount
    ensures AllFrom(s, back, x, r)
    decreases d, 0, 0, 0, 0
  {
    if |d| == 0 then [x]
    else
      var init := d[..|d| - 1];
      var right := MatchSequence(s, d[|d| - 1].terms, back, cap + DisjunctionCaptures(init), x);
      if |d| == 1 then right else MatchDisjunction(s, init, back, cap, x) + right
  }
}
