/**
 * What the flags of a pattern mean for what it matches. The flags are the bits of LRE_FLAG_*: 2 ignores case, 4 makes
 * anchors match at lines, 8 lets the dot match line terminators, 16 selects the Unicode case folding, and 32 ties the
 * match to the start position.
 */
module RegexpFlags {
  import opened Bytes
  import opened CharSets
  import opened RegexpSyntax
  import opened RegexpCode
  import opened RegexpSemantics
  import opened RegexpMachine
  import opened RegexpSteps
  import opened RegexpShape
  import opened RegexpProgram

  // ----- single characters -----

  /** The position after one more character in the direction of matching. */
  function Onward(back: bool, x: MatchState): MatchState {
    x.(pos := if back then x.pos - 1 else x.pos + 1)
  }

  /** There is a character ahead. */
  predicate HasNext(s: Subject, back: bool, x: MatchState) {
    if back then 0 < x.pos <= |s.input| else 0 <= x.pos < |s.input|
  }

  function NextChar(s: Subject, back: bool, x: MatchState): int
    requires HasNext(s, back, x)
  {
    s.input[if back then x.pos - 1 else x.pos]
  }

  /**
   * A literal takes the next character, in either direction, if it is the same; when case is ignored, if both fold to
   * the same.
   */
  lemma LiteralTakes(flags: int, canon: (int, bool) -> int, input: seq<int>, n: nat, c: int, back: bool, cap: nat,
                     x: MatchState)
    requires 0 <= flags && 0 <= c <= MAX_CODE_POINT && cap <= n
    requires Valid(Subject(input, OptionsOf(flags, canon), n), x)
    ensures var s := Subject(input, OptionsOf(flags, canon), n);
            Match(s, Char(c), back, cap, x) ==
            if HasNext(s, back, x)
               && (var d := NextChar(s, back, x);
                   if flags / 2 % 2 == 1 then canon(d, flags / 16 % 2 == 1) == canon(c, flags / 16 % 2 == 1)
                   else d == c)
            then [Onward(back, x)] else []
  {
    FoldIs(flags, canon, c);
    var s := Subject(input, OptionsOf(flags, canon), n);
    if HasNext(s, back, x) { FoldIs(flags, canon, NextChar(s, back, x)); }
  }

  lemma FoldIs(flags: int, canon: (int, bool) -> int, c: int)
    ensures Fold(OptionsOf(flags, canon), c) == if flags / 2 % 2 == 1 then canon(c, flags / 16 % 2 == 1) else c
  {
    assert FlagSet(flags, FLAG_UNICODE) == (flags / 16 % 2 == 1);
  }

  /** A class takes the next character if it is a member; when case is ignored, if what it folds to is. */
  lemma ClassTakes(flags: int, canon: (int, bool) -> int, input: seq<int>, n: nat, p: Points, back: bool, cap: nat,
                   x: MatchState)
    requires 0 <= flags && WellFormed(Class(p)) && cap <= n
    requires Valid(Subject(input, OptionsOf(flags, canon), n), x)
    ensures var s := Subject(input, OptionsOf(flags, canon), n);
            Match(s, Class(p), back, cap, x) ==
            if HasNext(s, back, x)
               && (var d := NextChar(s, back, x);
                   Member(p, if flags / 2 % 2 == 1 then canon(d, flags / 16 % 2 == 1) else d))
            then [Onward(back, x)] else []
  {
    hide Member;
    var s := Subject(input, OptionsOf(flags, canon), n);
    if HasNext(s, back, x) { FoldIs(flags, canon, NextChar(s, back, x)); }
  }

  const LINE_TERMINATORS: set<int> := {0x0a, 0x0d, 0x2028, 0x2029}

  /** The dot takes any character but the four line terminators, and these as well with the flag. */
  lemma DotTakes(flags: int, canon: (int, bool) -> int, input: seq<int>, n: nat, back: bool, cap: nat, x: MatchState)
    requires 0 <= flags && cap <= n && Valid(Subject(input, OptionsOf(flags, canon), n), x)
    ensures var s := Subject(input, OptionsOf(flags, canon), n);
            Match(s, Dot, back, cap, x) ==
            if HasNext(s, back, x) && (flags / 8 % 2 == 1 || NextChar(s, back, x) !in LINE_TERMINATORS)
            then [Onward(back, x)] else []
  {
  }

  /** Anchors hold at the ends of the input, and with the flag at the ends of lines. */
  lemma AnchorsHold(flags: int, canon: (int, bool) -> int, input: seq<int>, n: nat, back: bool, cap: nat, x: MatchState)
    requires 0 <= flags && cap <= n && Valid(Subject(input, OptionsOf(flags, canon), n), x)
    ensures var s := Subject(input, OptionsOf(flags, canon), n);
            Match(s, LineStart, back, cap, x) ==
            if x.pos == 0 || (flags / 4 % 2 == 1 && input[x.pos - 1] in LINE_TERMINATORS) then [x] else []
    ensures var s := Subject(input, OptionsOf(flags, canon), n);
            Match(s, LineEnd, back, cap, x) ==
            if x.pos == |input| || (flags / 4 % 2 == 1 && input[x.pos] in LINE_TERMINATORS) then [x] else []
  {
  }

  /** The characters of \\w, as in char_range_w. */
  const WORD_RANGE: Points := [0x30, 0x39 + 1, 0x41, 0x5a + 1, 0x5f, 0x5f + 1, 0x61, 0x7a + 1]

  ghost predicate WordAt(input: seq<int>, i: int) {
    0 <= i < |input| && Member(WORD_RANGE, input[i])
  }

  /** A word boundary lies between a character of \\w and one that is none, or the end of the input. */
  lemma BoundaryHolds(flags: int, canon: (int, bool) -> int, input: seq<int>, n: nat, negated: bool, back: bool,
                      cap: nat, x: MatchState)
    requires 0 <= flags && cap <= n && Valid(Subject(input, OptionsOf(flags, canon), n), x)
    ensures var s := Subject(input, OptionsOf(flags, canon), n);
            Match(s, WordBoundary(negated), back, cap, x) ==
            if (WordAt(input, x.pos - 1) <==> WordAt(input, x.pos)) <==> negated then [x] else []
  {
    hide Member;
    if x.pos > 0 { WordRangeIs(input[x.pos - 1]); }
    if x.pos < |input| { WordRangeIs(input[x.pos]); }
  }

  lemma WordRangeIs(c: int)
    ensures Member(WORD_RANGE, c) <==> IsWordChar(c)
  {
    assert WORD_RANGE[2 * 0] == 0x30 && WORD_RANGE[2 * 1] == 0x41 && WORD_RANGE[2 * 2] == 0x5f
           && WORD_RANGE[2 * 3] == 0x61;
    if IsWordChar(c) {
      var k := if c < 0x41 then 0 else if c < 0x5f then 1 else if c == 0x5f then 2 else 3;
      assert InInterval(WORD_RANGE, k, c);
    }
    if Member(WORD_RANGE, c) {
      var k :| InInterval(WORD_RANGE, k, c);
      assert k == 0 || k == 1 || k == 2 || k == 3;
    }
  }

  /** The characters at p + j and q + j are the same; when case is ignored, they fold to the same. */
  predicate AgreeAt(flags: int, canon: (int, bool) -> int, input: seq<int>, p: int, q: int, j: int)
    requires 0 <= p + j < |input| && 0 <= q + j < |input|
  {
    if flags / 2 % 2 == 1 then canon(input[p + j], flags / 16 % 2 == 1) == canon(input[q + j], flags / 16 % 2 == 1)
    else input[p + j] == input[q + j]
  }

  /** The text of a group is repeated character by character; when case is ignored, up to folding. */
  lemma BackReferenceTakes(flags: int, canon: (int, bool) -> int, input: seq<int>, n: nat, i: nat, back: bool,
                           cap: nat, x: MatchState)
    requires 0 <= flags && cap <= n && i < 256 && i < n && Valid(Subject(input, OptionsOf(flags, canon), n), x)
    requires 0 <= x.captures[2 * i] < x.captures[2 * i + 1]
    ensures var s := Subject(input, OptionsOf(flags, canon), n);
            var start, m := x.captures[2 * i], x.captures[2 * i + 1] - x.captures[2 * i];
            var from := if back then x.pos - m else x.pos;
            Match(s, BackReference(i), back, cap, x) ==
            if 0 <= from && from + m <= |input|
               && (forall j :: 0 <= j < m ==> AgreeAt(flags, canon, input, start, from, j))
            then [x.(pos := if back then x.pos - m else x.pos + m)] else []
  {
    var s := Subject(input, OptionsOf(flags, canon), n);
    var start, m := x.captures[2 * i], x.captures[2 * i + 1] - x.captures[2 * i];
    var from := if back then x.pos - m else x.pos;
    if 0 <= from && from + m <= |input| {
      forall j | 0 <= j < m
        ensures SameAt(s, start, from, j) <==> AgreeAt(flags, canon, input, start, from, j)
      {
        FoldIs(flags, canon, input[start + j]);
        FoldIs(flags, canon, input[from + j]);
      }
    }
  }

  /** With the sticky flag a match starts at the given position; otherwise each later one is tried after it. */
  lemma StickyMeans(flags: int, s: Subject, d: Disjunction, x: MatchState)
    requires 0 <= flags && DisjunctionWellFormed(d) && Valid(s, x) && 1 + DisjunctionCaptures(d) <= s.captureCount
    ensures var ys := MatchesFrom(s, d, FlagSet(flags, FLAG_STICKY), x);
            && MatchesAt(s, d, x) <= ys
            && (flags / 32 % 2 == 1 ==> ys == MatchesAt(s, d, x))
            && (flags / 32 % 2 == 0 && x.pos < |s.input|
                ==> ys == MatchesAt(s, d, x) + MatchesFrom(s, d, false, x.(pos := x.pos + 1)))
  {
    hide MatchesAt;
  }

  // ----- without the flag, case folding does not matter -----

  /** The two subjects differ in their options at most, and these fold characters alike. */
  ghost predicate FoldAlike(s: Subject, t: Subject) {
    && s.input == t.input && s.captureCount == t.captureCount
    && s.opts.multiLine == t.opts.multiLine && s.opts.dotAll == t.opts.dotAll
    && forall c :: Fold(s.opts, c) == Fold(t.opts, c)
  }

  lemma {:induction false} TermAlike(s: Subject, t: Subject, a: Term, back: bool, cap: nat, x: MatchState)
    requires FoldAlike(s, t) && WellFormed(a) && Valid(s, x) && cap + Captures(a) <= s.captureCount
    ensures Valid(t, x) && Match(s, a, back, cap, x) == Match(t, a, back, cap, x)
    decreases a, 0, 0, 0, 0
  {
    hide MatchDisjunction, MatchUpToAll, MatchExactly, MatchOneChar, MatchBackReference, AssertionHolds, Fold;
    match a {
      case Group(d) => DisjunctionAlike(s, t, d, back, cap, x);
      case Capture(d) =>
        DisjunctionAlike(s, t, d, back, cap + 1, SetCapture(x, if back then 2 * cap + 1 else 2 * cap, x.pos));
      case Look(_, behind, d) => DisjunctionAlike(s, t, d, behind, cap, x);
      case Quantified(b, min, max, greedy) =>
        var x' := if min == 0 then x.(captures := ResetCaptures(x.captures, cap, cap + Captures(b))) else x;
        ExactlyAlike(s, t, b, back, cap, min, x');
        UpToAllAlike(s, t, b, back, cap, Remaining(min, max), greedy, x, MatchExactly(s, b, back, cap, min, x'));
      case _ => LeafAlike(s, t, a, back, cap, x);
    }
  }

  lemma LeafAlike(s: Subject, t: Subject, a: Term, back: bool, cap: nat, x: MatchState)
    requires FoldAlike(s, t) && WellFormed(a) && Valid(s, x) && cap <= s.captureCount
    requires !a.Group? && !a.Capture? && !a.Look? && !a.Quantified?
    ensures Valid(t, x) && Match(s, a, back, cap, x) == Match(t, a, back, cap, x)
  {
    hide Fold, Member, IsWordChar, IsLineTerminator;
    if a.BackReference? && a.index < s.captureCount {
      var start, end := x.captures[2 * a.index], x.captures[2 * a.index + 1];
      if 0 <= start < end {
        var m := end - start;
        var from := if back then x.pos - m else x.pos;
        if 0 <= from && from + m <= |s.input| { TextAlike(s, t, start, from, m); }
      }
    }
  }

  lemma TextAlike(s: Subject, t: Subject, p: int, q: int, n: int)
    requires FoldAlike(s, t) && 0 <= p && 0 <= q && p + n <= |s.input| && q + n <= |s.input|
    ensures SameText(s, p, q, n) <==> SameText(t, p, q, n)
  {
    hide Fold;
    forall i | 0 <= i < n ensures SameAt(s, p, q, i) <==> SameAt(t, p, q, i) {}
  }

  lemma {:induction false} AllTermsAlike(s: Subject, t: Subject, a: Term, back: bool, cap: nat, x: MatchState,
                                         ys: seq<MatchState>)
    requires FoldAlike(s, t) && WellFormed(a) && AllFrom(s, back, x, ys) && cap + Captures(a) <= s.captureCount
    ensures AllFrom(t, back, x, ys) && MatchAll(s, a, back, cap, x, ys) == MatchAll(t, a, back, cap, x, ys)
    decreases a, 1, 0, 0, |ys|
  {
    hide Match, Fold, WellFormed, Captures;
    if |ys| > 0 {
      TermAlike(s, t, a, back, cap, ys[0]);
      AllTermsAlike(s, t, a, back, cap, x, ys[1..]);
    }
  }

  lemma {:induction false} ExactlyAlike(s: Subject, t: Subject, a: Term, back: bool, cap: nat, n: nat, x: MatchState)
    requires FoldAlike(s, t) && WellFormed(a) && Valid(s, x) && cap + Captures(a) <= s.captureCount
    ensures Valid(t, x) && MatchExactly(s, a, back, cap, n, x) == MatchExactly(t, a, back, cap, n, x)
    decreases a, 2, n, 0, 0
  {
    hide Match, Fold, WellFormed, Captures;
    if n > 0 {
      TermAlike(s, t, a, back, cap, x);
      ExactlyAllAlike(s, t, a, back, cap, n - 1, x, Match(s, a, back, cap, x));
    }
  }

  lemma {:induction false} ExactlyAllAlike(s: Subject, t: Subject, a: Term, back: bool, cap: nat, n: nat, x: MatchState,
                                           ys: seq<MatchState>)
    requires FoldAlike(s, t) && WellFormed(a) && AllFrom(s, back, x, ys) && cap + Captures(a) <= s.captureCount
    ensures AllFrom(t, back, x, ys)
            && MatchExactlyAll(s, a, back, cap, n, x, ys) == MatchExactlyAll(t, a, back, cap, n, x, ys)
    decreases a, 2, n, 1, |ys|
  {
    hide Match, Fold, WellFormed, Captures;
    if |ys| > 0 {
      ExactlyAlike(s, t, a, back, cap, n, ys[0]);
      ExactlyAllAlike(s, t, a, back, cap, n, x, ys[1..]);
    }
  }

  lemma {:induction false} UpToAlike(s: Subject, t: Subject, a: Term, back: bool, cap: nat, n: int, greedy: bool,
                                     x: MatchState)
    requires FoldAlike(s, t) && WellFormed(a) && Valid(s, x) && cap + Captures(a) <= s.captureCount && 0 <= n
    ensures Valid(t, x) && MatchUpTo(s, a, back, cap, n, greedy, x) == MatchUpTo(t, a, back, cap, n, greedy, x)
    decreases a, 3, Distance(s, back, x), 1, 0
  {
    hide Match, Fold, WellFormed, Captures;
    if n > 0 {
      TermAlike(s, t, a, back, cap, x);
      MovedAlike(s, t, a, back, cap, if n == INFINITE then n else n - 1, greedy, x, Match(s, a, back, cap, x));
    }
  }

  lemma {:induction false} MovedAlike(s: Subject, t: Subject, a: Term, back: bool, cap: nat, n: int, greedy: bool,
                                      x: MatchState, ys: seq<MatchState>)
    requires FoldAlike(s, t) && WellFormed(a) && Valid(s, x) && AllFrom(s, back, x, ys)
             && cap + Captures(a) <= s.captureCount && 0 <= n
    ensures Valid(t, x) && AllFrom(t, back, x, ys)
            && MatchMoved(s, a, back, cap, n, greedy, x, ys) == MatchMoved(t, a, back, cap, n, greedy, x, ys)
    decreases a, 3, Distance(s, back, x), 0, |ys|
  {
    hide Match, Fold, WellFormed, Captures;
    if |ys| > 0 {
      if ys[0].pos != x.pos { UpToAlike(s, t, a, back, cap, n, greedy, ys[0]); }
      MovedAlike(s, t, a, back, cap, n, greedy, x, ys[1..]);
    }
  }

  lemma {:induction false} UpToAllAlike(s: Subject, t: Subject, a: Term, back: bool, cap: nat, n: int, greedy: bool,
                                        x: MatchState, ys: seq<MatchState>)
    requires FoldAlike(s, t) && WellFormed(a) && AllFrom(s, back, x, ys) && cap + Captures(a) <= s.captureCount
             && 0 <= n
    ensures AllFrom(t, back, x, ys)
            && MatchUpToAll(s, a, back, cap, n, greedy, x, ys) == MatchUpToAll(t, a, back, cap, n, greedy, x, ys)
    decreases a, 4, 0, 0, |ys|
  {
    hide MatchUpTo, Fold, WellFormed, Captures;
    if |ys| > 0 {
      UpToAlike(s, t, a, back, cap, n, greedy, ys[0]);
      UpToAllAlike(s, t, a, back, cap, n, greedy, x, ys[1..]);
    }
  }

  lemma {:induction false} SequenceAlike(s: Subject, t: Subject, ts: seq<Term>, back: bool, cap: nat, x: MatchState)
    requires FoldAlike(s, t) && SequenceWellFormed(ts) && Valid(s, x) && cap + SequenceCaptures(ts) <= s.captureCount
    ensures Valid(t, x) && MatchSequence(s, ts, back, cap, x) == MatchSequence(t, ts, back, cap, x)
    decreases ts, 0, 0, 0, 0
  {
    hide Match, MatchAll, MatchSequenceAll, Fold, WellFormed, Captures;
    if |ts| > 0 {
      var init, last := ts[..|ts| - 1], ts[|ts| - 1];
      var mid := cap + SequenceCaptures(init);
      if back {
        TermAlike(s, t, last, back, mid, x);
        AllSequencesAlike(s, t, init, back, cap, x, Match(s, last, back, mid, x));
      } else {
        SequenceAlike(s, t, init, back, cap, x);
        AllTermsAlike(s, t, last, back, mid, x, MatchSequence(s, init, back, cap, x));
      }
    }
  }

  lemma {:induction false} AllSequencesAlike(s: Subject, t: Subject, ts: seq<Term>, back: bool, cap: nat, x: MatchState,
                                             ys: seq<MatchState>)
    requires FoldAlike(s, t) && SequenceWellFormed(ts) && AllFrom(s, back, x, ys)
             && cap + SequenceCaptures(ts) <= s.captureCount
    ensures AllFrom(t, back, x, ys)
            && MatchSequenceAll(s, ts, back, cap, x, ys) == MatchSequenceAll(t, ts, back, cap, x, ys)
    decreases ts, 1, 0, 0, |ys|
  {
    hide MatchSequence, Fold, SequenceWellFormed, SequenceCaptures;
    if |ys| > 0 {
      SequenceAlike(s, t, ts, back, cap, ys[0]);
      AllSequencesAlike(s, t, ts, back, cap, x, ys[1..]);
    }
  }

  lemma {:induction false} DisjunctionAlike(s: Subject, t: Subject, d: Disjunction, back: bool, cap: nat, x: MatchState)
    requires FoldAlike(s, t) && DisjunctionWellFormed(d) && Valid(s, x)
             && cap + DisjunctionCaptures(d) <= s.captureCount
    ensures Valid(t, x) && MatchDisjunction(s, d, back, cap, x) == MatchDisjunction(t, d, back, cap, x)
    decreases d, 0, 0, 0, 0
  {
    hide MatchSequence, Fold, SequenceWellFormed, SequenceCaptures;
    if |d| > 0 {
      var init := d[..|d| - 1];
      SequenceAlike(s, t, d[|d| - 1].terms, back, cap + DisjunctionCaptures(init), x);
      if |d| > 1 { DisjunctionAlike(s, t, init, back, cap, x); }
    }
  }

  lemma {:induction false} FromAlike(s: Subject, t: Subject, d: Disjunction, sticky: bool, x: MatchState)
    requires FoldAlike(s, t) && DisjunctionWellFormed(d) && Valid(s, x) && 1 + DisjunctionCaptures(d) <= s.captureCount
    ensures Valid(t, x) && MatchesFrom(s, d, sticky, x) == MatchesFrom(t, d, sticky, x)
    decreases |s.input| - x.pos
  {
    hide Match, Fold;
    TermAlike(s, t, Capture(d), false, 0, x);
    if !(sticky || x.pos == |s.input|) { FromAlike(s, t, d, sticky, x.(pos := x.pos + 1)); }
  }

  /** Without the flag that ignores case, a compiled program finds the same with any two case foldings. */
  lemma CaseMatters(flags: int, canon: (int, bool) -> int, other: (int, bool) -> int, d: Disjunction, input: seq<int>,
                    index: nat)
    requires 0 <= flags < TWO16 && flags / 2 % 2 == 0 && index <= |input|
    requires Accepted(flags, canon, d) && InputOk(canon, input) && |Bytecode(flags, canon, d)| < TWO31
    requires Accepted(flags, other, d) && InputOk(other, input) && |Bytecode(flags, other, d)| < TWO31
    ensures var m, k := MachineOf(Bytecode(flags, canon, d), canon, input),
                        MachineOf(Bytecode(flags, other, d), other, input);
            exists c ::
              && Reaches(m, Go(HEADER_LEN, Start(m.subject, index), [], []), c)
              && Reaches(k, Go(HEADER_LEN, Start(k.subject, index), [], []), c)
              && (c.Matched? || c.NoMatch?)
  {
    hide MatchesFrom, Accepted, InputOk, Reaches, FlagSet, ProgramCode, Header, Need;
    CompiledProgramIsCorrect(flags, canon, d, input, index);
    CompiledProgramIsCorrect(flags, other, d, input, index);
    AcceptedParts(flags, canon, d);
    var m, k := MachineOf(Bytecode(flags, canon, d), canon, input), MachineOf(Bytecode(flags, other, d), other, input);
    SubjectsAlike(flags, canon, other, d, input);
    var x := Start(m.subject, index);
    FromAlike(m.subject, k.subject, d, FlagSet(flags, FLAG_STICKY), x);
    var c := Verdict(MatchesFrom(m.subject, d, FlagSet(flags, FLAG_STICKY), x));
    assert Reaches(k, Go(HEADER_LEN, Start(k.subject, index), [], []), c);
  }

  lemma SubjectsAlike(flags: int, canon: (int, bool) -> int, other: (int, bool) -> int, d: Disjunction, input: seq<int>)
    requires 0 <= flags < TWO16 && flags / 2 % 2 == 0
    requires Accepted(flags, canon, d) && Accepted(flags, other, d)
    ensures |Bytecode(flags, canon, d)| >= HEADER_LEN && |Bytecode(flags, other, d)| >= HEADER_LEN
    ensures FoldAlike(MachineOf(Bytecode(flags, canon, d), canon, input).subject,
                      MachineOf(Bytecode(flags, other, d), other, input).subject)
  {
    hide ProgramCode, Need;
    BytecodeLayout(flags, canon, d);
    BytecodeLayout(flags, other, d);
  }
}
