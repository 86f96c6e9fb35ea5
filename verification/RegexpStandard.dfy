/**
 * The matcher of ECMA-262 as far as captures are concerned: every iteration of a quantifier begins with the groups of
 * its atom cleared (RepeatMatcher, section 22.2.2.3.1), while the engine clears them once, when it enters a quantifier
 * with minimum 0. Apart from that, StandardMatch is Match.
 */
module RegexpStandard {
  import opened RegexpSyntax
  import opened RegexpCode
  import opened RegexpSemantics

  /** x with the groups of the atom a cleared. */
  function Cleared(a: Term, cap: nat, x: MatchState): MatchState {
    x.(captures := ResetCaptures(x.captures, cap, cap + Captures(a)))
  }

  ghost function StandardMatch(s: Subject, t: Term, back: bool, cap: nat, x: MatchState): (r: seq<MatchState>)
    requires WellFormed(t) && Valid(s, x) && cap + Captures(t) <= s.captureCount
    ensures AllFrom(s, back, x, r)
    decreases t, 0, 0, 0, 0
  {
    match t
    case Group(d) => StandardDisjunction(s, d, back, cap, x)
    case Capture(d) =>
      var x' := SetCapture(x, if back then 2 * cap + 1 else 2 * cap, x.pos);
      CloseCapture(s, if back then 2 * cap else 2 * cap + 1, StandardDisjunction(s, d, back, cap + 1, x'))
    case Look(negated, behind, d) =>
      var ys := StandardDisjunction(s, d, behind, cap, x);
      if negated then if |ys| == 0 then [x] else []
      else if |ys| == 0 then [] else [x.(captures := ys[0].captures)]
    case Quantified(a, min, max, greedy) =>
      StandardUpToAll(s, a, back, cap, Remaining(min, max), greedy, x, StandardExactly(s, a, back, cap, min, x))
    case _ => Match(s, t, back, cap, x)
  }

  ghost function StandardAll(s: Subject, t: Term, back: bool, cap: nat, x: MatchState,
                             ys: seq<MatchState>): (r: seq<MatchState>)
    requires WellFormed(t) && AllFrom(s, back, x, ys) && cap + Captures(t) <= s.captureCount
    ensures AllFrom(s, back, x, r)
    decreases t, 1, 0, 0, |ys|
  {
    if |ys| == 0 then [] else StandardMatch(s, t, back, cap, ys[0]) + StandardAll(s, t, back, cap, x, ys[1..])
  }

  /** Exactly n iterations, each of which begins with the groups cleared. */
  ghost function StandardExactly(s: Subject, a: Term, back: bool, cap: nat, n: nat, x: MatchState): (r: seq<MatchState>)
    requires WellFormed(a) && Valid(s, x) && cap + Captures(a) <= s.captureCount
    ensures AllFrom(s, back, x, r)
    decreases a, 2, n, 0, 0
  {
    if n == 0 then [x]
    else StandardExactlyAll(s, a, back, cap, n - 1, x, StandardMatch(s, a, back, cap, Cleared(a, cap, x)))
  }

  ghost function StandardExactlyAll(s: Subject, a: Term, back: bool, cap: nat, n: nat, x: MatchState,
                                    ys: seq<MatchState>): (r: seq<MatchState>)
    requires WellFormed(a) && AllFrom(s, back, x, ys) && cap + Captures(a) <= s.captureCount
    ensures AllFrom(s, back, x, r)
    decreases a, 2, n, 1, |ys|
  {
    if |ys| == 0 then []
    else StandardExactly(s, a, back, cap, n, ys[0]) + StandardExactlyAll(s, a, back, cap, n, x, ys[1..])
  }

  /** At most n further iterations, each of which begins with the groups cleared and must move. */
  ghost function StandardUpTo(s: Subject, a: Term, back: bool, cap: nat, n: int, greedy: bool,
                              x: MatchState): (r: seq<MatchState>)
    requires WellFormed(a) && Valid(s, x) && cap + Captures(a) <= s.captureCount && 0 <= n
    ensures AllFrom(s, back, x, r)
    decreases a, 3, Distance(s, back, x), 1, 0
  {
    if n == 0 then [x]
    else
      var ys := StandardMatch(s, a, back, cap, Cleared(a, cap, x));
      var more := StandardMoved(s, a, back, cap, if n == INFINITE then n else n - 1, greedy, x, ys);
      if greedy then more + [x] else [x] + more
  }

  ghost function StandardMoved(s: Subject, a: Term, back: bool, cap: nat, n: int, greedy: bool, x: MatchState,
                               ys: seq<MatchState>): (r: seq<MatchState>)
    requires WellFormed(a) && Valid(s, x) && AllFrom(s, back, x, ys) && cap + Captures(a) <= s.captureCount && 0 <= n
    ensures AllFrom(s, back, x, r)
    decreases a, 3, Distance(s, back, x), 0, |ys|
  {
    if |ys| == 0 then []
    else
      (if ys[0].pos == x.pos then [] else StandardUpTo(s, a, back, cap, n, greedy, ys[0]))
      + StandardMoved(s, a, back, cap, n, greedy, x, ys[1..])
  }

  ghost function StandardUpToAll(s: Subject, a: Term, back: bool, cap: nat, n: int, greedy: bool, x: MatchState,
                                 ys: seq<MatchState>): (r: seq<MatchState>)
    requires WellFormed(a) && AllFrom(s, back, x, ys) && cap + Captures(a) <= s.captureCount && 0 <= n
    ensures AllFrom(s, back, x, r)
    decreases a, 4, 0, 0, |ys|
  {
    if |ys| == 0 then []
    else StandardUpTo(s, a, back, cap, n, greedy, ys[0]) + StandardUpToAll(s, a, back, cap, n, greedy, x, ys[1..])
  }

  ghost function StandardSequence(s: Subject, ts: seq<Term>, back: bool, cap: nat, x: MatchState): (r: seq<MatchState>)
    requires SequenceWellFormed(ts) && Valid(s, x) && cap + SequenceCaptures(ts) <= s.captureCount
    ensures AllFrom(s, back, x, r)
    decreases ts, 0, 0, 0, 0
  {
    if |ts| == 0 then [x]
    else
      var init, last := ts[..|ts| - 1], ts[|ts| - 1];
      var mid := cap + SequenceCaptures(init);
      if back then StandardSequenceAll(s, init, back, cap, x, StandardMatch(s, last, back, mid, x))
      else StandardAll(s, last, back, mid, x, StandardSequence(s, init, back, cap, x))
  }

  ghost function StandardSequenceAll(s: Subject, ts: seq<Term>, back: bool, cap: nat, x: MatchState,
                                     ys: seq<MatchState>): (r: seq<MatchState>)
    requires SequenceWellFormed(ts) && AllFrom(s, back, x, ys) && cap + SequenceCaptures(ts) <= s.captureCount
    ensures AllFrom(s, back, x, r)
    decreases ts, 1, 0, 0, |ys|
  {
    if |ys| == 0 then []
    else StandardSequence(s, ts, back, cap, ys[0]) + StandardSequenceAll(s, ts, back, cap, x, ys[1..])
  }

  ghost function StandardDisjunction(s: Subject, d: Disjunction, back: bool, cap: nat, x: MatchState)
    : (r: seq<MatchState>)
    requires DisjunctionWellFormed(d) && Valid(s, x) && cap + DisjunctionCaptures(d) <= s.captureCount
    ensures AllFrom(s, back, x, r)
    decreases d, 0, 0, 0, 0
  {
    if |d| == 0 then [x]
    else
      var init := d[..|d| - 1];
      var right := StandardSequence(s, d[|d| - 1].terms, back, cap + DisjunctionCaptures(init), x);
      if |d| == 1 then right else StandardDisjunction(s, init, back, cap, x) + right
  }

  // ----- a match changes no groups but its own -----

  /** Outside of the n groups from cap on, y has the captures of x. */
  ghost predicate Kept(cap: int, n: int, x: MatchState, y: MatchState) {
    && |y.captures| == |x.captures|
    && forall i :: 0 <= i < |x.captures| && !(2 * cap <= i < 2 * (cap + n)) ==> y.captures[i] == x.captures[i]
  }

  ghost predicate AllKept(cap: int, n: int, x: MatchState, ys: seq<MatchState>) {
    forall i :: 0 <= i < |ys| ==> Kept(cap, n, x, ys[i])
  }

  lemma KeptTrans(cap: int, n: int, x: MatchState, y: MatchState, ys: seq<MatchState>)
    requires Kept(cap, n, x, y) && AllKept(cap, n, y, ys)
    ensures AllKept(cap, n, x, ys)
  {
  }

  lemma KeptWider(cap: int, n: int, lo: int, m: int, x: MatchState, ys: seq<MatchState>)
    requires AllKept(cap, n, x, ys) && lo <= cap && cap + n <= lo + m
    ensures AllKept(lo, m, x, ys)
  {
  }

  lemma KeptConcat(cap: int, n: int, x: MatchState, ys: seq<MatchState>, zs: seq<MatchState>)
    requires AllKept(cap, n, x, ys) && AllKept(cap, n, x, zs)
    ensures AllKept(cap, n, x, ys + zs)
  {
  }

  lemma KeptCleared(a: Term, cap: nat, x: MatchState, ys: seq<MatchState>)
    requires AllKept(cap, Captures(a), Cleared(a, cap, x), ys)
    ensures AllKept(cap, Captures(a), x, ys)
  {
  }

  lemma KeptTail(cap: int, n: int, x: MatchState, ys: seq<MatchState>)
    requires AllKept(cap, n, x, ys) && |ys| > 0
    ensures Kept(cap, n, x, ys[0]) && AllKept(cap, n, x, ys[1..])
  {
  }

  lemma KeptSelf(cap: int, n: int, x: MatchState)
    ensures AllKept(cap, n, x, [x])
  {
  }

  lemma {:induction false} TermKeeps(s: Subject, t: Term, back: bool, cap: nat, x: MatchState)
    requires WellFormed(t) && Valid(s, x) && cap + Captures(t) <= s.captureCount
    ensures AllKept(cap, Captures(t), x, StandardMatch(s, t, back, cap, x))
    decreases t, 0, 0, 0, 0
  {
    hide StandardDisjunction, StandardUpToAll, StandardExactly, MatchOneChar, MatchBackReference, AssertionHolds, Fold;
    match t {
      case Group(d) => DisjunctionKeeps(s, d, back, cap, x);
      case Capture(d) =>
        DisjunctionKeeps(s, d, back, cap + 1, SetCapture(x, if back then 2 * cap + 1 else 2 * cap, x.pos));
      case Look(_, behind, d) => DisjunctionKeeps(s, d, behind, cap, x);
      case Quantified(a, min, max, greedy) =>
        ExactlyKeeps(s, a, back, cap, min, x);
        UpToAllKeeps(s, a, back, cap, Remaining(min, max), greedy, x, StandardExactly(s, a, back, cap, min, x));
      case _ => LeafKeeps(s, t, back, cap, x);
    }
  }

  lemma LeafKeeps(s: Subject, t: Term, back: bool, cap: nat, x: MatchState)
    requires WellFormed(t) && Valid(s, x) && cap <= s.captureCount
    requires !t.Group? && !t.Capture? && !t.Look? && !t.Quantified?
    ensures forall i :: 0 <= i < |Match(s, t, back, cap, x)| ==> Match(s, t, back, cap, x)[i].captures == x.captures
  {
    hide AssertionHolds, SameText, MatchesChar;
  }

  lemma {:induction false} AllTermsKeep(s: Subject, t: Term, back: bool, cap: nat, lo: nat, n: nat, x: MatchState,
                                        ys: seq<MatchState>)
    requires WellFormed(t) && AllFrom(s, back, x, ys) && cap + Captures(t) <= s.captureCount
    requires AllKept(lo, n, x, ys) && lo <= cap && cap + Captures(t) <= lo + n
    ensures AllKept(lo, n, x, StandardAll(s, t, back, cap, x, ys))
    decreases t, 1, 0, 0, |ys|
  {
    hide StandardMatch, AllKept, Kept, WellFormed, Captures;
    if |ys| == 0 {
      KeptNone(lo, n, x);
    } else {
      KeptTail(lo, n, x, ys);
      var first := StandardMatch(s, t, back, cap, ys[0]);
      TermKeeps(s, t, back, cap, ys[0]);
      KeptWider(cap, Captures(t), lo, n, ys[0], first);
      KeptTrans(lo, n, x, ys[0], first);
      AllTermsKeep(s, t, back, cap, lo, n, x, ys[1..]);
      KeptConcat(lo, n, x, first, StandardAll(s, t, back, cap, x, ys[1..]));
    }
  }

  lemma KeptNone(cap: int, n: int, x: MatchState)
    ensures AllKept(cap, n, x, [])
  {
  }

  lemma {:induction false} ExactlyKeeps(s: Subject, a: Term, back: bool, cap: nat, n: nat, x: MatchState)
    requires WellFormed(a) && Valid(s, x) && cap + Captures(a) <= s.captureCount
    ensures AllKept(cap, Captures(a), x, StandardExactly(s, a, back, cap, n, x))
    decreases a, 2, n, 0, 0
  {
    hide StandardMatch, AllKept, Kept, WellFormed, Captures;
    if n == 0 {
      KeptSelf(cap, Captures(a), x);
    } else {
      var ys := StandardMatch(s, a, back, cap, Cleared(a, cap, x));
      TermKeeps(s, a, back, cap, Cleared(a, cap, x));
      KeptCleared(a, cap, x, ys);
      ExactlyAllKeeps(s, a, back, cap, n - 1, x, ys);
    }
  }

  lemma {:induction false} ExactlyAllKeeps(s: Subject, a: Term, back: bool, cap: nat, n: nat, x: MatchState,
                                           ys: seq<MatchState>)
    requires WellFormed(a) && AllFrom(s, back, x, ys) && cap + Captures(a) <= s.captureCount
    requires AllKept(cap, Captures(a), x, ys)
    ensures AllKept(cap, Captures(a), x, StandardExactlyAll(s, a, back, cap, n, x, ys))
    decreases a, 2, n, 1, |ys|
  {
    hide StandardExactly, AllKept, Kept, WellFormed, Captures;
    if |ys| == 0 {
      KeptNone(cap, Captures(a), x);
    } else {
      KeptTail(cap, Captures(a), x, ys);
      ExactlyKeeps(s, a, back, cap, n, ys[0]);
      KeptTrans(cap, Captures(a), x, ys[0], StandardExactly(s, a, back, cap, n, ys[0]));
      ExactlyAllKeeps(s, a, back, cap, n, x, ys[1..]);
      KeptConcat(cap, Captures(a), x, StandardExactly(s, a, back, cap, n, ys[0]),
                 StandardExactlyAll(s, a, back, cap, n, x, ys[1..]));
    }
  }

  lemma {:induction false} UpToKeeps(s: Subject, a: Term, back: bool, cap: nat, n: int, greedy: bool, x: MatchState)
    requires WellFormed(a) && Valid(s, x) && cap + Captures(a) <= s.captureCount && 0 <= n
    ensures AllKept(cap, Captures(a), x, StandardUpTo(s, a, back, cap, n, greedy, x))
    decreases a, 3, Distance(s, back, x), 1, 0
  {
    hide StandardMatch, StandardMoved, AllKept, Kept, WellFormed, Captures;
    KeptSelf(cap, Captures(a), x);
    if n > 0 {
      var ys := StandardMatch(s, a, back, cap, Cleared(a, cap, x));
      var n1 := if n == INFINITE then n else n - 1;
      TermKeeps(s, a, back, cap, Cleared(a, cap, x));
      KeptCleared(a, cap, x, ys);
      MovedKeeps(s, a, back, cap, n1, greedy, x, ys);
      var more := StandardMoved(s, a, back, cap, n1, greedy, x, ys);
      KeptConcat(cap, Captures(a), x, more, [x]);
      KeptConcat(cap, Captures(a), x, [x], more);
    }
  }

  lemma {:induction false} MovedKeeps(s: Subject, a: Term, back: bool, cap: nat, n: int, greedy: bool, x: MatchState,
                                      ys: seq<MatchState>)
    requires WellFormed(a) && Valid(s, x) && AllFrom(s, back, x, ys) && cap + Captures(a) <= s.captureCount && 0 <= n
    requires AllKept(cap, Captures(a), x, ys)
    ensures AllKept(cap, Captures(a), x, StandardMoved(s, a, back, cap, n, greedy, x, ys))
    decreases a, 3, Distance(s, back, x), 0, |ys|
  {
    hide StandardUpTo, AllKept, Kept, WellFormed, Captures;
    KeptNone(cap, Captures(a), x);
    if |ys| > 0 {
      KeptTail(cap, Captures(a), x, ys);
      var first := if ys[0].pos == x.pos then [] else StandardUpTo(s, a, back, cap, n, greedy, ys[0]);
      if ys[0].pos != x.pos {
        UpToKeeps(s, a, back, cap, n, greedy, ys[0]);
        KeptTrans(cap, Captures(a), x, ys[0], first);
      }
      MovedKeeps(s, a, back, cap, n, greedy, x, ys[1..]);
      KeptConcat(cap, Captures(a), x, first, StandardMoved(s, a, back, cap, n, greedy, x, ys[1..]));
    }
  }

  lemma {:induction false} UpToAllKeeps(s: Subject, a: Term, back: bool, cap: nat, n: int, greedy: bool, x: MatchState,
                                        ys: seq<MatchState>)
    requires WellFormed(a) && AllFrom(s, back, x, ys) && cap + Captures(a) <= s.captureCount && 0 <= n
    requires AllKept(cap, Captures(a), x, ys)
    ensures AllKept(cap, Captures(a), x, StandardUpToAll(s, a, back, cap, n, greedy, x, ys))
    decreases a, 4, 0, 0, |ys|
  {
    hide StandardUpTo, AllKept, Kept, WellFormed, Captures;
    KeptNone(cap, Captures(a), x);
    if |ys| > 0 {
      KeptTail(cap, Captures(a), x, ys);
      var first := StandardUpTo(s, a, back, cap, n, greedy, ys[0]);
      UpToKeeps(s, a, back, cap, n, greedy, ys[0]);
      KeptTrans(cap, Captures(a), x, ys[0], first);
      UpToAllKeeps(s, a, back, cap, n, greedy, x, ys[1..]);
      KeptConcat(cap, Captures(a), x, first, StandardUpToAll(s, a, back, cap, n, greedy, x, ys[1..]));
    }
  }

  lemma {:induction false} SequenceKeeps(s: Subject, ts: seq<Term>, back: bool, cap: nat, x: MatchState)
    requires SequenceWellFormed(ts) && Valid(s, x) && cap + SequenceCaptures(ts) <= s.captureCount
    ensures AllKept(cap, SequenceCaptures(ts), x, StandardSequence(s, ts, back, cap, x))
    decreases ts, 0, 0, 0, 0
  {
    hide StandardMatch, StandardAll, StandardSequenceAll, AllKept, Kept, WellFormed, Captures;
    var n := SequenceCaptures(ts);
    if |ts| == 0 {
      KeptSelf(cap, n, x);
    } else {
      var init, last := ts[..|ts| - 1], ts[|ts| - 1];
      var mid := cap + SequenceCaptures(init);
      if back {
        TermKeeps(s, last, back, mid, x);
        var ys := StandardMatch(s, last, back, mid, x);
        KeptWider(mid, Captures(last), cap, n, x, ys);
        AllSequencesKeep(s, init, back, cap, cap, n, x, ys);
      } else {
        SequenceKeeps(s, init, back, cap, x);
        var ys := StandardSequence(s, init, back, cap, x);
        KeptWider(cap, SequenceCaptures(init), cap, n, x, ys);
        AllTermsKeep(s, last, back, mid, cap, n, x, ys);
      }
    }
  }

  lemma {:induction false} AllSequencesKeep(s: Subject, ts: seq<Term>, back: bool, cap: nat, lo: nat, n: nat,
                                            x: MatchState, ys: seq<MatchState>)
    requires SequenceWellFormed(ts) && AllFrom(s, back, x, ys) && cap + SequenceCaptures(ts) <= s.captureCount
    requires AllKept(lo, n, x, ys) && lo <= cap && cap + SequenceCaptures(ts) <= lo + n
    ensures AllKept(lo, n, x, StandardSequenceAll(s, ts, back, cap, x, ys))
    decreases ts, 1, 0, 0, |ys|
  {
    hide StandardSequence, AllKept, Kept, SequenceWellFormed, SequenceCaptures;
    if |ys| == 0 {
      KeptNone(lo, n, x);
    } else {
      KeptTail(lo, n, x, ys);
      var first := StandardSequence(s, ts, back, cap, ys[0]);
      SequenceKeeps(s, ts, back, cap, ys[0]);
      KeptWider(cap, SequenceCaptures(ts), lo, n, ys[0], first);
      KeptTrans(lo, n, x, ys[0], first);
      AllSequencesKeep(s, ts, back, cap, lo, n, x, ys[1..]);
      KeptConcat(lo, n, x, first, StandardSequenceAll(s, ts, back, cap, x, ys[1..]));
    }
  }

  lemma {:induction false} DisjunctionKeeps(s: Subject, d: Disjunction, back: bool, cap: nat, x: MatchState)
    requires DisjunctionWellFormed(d) && Valid(s, x) && cap + DisjunctionCaptures(d) <= s.captureCount
    ensures AllKept(cap, DisjunctionCaptures(d), x, StandardDisjunction(s, d, back, cap, x))
    decreases d, 0, 0, 0, 0
  {
    hide StandardSequence, AllKept, Kept, SequenceWellFormed, SequenceCaptures;
    var n := DisjunctionCaptures(d);
    if |d| == 0 {
      KeptSelf(cap, n, x);
    } else {
      var init, ts := d[..|d| - 1], d[|d| - 1].terms;
      var mid := cap + DisjunctionCaptures(init);
      var right := StandardSequence(s, ts, back, mid, x);
      SequenceKeeps(s, ts, back, mid, x);
      KeptWider(mid, SequenceCaptures(ts), cap, n, x, right);
      if |d| > 1 {
        var left := StandardDisjunction(s, init, back, cap, x);
        DisjunctionKeeps(s, init, back, cap, x);
        KeptWider(cap, DisjunctionCaptures(init), cap, n, x, left);
        KeptConcat(cap, n, x, left, right);
      }
    }
  }
}
