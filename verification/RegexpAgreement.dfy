/**
 * Where the engine and the standard agree. Apart follows a pattern and collects the capture slots on which the two
 * matchers may have come to disagree; Safe demands that no back reference reads such a slot. TermAlike is the theorem:
 * the two then find the same matches in the same order, except for the contents of those slots.
 */
module RegexpAgreement {
  import opened RegexpSyntax
  import opened RegexpSemantics
  import opened RegexpStandard

  /** Indices into captures: the two slots of each of the n groups from cap on. */
  function Groups(cap: int, n: nat): (g: set<int>)
    ensures forall i :: i in g <==> 2 * cap <= i < 2 * (cap + n)
  {
    if n == 0 then {} else Groups(cap, n - 1) + {2 * (cap + n - 1), 2 * (cap + n - 1) + 1}
  }

  /** The same position, and the same captures except in the slots r. */
  ghost predicate Alike(r: set<int>, x: MatchState, y: MatchState) {
    && x.pos == y.pos && |x.captures| == |y.captures|
    && forall i :: 0 <= i < |x.captures| && i !in r ==> x.captures[i] == y.captures[i]
  }

  ghost predicate AllAlike(r: set<int>, xs: seq<MatchState>, ys: seq<MatchState>) {
    |xs| == |ys| && forall i :: 0 <= i < |xs| ==> Alike(r, xs[i], ys[i])
  }

  /** The slots of the n groups from cap on are unset, except for those in stale. */
  ghost predicate Fresh(stale: set<int>, cap: int, n: int, x: MatchState) {
    forall i :: 0 <= i < |x.captures| && 2 * cap <= i < 2 * (cap + n) && i !in stale ==> x.captures[i] == UNSET
  }

  ghost predicate AllFresh(stale: set<int>, cap: int, n: int, xs: seq<MatchState>) {
    forall i :: 0 <= i < |xs| ==> Fresh(stale, cap, n, xs[i])
  }

  // ----- the analysis -----

  /** The slots that may differ when an iteration of a quantifier begins, if those in r may before the quantifier. */
  function Begun(g: set<int>, min: int, max: int, r: set<int>, stale: set<int>): set<int> {
    if max > 1 then r + g else if min == 0 then r - g else r + g * stale
  }

  /** The slots that may differ after t, if those in r may before; stale are the slots of t that may be set before. */
  function Apart(t: Term, back: bool, cap: int, r: set<int>, stale: set<int>): set<int>
    decreases t
  {
    match t
    case Group(d) => DisjunctionApart(d, back, cap, r, stale)
    case Capture(d) =>
      var first, last := if back then 2 * cap + 1 else 2 * cap, if back then 2 * cap else 2 * cap + 1;
      DisjunctionApart(d, back, cap + 1, r - {first}, stale) - {last}
    case Look(negated, behind, d) => if negated then r else DisjunctionApart(d, behind, cap, r, stale)
    case Quantified(a, min, max, _) =>
      var g := Groups(cap, Captures(a));
      Apart(a, back, cap, Begun(g, min, max, r, stale), {}) + if min == 0 then (r - g) + g * stale else {}
    case _ => r
  }

  function SequenceApart(ts: seq<Term>, back: bool, cap: int, r: set<int>, stale: set<int>): set<int>
    decreases ts
  {
    if |ts| == 0 then r
    else
      var init, last := ts[..|ts| - 1], ts[|ts| - 1];
      var mid := cap + SequenceCaptures(init);
      if back then SequenceApart(init, back, cap, Apart(last, back, mid, r, stale), stale)
      else Apart(last, back, mid, SequenceApart(init, back, cap, r, stale), stale)
  }

  function DisjunctionApart(d: Disjunction, back: bool, cap: int, r: set<int>, stale: set<int>): set<int>
    decreases d
  {
    if |d| == 0 then r
    else
      var init := d[..|d| - 1];
      var right := SequenceApart(d[|d| - 1].terms, back, cap + DisjunctionCaptures(init), r, stale);
      if |d| == 1 then right else DisjunctionApart(init, back, cap, r, stale) + right
  }

  /** No back reference in t reads a slot that may differ when it is reached. */
  predicate Safe(t: Term, back: bool, cap: int, r: set<int>, stale: set<int>)
    decreases t
  {
    match t
    case BackReference(i) => 2 * i !in r && 2 * i + 1 !in r
    case Group(d) => DisjunctionSafe(d, back, cap, r, stale)
    case Capture(d) => DisjunctionSafe(d, back, cap + 1, r - {if back then 2 * cap + 1 else 2 * cap}, stale)
    case Look(_, behind, d) => DisjunctionSafe(d, behind, cap, r, stale)
    case Quantified(a, min, max, _) =>
      max == 0 || Safe(a, back, cap, Begun(Groups(cap, Captures(a)), min, max, r, stale), {})
    case _ => true
  }

  predicate SequenceSafe(ts: seq<Term>, back: bool, cap: int, r: set<int>, stale: set<int>)
    decreases ts
  {
    |ts| == 0 ||
    var init, last := ts[..|ts| - 1], ts[|ts| - 1];
    var mid := cap + SequenceCaptures(init);
    if back then
      Safe(last, back, mid, r, stale) && SequenceSafe(init, back, cap, Apart(last, back, mid, r, stale), stale)
    else
      SequenceSafe(init, back, cap, r, stale) && Safe(last, back, mid, SequenceApart(init, back, cap, r, stale), stale)
  }

  predicate DisjunctionSafe(d: Disjunction, back: bool, cap: int, r: set<int>, stale: set<int>)
    decreases d
  {
    |d| == 0 ||
    var init := d[..|d| - 1];
    && SequenceSafe(d[|d| - 1].terms, back, cap + DisjunctionCaptures(init), r, stale)
    && (|d| == 1 || DisjunctionSafe(init, back, cap, r, stale))
  }

  lemma GroupsSplit(cap: int, n: nat, m: nat)
    ensures Groups(cap, n + m) == Groups(cap, n) + Groups(cap + n, m)
  {
  }

  /** Matching a term can only bring its own groups apart. */
  lemma {:induction false} TermApart(t: Term, back: bool, cap: int, r: set<int>, stale: set<int>)
    ensures Apart(t, back, cap, r, stale) <= r + Groups(cap, Captures(t))
    decreases t
  {
    match t {
      case Group(d) => DisjunctionIsApart(d, back, cap, r, stale);
      case Capture(d) => DisjunctionIsApart(d, back, cap + 1, r - {if back then 2 * cap + 1 else 2 * cap}, stale);
      case Look(_, behind, d) => DisjunctionIsApart(d, behind, cap, r, stale);
      case Quantified(a, min, max, _) =>
        TermApart(a, back, cap, Begun(Groups(cap, Captures(a)), min, max, r, stale), {});
      case _ =>
    }
  }

  lemma {:induction false} SequenceIsApart(ts: seq<Term>, back: bool, cap: int, r: set<int>, stale: set<int>)
    ensures SequenceApart(ts, back, cap, r, stale) <= r + Groups(cap, SequenceCaptures(ts))
    decreases ts
  {
    hide Groups, Apart, Captures;
    if |ts| > 0 {
      var init, last := ts[..|ts| - 1], ts[|ts| - 1];
      var mid := cap + SequenceCaptures(init);
      GroupsSplit(cap, SequenceCaptures(init), Captures(last));
      if back {
        TermApart(last, back, mid, r, stale);
        SequenceIsApart(init, back, cap, Apart(last, back, mid, r, stale), stale);
      } else {
        SequenceIsApart(init, back, cap, r, stale);
        TermApart(last, back, mid, SequenceApart(init, back, cap, r, stale), stale);
      }
    }
  }

  lemma {:induction false} DisjunctionIsApart(d: Disjunction, back: bool, cap: int, r: set<int>, stale: set<int>)
    ensures DisjunctionApart(d, back, cap, r, stale) <= r + Groups(cap, DisjunctionCaptures(d))
    decreases d
  {
    hide Groups, SequenceApart, SequenceCaptures;
    if |d| > 0 {
      var init := d[..|d| - 1];
      GroupsSplit(cap, DisjunctionCaptures(init), SequenceCaptures(d[|d| - 1].terms));
      SequenceIsApart(d[|d| - 1].terms, back, cap + DisjunctionCaptures(init), r, stale);
      if |d| > 1 { DisjunctionIsApart(init, back, cap, r, stale); }
    }
  }

  // ----- small facts -----

  lemma AlikeNone(r: set<int>)
    ensures AllAlike(r, [], [])
  {
  }

  lemma AlikeOne(r: set<int>, x: MatchState, y: MatchState)
    requires Alike(r, x, y)
    ensures AllAlike(r, [x], [y])
  {
  }

  lemma AlikeConcat(r: set<int>, xs: seq<MatchState>, xs': seq<MatchState>, ys: seq<MatchState>, ys': seq<MatchState>)
    requires AllAlike(r, xs, ys) && AllAlike(r, xs', ys')
    ensures AllAlike(r, xs + xs', ys + ys')
  {
  }

  lemma AlikeWider(r: set<int>, q: set<int>, xs: seq<MatchState>, ys: seq<MatchState>)
    requires AllAlike(r, xs, ys) && r <= q
    ensures AllAlike(q, xs, ys)
  {
  }

  lemma AlikeTail(r: set<int>, xs: seq<MatchState>, ys: seq<MatchState>)
    requires AllAlike(r, xs, ys) && |xs| > 0
    ensures |ys| == |xs| && Alike(r, xs[0], ys[0]) && AllAlike(r, xs[1..], ys[1..])
  {
  }

  lemma AlikePos(r: set<int>, x: MatchState, y: MatchState)
    requires Alike(r, x, y)
    ensures x.pos == y.pos
  {
  }

  lemma FreshTail(stale: set<int>, cap: int, n: int, xs: seq<MatchState>)
    requires AllFresh(stale, cap, n, xs) && |xs| > 0
    ensures Fresh(stale, cap, n, xs[0]) && AllFresh(stale, cap, n, xs[1..])
  {
  }

  lemma FreshPart(stale: set<int>, cap: int, n: int, lo: int, m: int, x: MatchState)
    requires Fresh(stale, cap, n, x) && cap <= lo && lo + m <= cap + n
    ensures Fresh(stale, lo, m, x)
  {
  }

  /** What another term has matched does not touch these groups. */
  lemma FreshAfter(stale: set<int>, cap: int, n: int, lo: int, m: int, x: MatchState, xs: seq<MatchState>)
    requires Fresh(stale, cap, n, x) && AllKept(lo, m, x, xs) && (lo + m <= cap || cap + n <= lo)
    ensures AllFresh(stale, cap, n, xs)
  {
    forall k | 0 <= k < |xs| ensures Fresh(stale, cap, n, xs[k]) {
      assert Kept(lo, m, x, xs[k]);
    }
  }

  lemma FreshCleared(a: Term, cap: nat, x: MatchState)
    ensures Fresh({}, cap, Captures(a), Cleared(a, cap, x))
  {
  }

  /** Clearing the groups on the side of the standard only. */
  lemma AlikeCleared(a: Term, cap: nat, q: set<int>, b: set<int>, x: MatchState, y: MatchState)
    requires Alike(q, x, y) && q <= b && Groups(cap, Captures(a)) <= b
    ensures Alike(b, Cleared(a, cap, x), y)
  {
  }

  // ----- the theorem, term by term -----

  lemma {:induction false} TermAlike(s: Subject, t: Term, back: bool, cap: nat, r: set<int>, stale: set<int>,
                                     x: MatchState, y: MatchState)
    requires WellFormed(t) && Valid(s, x) && Valid(s, y) && cap + Captures(t) <= s.captureCount
    requires Alike(r, x, y) && Fresh(stale, cap, Captures(t), x) && Safe(t, back, cap, r, stale)
    ensures AllAlike(Apart(t, back, cap, r, stale), StandardMatch(s, t, back, cap, x), Match(s, t, back, cap, y))
    decreases t, 0, 0, 0, 0
  {
    hide Alike, AllAlike, Fresh, Valid, MatchDisjunction, StandardDisjunction, MatchUpToAll, StandardUpToAll,
      MatchExactly, StandardExactly, MatchOneChar, MatchBackReference, AssertionHolds, DisjunctionApart,
      DisjunctionSafe, ResetCaptures, Groups, Begun, CloseCapture, SetCapture;
    match t {
      case Group(d) => DisjunctionAlike(s, d, back, cap, r, stale, x, y);
      case Capture(d) => CaptureAlike(s, d, back, cap, r, stale, x, y);
      case Look(negated, behind, d) => LookAlike(s, negated, behind, d, back, cap, r, stale, x, y);
      case Quantified(a, min, max, greedy) => QuantifiedAlike(s, a, min, max, greedy, back, cap, r, stale, x, y);
      case _ => LeafAlike(s, t, back, cap, r, stale, x, y);
    }
  }

  lemma LeafAlike(s: Subject, t: Term, back: bool, cap: nat, r: set<int>, stale: set<int>, x: MatchState, y: MatchState)
    requires WellFormed(t) && Valid(s, x) && Valid(s, y) && cap <= s.captureCount
    requires !t.Group? && !t.Capture? && !t.Look? && !t.Quantified?
    requires Alike(r, x, y) && Safe(t, back, cap, r, stale)
    ensures AllAlike(r, Match(s, t, back, cap, x), Match(s, t, back, cap, y))
  {
    hide AssertionHolds, SameText, MatchesChar;
  }

  lemma CaptureAlike(s: Subject, d: Disjunction, back: bool, cap: nat, r: set<int>, stale: set<int>, x: MatchState,
                     y: MatchState)
    requires DisjunctionWellFormed(d) && Valid(s, x) && Valid(s, y)
             && cap + 1 + DisjunctionCaptures(d) <= s.captureCount
    requires Alike(r, x, y) && Fresh(stale, cap, 1 + DisjunctionCaptures(d), x) && Safe(Capture(d), back, cap, r, stale)
    ensures AllAlike(Apart(Capture(d), back, cap, r, stale), StandardMatch(s, Capture(d), back, cap, x),
                     Match(s, Capture(d), back, cap, y))
    decreases d, 3, 0, 0, 0
  {
    hide Alike, AllAlike, Fresh, MatchDisjunction, StandardDisjunction, DisjunctionApart, DisjunctionSafe;
    var first, last := if back then 2 * cap + 1 else 2 * cap, if back then 2 * cap else 2 * cap + 1;
    var x', y' := SetCapture(x, first, x.pos), SetCapture(y, first, y.pos);
    SetAlike(r, x, y, first);
    FreshInside(stale, cap, DisjunctionCaptures(d), x, first);
    DisjunctionAlike(s, d, back, cap + 1, r - {first}, stale, x', y');
    CloseAlike(s, DisjunctionApart(d, back, cap + 1, r - {first}, stale), last,
               StandardDisjunction(s, d, back, cap + 1, x'), MatchDisjunction(s, d, back, cap + 1, y'));
  }

  lemma SetAlike(r: set<int>, x: MatchState, y: MatchState, i: nat)
    requires Alike(r, x, y) && i < |x.captures|
    ensures |y.captures| == |x.captures| && Alike(r - {i}, SetCapture(x, i, x.pos), SetCapture(y, i, y.pos))
  {
  }

  lemma FreshInside(stale: set<int>, cap: nat, n: nat, x: MatchState, i: nat)
    requires Fresh(stale, cap, 1 + n, x) && i < |x.captures| && i < 2 * cap + 2
    ensures Fresh(stale, cap + 1, n, SetCapture(x, i, x.pos))
  {
  }

  lemma CloseAlike(s: Subject, r: set<int>, i: nat, xs: seq<MatchState>, ys: seq<MatchState>)
    requires AllValid(s, xs) && AllValid(s, ys) && i < 2 * s.captureCount && AllAlike(r, xs, ys)
    ensures AllAlike(r - {i}, CloseCapture(s, i, xs), CloseCapture(s, i, ys))
  {
    hide Alike, CloseCapture, SetCapture;
    var xs', ys' := CloseCapture(s, i, xs), CloseCapture(s, i, ys);
    forall k | 0 <= k < |xs| ensures Alike(r - {i}, xs'[k], ys'[k]) {
      assert Alike(r, xs[k], ys[k]);
      SetAlike(r, xs[k], ys[k], i);
    }
  }

  lemma LookAlike(s: Subject, negated: bool, behind: bool, d: Disjunction, back: bool, cap: nat, r: set<int>,
                  stale: set<int>, x: MatchState, y: MatchState)
    requires DisjunctionWellFormed(d) && Valid(s, x) && Valid(s, y) && cap + DisjunctionCaptures(d) <= s.captureCount
    requires Alike(r, x, y) && Fresh(stale, cap, DisjunctionCaptures(d), x)
             && Safe(Look(negated, behind, d), back, cap, r, stale)
    ensures AllAlike(Apart(Look(negated, behind, d), back, cap, r, stale),
                     StandardMatch(s, Look(negated, behind, d), back, cap, x),
                     Match(s, Look(negated, behind, d), back, cap, y))
    decreases d, 3, 0, 0, 0
  {
    hide Fresh, MatchDisjunction, StandardDisjunction, DisjunctionApart, DisjunctionSafe;
    DisjunctionAlike(s, d, behind, cap, r, stale, x, y);
  }

  lemma {:induction false} SequenceAlike(s: Subject, ts: seq<Term>, back: bool, cap: nat, r: set<int>, stale: set<int>,
                                         x: MatchState, y: MatchState)
    requires SequenceWellFormed(ts) && Valid(s, x) && Valid(s, y) && cap + SequenceCaptures(ts) <= s.captureCount
    requires Alike(r, x, y) && Fresh(stale, cap, SequenceCaptures(ts), x) && SequenceSafe(ts, back, cap, r, stale)
    ensures AllAlike(SequenceApart(ts, back, cap, r, stale), StandardSequence(s, ts, back, cap, x),
                     MatchSequence(s, ts, back, cap, y))
    decreases ts, 0, 0, 0, 0
  {
    hide Alike, AllAlike, Fresh, AllFresh, Valid, Match, StandardMatch, MatchAll, StandardAll, MatchSequenceAll,
      StandardSequenceAll, Apart, Safe, WellFormed, Captures;
    if |ts| == 0 {
      AlikeOne(r, x, y);
    } else {
      var init, last := ts[..|ts| - 1], ts[|ts| - 1];
      var n, m := SequenceCaptures(init), Captures(last);
      FreshPart(stale, cap, n + m, cap, n, x);
      FreshPart(stale, cap, n + m, cap + n, m, x);
      if back {
        TermAlike(s, last, back, cap + n, r, stale, x, y);
        var xs, ys := StandardMatch(s, last, back, cap + n, x), Match(s, last, back, cap + n, y);
        TermKeeps(s, last, back, cap + n, x);
        FreshAfter(stale, cap, n, cap + n, m, x, xs);
        AllSequencesAlike(s, init, back, cap, Apart(last, back, cap + n, r, stale), stale, x, y, xs, ys);
      } else {
        SequenceAlike(s, init, back, cap, r, stale, x, y);
        var xs, ys := StandardSequence(s, init, back, cap, x), MatchSequence(s, init, back, cap, y);
        SequenceKeeps(s, init, back, cap, x);
        FreshAfter(stale, cap + n, m, cap, n, x, xs);
        AllTermsAlike(s, last, back, cap + n, SequenceApart(init, back, cap, r, stale), stale, x, y, xs, ys);
      }
    }
  }

  lemma {:induction false} AllTermsAlike(s: Subject, t: Term, back: bool, cap: nat, r: set<int>, stale: set<int>,
                                         x: MatchState, y: MatchState, xs: seq<MatchState>, ys: seq<MatchState>)
    requires WellFormed(t) && AllFrom(s, back, x, xs) && AllFrom(s, back, y, ys) && cap + Captures(t) <= s.captureCount
    requires AllAlike(r, xs, ys) && AllFresh(stale, cap, Captures(t), xs) && Safe(t, back, cap, r, stale)
    ensures AllAlike(Apart(t, back, cap, r, stale), StandardAll(s, t, back, cap, x, xs),
                     MatchAll(s, t, back, cap, y, ys))
    decreases t, 1, 0, 0, |xs|
  {
    hide Alike, AllAlike, Fresh, AllFresh, Match, StandardMatch, Apart, Safe, WellFormed, Captures;
    AlikeNone(Apart(t, back, cap, r, stale));
    AlikeLength(r, xs, ys);
    if |xs| > 0 {
      AlikeTail(r, xs, ys);
      FreshTail(stale, cap, Captures(t), xs);
      TermAlike(s, t, back, cap, r, stale, xs[0], ys[0]);
      AllTermsAlike(s, t, back, cap, r, stale, x, y, xs[1..], ys[1..]);
      AlikeConcat(Apart(t, back, cap, r, stale),
                  StandardMatch(s, t, back, cap, xs[0]), StandardAll(s, t, back, cap, x, xs[1..]),
                  Match(s, t, back, cap, ys[0]), MatchAll(s, t, back, cap, y, ys[1..]));
    }
  }

  lemma AlikeLength(r: set<int>, xs: seq<MatchState>, ys: seq<MatchState>)
    requires AllAlike(r, xs, ys)
    ensures |xs| == |ys|
  {
  }

  lemma {:induction false} AllSequencesAlike(s: Subject, ts: seq<Term>, back: bool, cap: nat, r: set<int>,
                                             stale: set<int>, x: MatchState, y: MatchState, xs: seq<MatchState>,
                                             ys: seq<MatchState>)
    requires SequenceWellFormed(ts) && AllFrom(s, back, x, xs) && AllFrom(s, back, y, ys)
             && cap + SequenceCaptures(ts) <= s.captureCount
    requires AllAlike(r, xs, ys) && AllFresh(stale, cap, SequenceCaptures(ts), xs)
             && SequenceSafe(ts, back, cap, r, stale)
    ensures AllAlike(SequenceApart(ts, back, cap, r, stale), StandardSequenceAll(s, ts, back, cap, x, xs),
                     MatchSequenceAll(s, ts, back, cap, y, ys))
    decreases ts, 1, 0, 0, |xs|
  {
    hide Alike, AllAlike, Fresh, AllFresh, MatchSequence, StandardSequence, SequenceApart, SequenceSafe,
      SequenceWellFormed, SequenceCaptures;
    AlikeNone(SequenceApart(ts, back, cap, r, stale));
    AlikeLength(r, xs, ys);
    if |xs| > 0 {
      AlikeTail(r, xs, ys);
      FreshTail(stale, cap, SequenceCaptures(ts), xs);
      SequenceAlike(s, ts, back, cap, r, stale, xs[0], ys[0]);
      AllSequencesAlike(s, ts, back, cap, r, stale, x, y, xs[1..], ys[1..]);
      AlikeConcat(SequenceApart(ts, back, cap, r, stale),
                  StandardSequence(s, ts, back, cap, xs[0]), StandardSequenceAll(s, ts, back, cap, x, xs[1..]),
                  MatchSequence(s, ts, back, cap, ys[0]), MatchSequenceAll(s, ts, back, cap, y, ys[1..]));
    }
  }

  lemma {:induction false} DisjunctionAlike(s: Subject, d: Disjunction, back: bool, cap: nat, r: set<int>,
                                            stale: set<int>, x: MatchState, y: MatchState)
    requires DisjunctionWellFormed(d) && Valid(s, x) && Valid(s, y) && cap + DisjunctionCaptures(d) <= s.captureCount
    requires Alike(r, x, y) && Fresh(stale, cap, DisjunctionCaptures(d), x) && DisjunctionSafe(d, back, cap, r, stale)
    ensures AllAlike(DisjunctionApart(d, back, cap, r, stale), StandardDisjunction(s, d, back, cap, x),
                     MatchDisjunction(s, d, back, cap, y))
    decreases d, 0, 0, 0, 0
  {
    hide Alike, AllAlike, Fresh, Valid, MatchSequence, StandardSequence, SequenceApart, SequenceSafe,
      SequenceWellFormed, SequenceCaptures;
    if |d| == 0 {
      AlikeOne(r, x, y);
    } else {
      var init, ts := d[..|d| - 1], d[|d| - 1].terms;
      var n, m := DisjunctionCaptures(init), SequenceCaptures(ts);
      FreshPart(stale, cap, n + m, cap, n, x);
      FreshPart(stale, cap, n + m, cap + n, m, x);
      SequenceAlike(s, ts, back, cap + n, r, stale, x, y);
      var right, right' := StandardSequence(s, ts, back, cap + n, x), MatchSequence(s, ts, back, cap + n, y);
      if |d| > 1 {
        DisjunctionAlike(s, init, back, cap, r, stale, x, y);
        var left, left' := StandardDisjunction(s, init, back, cap, x), MatchDisjunction(s, init, back, cap, y);
        var q := DisjunctionApart(d, back, cap, r, stale);
        AlikeWider(SequenceApart(ts, back, cap + n, r, stale), q, right, right');
        AlikeWider(DisjunctionApart(init, back, cap, r, stale), q, left, left');
        AlikeConcat(q, left, right, left', right');
      }
    }
  }

  // ----- quantifiers -----

  lemma QuantifiedAlike(s: Subject, a: Term, min: int, max: int, greedy: bool, back: bool, cap: nat, r: set<int>,
                        stale: set<int>, x: MatchState, y: MatchState)
    requires WellFormed(a) && 0 <= min <= max <= INFINITE && Valid(s, x) && Valid(s, y)
             && cap + Captures(a) <= s.captureCount
    requires Alike(r, x, y) && Fresh(stale, cap, Captures(a), x)
             && Safe(Quantified(a, min, max, greedy), back, cap, r, stale)
    ensures AllAlike(Apart(Quantified(a, min, max, greedy), back, cap, r, stale),
                     StandardMatch(s, Quantified(a, min, max, greedy), back, cap, x),
                     Match(s, Quantified(a, min, max, greedy), back, cap, y))
    decreases a, 5, 0, 0, 0
  {
    hide Alike, AllAlike, Fresh, MatchUpToAll, StandardUpToAll, MatchExactly, StandardExactly, WellFormed, Captures,
      Groups, ResetCaptures;
    var g := Groups(cap, Captures(a));
    var b, c := Begun(g, min, max, r, stale), Apart(Quantified(a, min, max, greedy), back, cap, r, stale);
    var y' := if min == 0 then Cleared(a, cap, y) else y;
    var xs, ys := StandardExactly(s, a, back, cap, min, x), MatchExactly(s, a, back, cap, min, y');
    Entry(a, cap, min, max, r, stale, x, y);
    if min == 0 {
      ExactlyNone(s, a, back, cap, x, y');
      AlikeInto((r - g) + g * stale, c, x, y');
      AlikeOne(c, x, y');
      BeginOne(a, cap, b, Remaining(min, max), x, y');
    } else {
      BeginOne(a, cap, b, min, x, y);
      ExactlyAlike(s, a, back, cap, min, b, x, y);
      assert c == Apart(a, back, cap, b, {});
      BeginAfter(a, back, cap, b, Remaining(min, max), xs, ys);
    }
    UpToAllAlike(s, a, back, cap, Remaining(min, max), greedy, b, c, x, y, xs, ys);
    QuantifiedMeans(s, a, min, max, greedy, back, cap, x, y);
  }

  lemma QuantifiedMeans(s: Subject, a: Term, min: int, max: int, greedy: bool, back: bool, cap: nat, x: MatchState,
                        y: MatchState)
    requires WellFormed(a) && 0 <= min <= max <= INFINITE && Valid(s, x) && Valid(s, y)
             && cap + Captures(a) <= s.captureCount
    ensures var t, y' := Quantified(a, min, max, greedy), if min == 0 then Cleared(a, cap, y) else y;
            && WellFormed(t) && Captures(t) == Captures(a) && Valid(s, y')
            && AllFrom(s, back, y, MatchExactly(s, a, back, cap, min, y'))
            && StandardMatch(s, t, back, cap, x)
               == StandardUpToAll(s, a, back, cap, Remaining(min, max), greedy, x,
                                  StandardExactly(s, a, back, cap, min, x))
            && Match(s, t, back, cap, y)
               == MatchUpToAll(s, a, back, cap, Remaining(min, max), greedy, y,
                               MatchExactly(s, a, back, cap, min, y'))
  {
    hide MatchUpToAll, MatchExactly, StandardUpToAll, StandardExactly;
  }

  lemma ExactlyNone(s: Subject, a: Term, back: bool, cap: nat, x: MatchState, y: MatchState)
    requires WellFormed(a) && Valid(s, x) && Valid(s, y) && cap + Captures(a) <= s.captureCount
    ensures StandardExactly(s, a, back, cap, 0, x) == [x] && MatchExactly(s, a, back, cap, 0, y) == [y]
  {
  }

  /** What the quantifier does to the groups of its atom on entry. */
  lemma Entry(a: Term, cap: nat, min: int, max: int, r: set<int>, stale: set<int>, x: MatchState, y: MatchState)
    requires 0 <= min <= max && Alike(r, x, y) && Fresh(stale, cap, Captures(a), x)
    ensures var g := Groups(cap, Captures(a));
            var b, y' := Begun(g, min, max, r, stale), if min == 0 then Cleared(a, cap, y) else y;
            && (max > 0 ==> Alike(b, Cleared(a, cap, x), y'))
            && (max > 1 ==> g <= b)
            && (min == 0 ==> Alike((r - g) + g * stale, x, y'))
  {
    hide Captures;
    var y' := if min == 0 then Cleared(a, cap, y) else y;
    assert |Cleared(a, cap, x).captures| == |y'.captures|;
  }

  /** If n more iterations may follow, the pairs are alike enough to begin the next one. */
  ghost predicate Ready(a: Term, cap: nat, b: set<int>, n: int, xs: seq<MatchState>, ys: seq<MatchState>) {
    && |xs| == |ys|
    && (n > 0 ==> forall i :: 0 <= i < |xs| ==> Alike(b, Cleared(a, cap, xs[i]), ys[i]))
    && (n > 1 ==> Groups(cap, Captures(a)) <= b)
  }

  lemma BeginOne(a: Term, cap: nat, b: set<int>, n: int, x: MatchState, y: MatchState)
    requires n > 0 ==> Alike(b, Cleared(a, cap, x), y)
    requires n > 1 ==> Groups(cap, Captures(a)) <= b
    ensures Ready(a, cap, b, n, [x], [y])
  {
  }

  lemma BeginAfter(a: Term, back: bool, cap: nat, b: set<int>, n: int, xs: seq<MatchState>, ys: seq<MatchState>)
    requires AllAlike(Apart(a, back, cap, b, {}), xs, ys) && (n > 0 ==> Groups(cap, Captures(a)) <= b)
    ensures Ready(a, cap, b, n, xs, ys)
  {
    hide Alike, Cleared, Captures, Apart, Groups;
    if n > 0 {
      TermApart(a, back, cap, b, {});
      forall i | 0 <= i < |xs| ensures Alike(b, Cleared(a, cap, xs[i]), ys[i]) {
        AlikeCleared(a, cap, Apart(a, back, cap, b, {}), b, xs[i], ys[i]);
      }
    }
  }

  lemma ReadyTail(a: Term, cap: nat, b: set<int>, n: int, xs: seq<MatchState>, ys: seq<MatchState>)
    requires Ready(a, cap, b, n, xs, ys) && |xs| > 0
    ensures |ys| == |xs| && Ready(a, cap, b, n, [xs[0]], [ys[0]]) && Ready(a, cap, b, n, xs[1..], ys[1..])
  {
  }

  lemma ReadyOne(a: Term, cap: nat, b: set<int>, n: int, x: MatchState, y: MatchState)
    requires Ready(a, cap, b, n, [x], [y]) && n > 0
    ensures Alike(b, Cleared(a, cap, x), y) && (n > 1 ==> Groups(cap, Captures(a)) <= b)
  {
    assert [x][0] == x && [y][0] == y;
  }

  lemma {:induction false} ExactlyAlike(s: Subject, a: Term, back: bool, cap: nat, n: nat, b: set<int>, x: MatchState,
                                        y: MatchState)
    requires WellFormed(a) && Valid(s, x) && Valid(s, y) && cap + Captures(a) <= s.captureCount
    requires n > 0 && Ready(a, cap, b, n, [x], [y]) && Safe(a, back, cap, b, {})
    ensures AllAlike(Apart(a, back, cap, b, {}), StandardExactly(s, a, back, cap, n, x),
                     MatchExactly(s, a, back, cap, n, y))
    decreases a, 2, n, 0, 0
  {
    hide Alike, AllAlike, Fresh, Match, StandardMatch, Apart, Safe, WellFormed, Captures, Groups, Ready;
    ReadyOne(a, cap, b, n, x, y);
    FreshCleared(a, cap, x);
    TermAlike(s, a, back, cap, b, {}, Cleared(a, cap, x), y);
    ExactlyAllAlike(s, a, back, cap, n - 1, b, x, y, StandardMatch(s, a, back, cap, Cleared(a, cap, x)),
                    Match(s, a, back, cap, y));
  }

  lemma {:induction false} ExactlyAllAlike(s: Subject, a: Term, back: bool, cap: nat, n: nat, b: set<int>,
                                           x: MatchState, y: MatchState, xs: seq<MatchState>, ys: seq<MatchState>)
    requires WellFormed(a) && AllFrom(s, back, x, xs) && AllFrom(s, back, y, ys) && cap + Captures(a) <= s.captureCount
    requires AllAlike(Apart(a, back, cap, b, {}), xs, ys) && Safe(a, back, cap, b, {})
             && (n > 0 ==> Groups(cap, Captures(a)) <= b)
    ensures AllAlike(Apart(a, back, cap, b, {}), StandardExactlyAll(s, a, back, cap, n, x, xs),
                     MatchExactlyAll(s, a, back, cap, n, y, ys))
    decreases a, 2, n, 1, |xs|
  {
    hide Alike, AllAlike, StandardExactly, MatchExactly, Apart, Safe, WellFormed, Captures, Groups, Ready;
    var q := Apart(a, back, cap, b, {});
    AlikeNone(q);
    AlikeLength(q, xs, ys);
    if |xs| > 0 {
      AlikeTail(q, xs, ys);
      if n == 0 {
        ExactlyNone(s, a, back, cap, xs[0], ys[0]);
        AlikeOne(q, xs[0], ys[0]);
      } else {
        AlikeOne(q, xs[0], ys[0]);
        BeginAfter(a, back, cap, b, n, [xs[0]], [ys[0]]);
        ExactlyAlike(s, a, back, cap, n, b, xs[0], ys[0]);
      }
      ExactlyAllAlike(s, a, back, cap, n, b, x, y, xs[1..], ys[1..]);
      AlikeConcat(q, StandardExactly(s, a, back, cap, n, xs[0]), StandardExactlyAll(s, a, back, cap, n, x, xs[1..]),
                  MatchExactly(s, a, back, cap, n, ys[0]), MatchExactlyAll(s, a, back, cap, n, y, ys[1..]));
    }
  }

  lemma {:induction false} UpToAlike(s: Subject, a: Term, back: bool, cap: nat, n: int, greedy: bool, b: set<int>,
                                     c: set<int>, x: MatchState, y: MatchState)
    requires WellFormed(a) && Valid(s, x) && Valid(s, y) && cap + Captures(a) <= s.captureCount && 0 <= n
    requires Alike(c, x, y) && Ready(a, cap, b, n, [x], [y]) && (n > 0 ==> Safe(a, back, cap, b, {}))
    requires Apart(a, back, cap, b, {}) <= c
    ensures AllAlike(c, StandardUpTo(s, a, back, cap, n, greedy, x), MatchUpTo(s, a, back, cap, n, greedy, y))
    decreases a, 3, Distance(s, back, x), 1, 0
  {
    hide Alike, AllAlike, Fresh, Match, StandardMatch, MatchMoved, StandardMoved, Apart, Safe, WellFormed, Captures,
      Groups, Ready;
    AlikeOne(c, x, y);
    if n > 0 {
      ReadyOne(a, cap, b, n, x, y);
      FreshCleared(a, cap, x);
      TermAlike(s, a, back, cap, b, {}, Cleared(a, cap, x), y);
      var xs, ys := StandardMatch(s, a, back, cap, Cleared(a, cap, x)), Match(s, a, back, cap, y);
      var n1 := if n == INFINITE then n else n - 1;
      AlikePos(c, x, y);
      MovedAlike(s, a, back, cap, n1, greedy, b, c, x, y, xs, ys);
      var more, more' := StandardMoved(s, a, back, cap, n1, greedy, x, xs),
                         MatchMoved(s, a, back, cap, n1, greedy, y, ys);
      AlikeConcat(c, more, [x], more', [y]);
      AlikeConcat(c, [x], more, [y], more');
    }
  }

  lemma {:induction false} MovedAlike(s: Subject, a: Term, back: bool, cap: nat, n: int, greedy: bool, b: set<int>,
                                      c: set<int>, x: MatchState, y: MatchState, xs: seq<MatchState>,
                                      ys: seq<MatchState>)
    requires WellFormed(a) && Valid(s, x) && Valid(s, y) && AllFrom(s, back, x, xs) && AllFrom(s, back, y, ys)
             && cap + Captures(a) <= s.captureCount && 0 <= n && x.pos == y.pos
    requires AllAlike(Apart(a, back, cap, b, {}), xs, ys) && Safe(a, back, cap, b, {})
             && (n > 0 ==> Groups(cap, Captures(a)) <= b)
    requires Apart(a, back, cap, b, {}) <= c
    ensures AllAlike(c, StandardMoved(s, a, back, cap, n, greedy, x, xs), MatchMoved(s, a, back, cap, n, greedy, y, ys))
    decreases a, 3, Distance(s, back, x), 0, |xs|
  {
    hide Alike, AllAlike, StandardUpTo, MatchUpTo, Apart, Safe, WellFormed, Captures, Groups, Ready;
    var q := Apart(a, back, cap, b, {});
    AlikeNone(c);
    AlikeLength(q, xs, ys);
    if |xs| > 0 {
      AlikeTail(q, xs, ys);
      AlikePos(q, xs[0], ys[0]);
      AlikeOne(q, xs[0], ys[0]);
      if xs[0].pos != x.pos {
        BeginAfter(a, back, cap, b, n, [xs[0]], [ys[0]]);
        AlikeInto(q, c, xs[0], ys[0]);
        UpToAlike(s, a, back, cap, n, greedy, b, c, xs[0], ys[0]);
      }
      MovedAlike(s, a, back, cap, n, greedy, b, c, x, y, xs[1..], ys[1..]);
      AlikeConcat(c, if xs[0].pos == x.pos then [] else StandardUpTo(s, a, back, cap, n, greedy, xs[0]),
                  StandardMoved(s, a, back, cap, n, greedy, x, xs[1..]),
                  if ys[0].pos == y.pos then [] else MatchUpTo(s, a, back, cap, n, greedy, ys[0]),
                  MatchMoved(s, a, back, cap, n, greedy, y, ys[1..]));
    }
  }

  lemma AlikeInto(r: set<int>, q: set<int>, x: MatchState, y: MatchState)
    requires Alike(r, x, y) && r <= q
    ensures Alike(q, x, y)
  {
  }

  lemma {:induction false} UpToAllAlike(s: Subject, a: Term, back: bool, cap: nat, n: int, greedy: bool, b: set<int>,
                                        c: set<int>, x: MatchState, y: MatchState, xs: seq<MatchState>,
                                        ys: seq<MatchState>)
    requires WellFormed(a) && AllFrom(s, back, x, xs) && AllFrom(s, back, y, ys)
             && cap + Captures(a) <= s.captureCount && 0 <= n
    requires AllAlike(c, xs, ys) && Ready(a, cap, b, n, xs, ys) && (n > 0 ==> Safe(a, back, cap, b, {}))
    requires Apart(a, back, cap, b, {}) <= c
    ensures AllAlike(c, StandardUpToAll(s, a, back, cap, n, greedy, x, xs),
                     MatchUpToAll(s, a, back, cap, n, greedy, y, ys))
    decreases a, 4, 0, 0, |xs|
  {
    hide Alike, AllAlike, StandardUpTo, MatchUpTo, Apart, Safe, WellFormed, Captures, Groups, Ready;
    AlikeNone(c);
    AlikeLength(c, xs, ys);
    if |xs| > 0 {
      AlikeTail(c, xs, ys);
      ReadyTail(a, cap, b, n, xs, ys);
      UpToAlike(s, a, back, cap, n, greedy, b, c, xs[0], ys[0]);
      UpToAllAlike(s, a, back, cap, n, greedy, b, c, x, y, xs[1..], ys[1..]);
      AlikeConcat(c, StandardUpTo(s, a, back, cap, n, greedy, xs[0]),
                  StandardUpToAll(s, a, back, cap, n, greedy, x, xs[1..]),
                  MatchUpTo(s, a, back, cap, n, greedy, ys[0]),
                  MatchUpToAll(s, a, back, cap, n, greedy, y, ys[1..]));
    }
  }
}
