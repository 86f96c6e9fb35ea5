/**
 * Clearing captures: what it means for patterns that the engine clears the groups of a quantifier's atom once, when it
 * enters the quantifier, and not before each iteration. Matches are found at the same places unless a back reference
 * reads a group that may have been left set, and where every match of the atom sets all its groups the captures are the
 * same as well. At the end, a program that shows the difference.
 */
module RegexpClearing {
  import opened Bytes
  import opened RegexpAnalysis
  import opened RegexpSyntax
  import opened RegexpCode
  import opened RegexpSemantics
  import opened RegexpMachine
  import opened RegexpSteps
  import opened RegexpShape
  import opened RegexpProgram
  import opened RegexpStandard
  import opened RegexpAgreement

  // ----- back references to the groups of the atom -----

  /** t has no back reference to the groups numbered from lo up to but excluding hi. */
  predicate NoRefs(t: Term, lo: int, hi: int)
    decreases t
  {
    match t
    case BackReference(i) => !(lo <= i < hi)
    case Group(d) => DisjunctionNoRefs(d, lo, hi)
    case Capture(d) => DisjunctionNoRefs(d, lo, hi)
    case Look(_, _, d) => DisjunctionNoRefs(d, lo, hi)
    case Quantified(a, _, _, _) => NoRefs(a, lo, hi)
    case _ => true
  }

  predicate SequenceNoRefs(ts: seq<Term>, lo: int, hi: int)
    decreases ts
  {
    |ts| == 0 || (SequenceNoRefs(ts[..|ts| - 1], lo, hi) && NoRefs(ts[|ts| - 1], lo, hi))
  }

  predicate DisjunctionNoRefs(d: Disjunction, lo: int, hi: int)
    decreases d
  {
    |d| == 0 || (DisjunctionNoRefs(d[..|d| - 1], lo, hi) && SequenceNoRefs(d[|d| - 1].terms, lo, hi))
  }

  /** No back reference in the atom to a group of the atom. */
  predicate NoOwnRefs(a: Term, cap: int) {
    Captures(a) == 0 || NoRefs(a, cap, cap + Captures(a))
  }

  lemma {:induction false} NoRefsSafe(t: Term, back: bool, cap: int, r: set<int>, stale: set<int>, lo: int, hi: int)
    requires lo <= cap && cap + Captures(t) <= hi && r <= Groups(lo, hi - lo) && (lo < hi ==> NoRefs(t, lo, hi))
    ensures Safe(t, back, cap, r, stale)
    decreases t
  {
    match t {
      case Group(d) => DisjunctionNoRefsSafe(d, back, cap, r, stale, lo, hi);
      case Capture(d) =>
        DisjunctionNoRefsSafe(d, back, cap + 1, r - {if back then 2 * cap + 1 else 2 * cap}, stale, lo, hi);
      case Look(_, behind, d) => DisjunctionNoRefsSafe(d, behind, cap, r, stale, lo, hi);
      case Quantified(a, min, max, _) =>
        NoRefsSafe(a, back, cap, Begun(Groups(cap, Captures(a)), min, max, r, stale), {}, lo, hi);
      case _ =>
    }
  }

  lemma {:induction false} SequenceNoRefsSafe(ts: seq<Term>, back: bool, cap: int, r: set<int>, stale: set<int>,
                                              lo: int, hi: int)
    requires lo <= cap && cap + SequenceCaptures(ts) <= hi && r <= Groups(lo, hi - lo)
             && (lo < hi ==> SequenceNoRefs(ts, lo, hi))
    ensures SequenceSafe(ts, back, cap, r, stale)
    decreases ts
  {
    hide Groups, Apart, Safe, NoRefs, Captures;
    if |ts| > 0 {
      var init, last := ts[..|ts| - 1], ts[|ts| - 1];
      var mid := cap + SequenceCaptures(init);
      if back {
        NoRefsSafe(last, back, mid, r, stale, lo, hi);
        TermApart(last, back, mid, r, stale);
        SequenceNoRefsSafe(init, back, cap, Apart(last, back, mid, r, stale), stale, lo, hi);
      } else {
        SequenceNoRefsSafe(init, back, cap, r, stale, lo, hi);
        SequenceIsApart(init, back, cap, r, stale);
        NoRefsSafe(last, back, mid, SequenceApart(init, back, cap, r, stale), stale, lo, hi);
      }
    }
  }

  lemma {:induction false} DisjunctionNoRefsSafe(d: Disjunction, back: bool, cap: int, r: set<int>, stale: set<int>,
                                                 lo: int, hi: int)
    requires lo <= cap && cap + DisjunctionCaptures(d) <= hi && r <= Groups(lo, hi - lo)
             && (lo < hi ==> DisjunctionNoRefs(d, lo, hi))
    ensures DisjunctionSafe(d, back, cap, r, stale)
    decreases d
  {
    hide Groups, SequenceApart, SequenceSafe, SequenceNoRefs, SequenceCaptures;
    if |d| > 0 {
      var init := d[..|d| - 1];
      SequenceNoRefsSafe(d[|d| - 1].terms, back, cap + DisjunctionCaptures(init), r, stale, lo, hi);
      if |d| > 1 { DisjunctionNoRefsSafe(init, back, cap, r, stale, lo, hi); }
    }
  }

  // ----- atoms that set all their groups -----

  /** Whatever way t matches, every group of t is set by the match, or cleared by a quantifier inside of t. */
  predicate SetsAll(t: Term)
    decreases t
  {
    Captures(t) == 0 ||
    match t
    case Group(d) => DisjunctionSetsAll(d)
    case Capture(d) => DisjunctionSetsAll(d)
    case Look(negated, _, d) => !negated && DisjunctionSetsAll(d)
    case Quantified(a, _, _, _) => SetsAll(a)
    case _ => true
  }

  predicate SequenceSetsAll(ts: seq<Term>)
    decreases ts
  {
    |ts| == 0 || (SequenceSetsAll(ts[..|ts| - 1]) && SetsAll(ts[|ts| - 1]))
  }

  /** Of several alternatives only one takes part in a match. */
  predicate DisjunctionSetsAll(d: Disjunction)
    decreases d
  {
    DisjunctionCaptures(d) == 0 || (|d| == 1 && SequenceSetsAll(d[0].terms))
  }

  lemma {:induction false} TermSets(t: Term, back: bool, cap: int, r: set<int>)
    requires SetsAll(t)
    ensures Apart(t, back, cap, r, {}) !! Groups(cap, Captures(t))
    decreases t, 2
  {
    if Captures(t) > 0 {
      match t {
        case Group(d) => DisjunctionSets(d, back, cap, r);
        case Capture(d) => CaptureSets(d, back, cap, r);
        case Look(_, behind, d) => DisjunctionSets(d, behind, cap, r);
        case Quantified(a, min, max, _) => TermSets(a, back, cap, Begun(Groups(cap, Captures(a)), min, max, r, {}));
        case _ =>
      }
    }
  }

  lemma CaptureSets(d: Disjunction, back: bool, cap: int, r: set<int>)
    requires DisjunctionSetsAll(d)
    ensures Apart(Capture(d), back, cap, r, {}) !! Groups(cap, 1 + DisjunctionCaptures(d))
    decreases d, 1
  {
    hide DisjunctionApart, DisjunctionSetsAll, DisjunctionCaptures, Groups;
    var n := DisjunctionCaptures(d);
    var q := r - {if back then 2 * cap + 1 else 2 * cap};
    DisjunctionSets(d, back, cap + 1, q);
    DisjunctionIsApart(d, back, cap + 1, q, {});
    GroupsSplit(cap, 1, n);
    OneGroup(cap);
  }

  lemma OneGroup(cap: int)
    ensures Groups(cap, 1) == {2 * cap, 2 * cap + 1}
  {
    assert Groups(cap, 0) == {};
  }

  lemma {:induction false} SequenceSets(ts: seq<Term>, back: bool, cap: int, r: set<int>)
    requires SequenceSetsAll(ts)
    ensures SequenceApart(ts, back, cap, r, {}) !! Groups(cap, SequenceCaptures(ts))
    decreases ts, 2
  {
    hide Apart, SetsAll, Captures, Groups;
    if |ts| == 0 {
      NoGroups(cap);
    } else {
      var init, last := ts[..|ts| - 1], ts[|ts| - 1];
      var n, m := SequenceCaptures(init), Captures(last);
      GroupsSplit(cap, n, m);
      GroupsDisjoint(cap, n, m);
      if back {
        var q := Apart(last, back, cap + n, r, {});
        TermSets(last, back, cap + n, r);
        SequenceSets(init, back, cap, q);
        SequenceIsApart(init, back, cap, q, {});
      } else {
        var q := SequenceApart(init, back, cap, r, {});
        SequenceSets(init, back, cap, r);
        TermSets(last, back, cap + n, q);
        TermApart(last, back, cap + n, q, {});
      }
    }
  }

  lemma NoGroups(cap: int)
    ensures Groups(cap, 0) == {}
  {
  }

  lemma GroupsDisjoint(cap: int, n: nat, m: nat)
    ensures Groups(cap, n) !! Groups(cap + n, m)
  {
  }

  lemma {:induction false} DisjunctionSets(d: Disjunction, back: bool, cap: int, r: set<int>)
    requires DisjunctionSetsAll(d)
    ensures DisjunctionApart(d, back, cap, r, {}) !! Groups(cap, DisjunctionCaptures(d))
    decreases d, 0
  {
    hide SequenceApart, SequenceSetsAll, SequenceCaptures, Groups;
    if DisjunctionCaptures(d) == 0 {
      NoGroups(cap);
    } else {
      assert d[..|d| - 1] == [];
      SequenceSets(d[0].terms, back, cap, r);
    }
  }

  // ----- quantifiers -----

  /** All the groups of a are unset. */
  ghost predicate Unset(a: Term, cap: nat, x: MatchState) {
    Fresh({}, cap, Captures(a), x)
  }

  /**
   * Clearing does not decide where an atom without back references to its own groups matches: every quantifier on it
   * has the same end positions in the same order, and the same captures outside of the atom, whatever was set before.
   */
  lemma PositionsAgree(s: Subject, a: Term, min: int, max: int, greedy: bool, back: bool, cap: nat, x: MatchState)
    requires WellFormed(a) && 0 <= min <= max <= INFINITE && Valid(s, x) && cap + Captures(a) <= s.captureCount
    requires NoOwnRefs(a, cap)
    ensures AllAlike(Groups(cap, Captures(a)), StandardMatch(s, Quantified(a, min, max, greedy), back, cap, x),
                     Match(s, Quantified(a, min, max, greedy), back, cap, x))
  {
    hide Match, StandardMatch, Apart, Safe, NoRefs, Groups;
    var t, g := Quantified(a, min, max, greedy), Groups(cap, Captures(a));
    AllStale(cap, Captures(a), x);
    NoRefsSafe(t, back, cap, {}, g, cap, cap + Captures(a)) by { QuantifiedRefs(a, min, max, greedy, cap); }
    TermAlike(s, t, back, cap, {}, g, x, x);
    TermApart(t, back, cap, {}, g);
    AlikeWider(Apart(t, back, cap, {}, g), g, StandardMatch(s, t, back, cap, x), Match(s, t, back, cap, x));
  }

  lemma QuantifiedRefs(a: Term, min: int, max: int, greedy: bool, cap: int)
    requires NoOwnRefs(a, cap)
    ensures var t := Quantified(a, min, max, greedy);
            Captures(t) == Captures(a) && (Captures(a) > 0 ==> NoRefs(t, cap, cap + Captures(t)))
  {
  }

  lemma AllStale(cap: int, n: nat, x: MatchState)
    ensures Fresh(Groups(cap, n), cap, n, x)
  {
  }

  /** If nothing comes apart from equal states, the two matchers agree. */
  lemma Agree(s: Subject, t: Term, back: bool, cap: nat, stale: set<int>, x: MatchState)
    requires WellFormed(t) && Valid(s, x) && cap + Captures(t) <= s.captureCount
    requires Fresh(stale, cap, Captures(t), x) && Safe(t, back, cap, {}, stale) && Apart(t, back, cap, {}, stale) == {}
    ensures StandardMatch(s, t, back, cap, x) == Match(s, t, back, cap, x)
  {
    hide Match, StandardMatch, Apart, Safe, Fresh;
    TermAlike(s, t, back, cap, {}, stale, x, x);
    AlikeEqual(StandardMatch(s, t, back, cap, x), Match(s, t, back, cap, x));
  }

  lemma AlikeEqual(xs: seq<MatchState>, ys: seq<MatchState>)
    requires AllAlike({}, xs, ys)
    ensures xs == ys
  {
    forall i | 0 <= i < |xs| ensures xs[i] == ys[i] {
      assert Alike({}, xs[i], ys[i]);
      assert xs[i].captures == ys[i].captures;
    }
  }

  /** What an atom that sets all its groups matches does not depend on what they were before. */
  lemma ClearingIsInvisible(s: Subject, a: Term, back: bool, cap: nat, x: MatchState)
    requires WellFormed(a) && Valid(s, x) && cap + Captures(a) <= s.captureCount
    requires NoOwnRefs(a, cap) && SetsAll(a)
    ensures Match(s, a, back, cap, x) == Match(s, a, back, cap, Cleared(a, cap, x))
  {
    hide Match, StandardMatch, Apart, Safe, NoRefs, Groups, SetsAll, ResetCaptures, Fresh;
    var g := Groups(cap, Captures(a));
    var x' := Cleared(a, cap, x);
    FreshCleared(a, cap, x);
    AtomTogether(a, back, cap, g);
    AtomTogether(a, back, cap, {});
    AlikeCleared(a, cap, {}, g, x, x);
    TermAlike(s, a, back, cap, g, {}, x', x);
    AlikeEqual(StandardMatch(s, a, back, cap, x'), Match(s, a, back, cap, x));
    Agree(s, a, back, cap, {}, x');
  }

  lemma AtomTogether(a: Term, back: bool, cap: int, b: set<int>)
    requires NoOwnRefs(a, cap) && SetsAll(a) && b <= Groups(cap, Captures(a))
    ensures Safe(a, back, cap, b, {}) && Apart(a, back, cap, b, {}) == {}
  {
    hide Apart, Safe, NoRefs, Groups, SetsAll;
    NoRefsSafe(a, back, cap, b, {}, cap, cap + Captures(a));
    TermApart(a, back, cap, b, {});
    TermSets(a, back, cap, b);
  }

  /**
   * On an atom that sets all its groups and does not refer to them, the quantifiers of the engine and of the standard
   * have the same end states, captures included, exactly when the minimum is positive or the groups are unset on entry.
   */
  lemma QuantifiersAgree(s: Subject, a: Term, min: int, max: int, greedy: bool, back: bool, cap: nat, x: MatchState)
    requires WellFormed(a) && 0 <= min <= max <= INFINITE && Valid(s, x) && cap + Captures(a) <= s.captureCount
    requires NoOwnRefs(a, cap) && SetsAll(a)
    ensures StandardMatch(s, Quantified(a, min, max, greedy), back, cap, x)
            == Match(s, Quantified(a, min, max, greedy), back, cap, x)
            <==> min >= 1 || Unset(a, cap, x)
  {
    hide Match, StandardMatch, Apart, Safe, NoRefs, Groups, SetsAll, Fresh;
    var t := Quantified(a, min, max, greedy);
    if min >= 1 || Unset(a, cap, x) {
      var stale := if min >= 1 then Groups(cap, Captures(a)) else {};
      AllStale(cap, Captures(a), x);
      QuantifiedTogether(a, min, max, greedy, back, cap, stale);
      Agree(s, t, back, cap, stale, x);
    } else {
      NoneDiffers(s, a, max, greedy, back, cap, x);
    }
  }

  lemma QuantifiedTogether(a: Term, min: int, max: int, greedy: bool, back: bool, cap: nat, stale: set<int>)
    requires 0 <= min <= max && NoOwnRefs(a, cap) && SetsAll(a) && stale <= Groups(cap, Captures(a))
             && (min == 0 ==> stale == {})
    ensures var t := Quantified(a, min, max, greedy);
            Captures(t) == Captures(a) && Safe(t, back, cap, {}, stale) && Apart(t, back, cap, {}, stale) == {}
  {
    hide NoRefs, Groups, SetsAll;
    var g := Groups(cap, Captures(a));
    AtomTogether(a, back, cap, Begun(g, min, max, {}, stale));
  }

  /** The engine clears the groups even where there is no iteration. */
  lemma NoneDiffers(s: Subject, a: Term, max: int, greedy: bool, back: bool, cap: nat, x: MatchState)
    requires WellFormed(a) && 0 <= max <= INFINITE && Valid(s, x) && cap + Captures(a) <= s.captureCount
    requires !Unset(a, cap, x)
    ensures StandardMatch(s, Quantified(a, 0, max, greedy), back, cap, x)
            != Match(s, Quantified(a, 0, max, greedy), back, cap, x)
  {
    hide StandardUpTo, MatchUpTo, Captures, Match, StandardMatch;
    var n, y := Remaining(0, max), Cleared(a, cap, x);
    QuantifiedMeans(s, a, 0, max, greedy, back, cap, x, x);
    ExactlyNone(s, a, back, cap, x, y);
    var xs, ys := StandardUpTo(s, a, back, cap, n, greedy, x), MatchUpTo(s, a, back, cap, n, greedy, y);
    assert [x][1..] == [] && [y][1..] == [];
    assert StandardUpToAll(s, a, back, cap, n, greedy, x, [x]) == xs + [];
    assert MatchUpToAll(s, a, back, cap, n, greedy, x, [y]) == ys + [];
    assert xs + [] == xs && ys + [] == ys;
    NoneLast(s, a, back, cap, n, greedy, x, y);
    assert x != y by { FreshCleared(a, cap, x); }
  }

  lemma NoneLast(s: Subject, a: Term, back: bool, cap: nat, n: int, greedy: bool, x: MatchState, y: MatchState)
    requires WellFormed(a) && Valid(s, x) && Valid(s, y) && cap + Captures(a) <= s.captureCount && 0 <= n
    ensures var xs, ys := StandardUpTo(s, a, back, cap, n, greedy, x), MatchUpTo(s, a, back, cap, n, greedy, y);
            && |xs| > 0 && |ys| > 0
            && xs[if greedy then |xs| - 1 else 0] == x && ys[if greedy then |ys| - 1 else 0] == y
  {
    hide StandardMatch, Match, StandardMoved, MatchMoved;
  }

  // ----- whole patterns -----

  /** Every quantifier repeats at most once, or has an atom that sets all its groups and does not refer to them. */
  predicate Clean(t: Term, cap: int)
    decreases t
  {
    match t
    case Group(d) => DisjunctionClean(d, cap)
    case Capture(d) => DisjunctionClean(d, cap + 1)
    case Look(_, _, d) => DisjunctionClean(d, cap)
    case Quantified(a, _, max, _) => (max <= 1 && Clean(a, cap)) || (NoOwnRefs(a, cap) && SetsAll(a))
    case _ => true
  }

  predicate SequenceClean(ts: seq<Term>, cap: int)
    decreases ts
  {
    |ts| == 0 ||
    (SequenceClean(ts[..|ts| - 1], cap) && Clean(ts[|ts| - 1], cap + SequenceCaptures(ts[..|ts| - 1])))
  }

  predicate DisjunctionClean(d: Disjunction, cap: int)
    decreases d
  {
    |d| == 0 ||
    (DisjunctionClean(d[..|d| - 1], cap) && SequenceClean(d[|d| - 1].terms, cap + DisjunctionCaptures(d[..|d| - 1])))
  }

  /** In such a pattern the two matchers never come apart. */
  lemma {:induction false} CleanTogether(t: Term, back: bool, cap: nat)
    requires WellFormed(t) && Clean(t, cap)
    ensures Safe(t, back, cap, {}, {}) && Apart(t, back, cap, {}, {}) == {}
    decreases t
  {
    hide SetsAll, Groups;
    match t {
      case Group(d) => DisjunctionCleanTogether(d, back, cap);
      case Capture(d) =>
        assert {} - {if back then 2 * cap + 1 else 2 * cap} == {};
        DisjunctionCleanTogether(d, back, cap + 1);
      case Look(_, behind, d) => DisjunctionCleanTogether(d, behind, cap);
      case Quantified(a, min, max, greedy) =>
        if max <= 1 && Clean(a, cap) {
          assert Begun(Groups(cap, Captures(a)), min, max, {}, {}) == {};
          CleanTogether(a, back, cap);
        } else {
          QuantifiedTogether(a, min, max, greedy, back, cap, {});
        }
      case _ =>
    }
  }

  lemma {:induction false} SequenceCleanTogether(ts: seq<Term>, back: bool, cap: nat)
    requires SequenceWellFormed(ts) && SequenceClean(ts, cap)
    ensures SequenceSafe(ts, back, cap, {}, {}) && SequenceApart(ts, back, cap, {}, {}) == {}
    decreases ts
  {
    hide Apart, Safe, Clean, WellFormed, Captures;
    if |ts| > 0 {
      var init, last := ts[..|ts| - 1], ts[|ts| - 1];
      SequenceCleanTogether(init, back, cap);
      CleanTogether(last, back, cap + SequenceCaptures(init));
    }
  }

  lemma {:induction false} DisjunctionCleanTogether(d: Disjunction, back: bool, cap: nat)
    requires DisjunctionWellFormed(d) && DisjunctionClean(d, cap)
    ensures DisjunctionSafe(d, back, cap, {}, {}) && DisjunctionApart(d, back, cap, {}, {}) == {}
    decreases d
  {
    hide SequenceApart, SequenceSafe, SequenceClean, SequenceWellFormed, SequenceCaptures;
    if |d| > 0 {
      var init := d[..|d| - 1];
      DisjunctionCleanTogether(init, back, cap);
      SequenceCleanTogether(d[|d| - 1].terms, back, cap + DisjunctionCaptures(init));
    }
  }

  lemma CleanAgree(s: Subject, t: Term, back: bool, cap: nat, x: MatchState)
    requires WellFormed(t) && Valid(s, x) && cap + Captures(t) <= s.captureCount
    requires Clean(t, cap) && Unset(t, cap, x)
    ensures StandardMatch(s, t, back, cap, x) == Match(s, t, back, cap, x)
  {
    hide Match, StandardMatch, Apart, Safe, Clean, Fresh, WellFormed, Captures;
    CleanTogether(t, back, cap);
    Agree(s, t, back, cap, {}, x);
  }

  lemma CleanPattern(d: Disjunction)
    requires DisjunctionWellFormed(d) && DisjunctionClean(d, 1)
    ensures PatternSafe(d) && PatternApart(d) == {}
  {
    hide Apart, Safe, DisjunctionClean, DisjunctionWellFormed;
    CleanTogether(Capture(d), false, 0);
  }

  /** The matches that MatchesFrom finds, with clearing before each iteration. */
  ghost function StandardFrom(s: Subject, d: Disjunction, sticky: bool, x: MatchState): (r: seq<MatchState>)
    requires DisjunctionWellFormed(d) && Valid(s, x) && 1 + DisjunctionCaptures(d) <= s.captureCount
    ensures AllValid(s, r)
    decreases |s.input| - x.pos
  {
    StandardMatch(s, Capture(d), false, 0, x)
    + if sticky || x.pos == |s.input| then [] else StandardFrom(s, d, sticky, x.(pos := x.pos + 1))
  }

  /** The slots of the whole pattern on which engine and standard may disagree. */
  function PatternApart(d: Disjunction): set<int> {
    Apart(Capture(d), false, 0, {}, {})
  }

  predicate PatternSafe(d: Disjunction) {
    Safe(Capture(d), false, 0, {}, {})
  }

  lemma {:induction false} FromAlike(s: Subject, d: Disjunction, sticky: bool, x: MatchState)
    requires DisjunctionWellFormed(d) && Valid(s, x) && 1 + DisjunctionCaptures(d) <= s.captureCount
    requires Fresh({}, 0, 1 + DisjunctionCaptures(d), x) && PatternSafe(d)
    ensures AllAlike(PatternApart(d), StandardFrom(s, d, sticky, x), MatchesFrom(s, d, sticky, x))
    decreases |s.input| - x.pos
  {
    hide Match, StandardMatch, Apart, Safe, AllAlike;
    var r := PatternApart(d);
    TermAlike(s, Capture(d), false, 0, {}, {}, x, x);
    AlikeNone(r);
    if !(sticky || x.pos == |s.input|) {
      var y := x.(pos := x.pos + 1);
      FromAlike(s, d, sticky, y);
      AlikeConcat(r, StandardMatch(s, Capture(d), false, 0, x), StandardFrom(s, d, sticky, y),
                  MatchesAt(s, d, x), MatchesFrom(s, d, sticky, y));
    } else {
      AlikeConcat(r, StandardMatch(s, Capture(d), false, 0, x), [], MatchesAt(s, d, x), []);
    }
  }

  /**
   * Compiled programs and the standard: if no back reference reads a slot that may differ, the program ends with the
   * match that the standard finds first, except for those slots; if there are none, with exactly that match.
   */
  lemma CompiledProgramIsStandard(flags: int, canon: (int, bool) -> int, d: Disjunction, input: seq<int>, index: nat)
    requires 0 <= flags < TWO16 && Accepted(flags, canon, d) && InputOk(canon, input) && index <= |input|
    requires |Bytecode(flags, canon, d)| < TWO31 && PatternSafe(d)
    ensures var m := MachineOf(Bytecode(flags, canon, d), canon, input);
            && DisjunctionWellFormed(d) && m.subject.captureCount == 1 + DisjunctionCaptures(d)
            && Valid(m.subject, Start(m.subject, index))
            && var ys := MatchesFrom(m.subject, d, FlagSet(flags, FLAG_STICKY), Start(m.subject, index));
               var xs := StandardFrom(m.subject, d, FlagSet(flags, FLAG_STICKY), Start(m.subject, index));
               && Reaches(m, Go(HEADER_LEN, Start(m.subject, index), [], []), Verdict(ys))
               && AllAlike(PatternApart(d), xs, ys) && (PatternApart(d) == {} ==> xs == ys)
  {
    hide InputOk, Reaches, FlagSet, PatternSafe, PatternApart, AllAlike, Accepted, MatchesFrom, StandardFrom,
      ProgramCode, Header, Need, Verdict, Start, DisjunctionWellFormed, DisjunctionCaptures, MachineOf, Fresh;
    CompiledProgramIsCorrect(flags, canon, d, input, index);
    AcceptedParts(flags, canon, d);
    var m := MachineOf(Bytecode(flags, canon, d), canon, input);
    var x, sticky := Start(m.subject, index), FlagSet(flags, FLAG_STICKY);
    StartFresh(m.subject, index);
    FromAlike(m.subject, d, sticky, x);
    if PatternApart(d) == {} {
      AlikeEqual(StandardFrom(m.subject, d, sticky, x), MatchesFrom(m.subject, d, sticky, x));
    }
  }

  lemma StartFresh(s: Subject, index: int)
    ensures Fresh({}, 0, s.captureCount, Start(s, index))
  {
  }

  // ----- where they differ: (?:(a)|b)* on "ab" -----

  const INPUT: seq<int> := [0x61, 0x62]

  function Canon(): (int, bool) -> int {
    (c: int, u: bool) => c
  }

  function Atom(): Term {
    Group([Alternative([Capture([Alternative([Char(0x61)])])]), Alternative([Char(0x62)])])
  }

  function Star(): Term {
    Quantified(Atom(), 0, INFINITE, true)
  }

  function Pattern(): Disjunction {
    [Alternative([Star()])]
  }

  function Ab(): Subject {
    Subject(INPUT, OptionsOf(0, Canon()), 2)
  }

  function Reached(pos: int, start: int, end: int): MatchState {
    MatchState(pos, [0, UNSET, start, end])
  }

  /**
   * The compiled program reports that group 1 matched [0, 1): it keeps the position of the a. The standard forgets it
   * when the second iteration matches the b.
   */
  lemma CapturesDiffer()
    ensures var m := MachineOf(Bytecode(0, Canon(), Pattern()), Canon(), INPUT);
            Reaches(m, Go(HEADER_LEN, Start(m.subject, 0), [], []), Matched([0, 2, 0, 1]))
    ensures DisjunctionWellFormed(Pattern()) && DisjunctionCaptures(Pattern()) == 1 && Valid(Ab(), Start(Ab(), 0))
    ensures Verdict(StandardFrom(Ab(), Pattern(), false, Start(Ab(), 0))) == Matched([0, 2, UNSET, UNSET])
  {
    hide Accepted, InputOk, Bytecode, Reaches, MatchesFrom, StandardFrom, Star, Canon;
    PatternFacts();
    PatternAccepted();
    CompiledProgramIsCorrect(0, Canon(), Pattern(), INPUT, 0);
    PatternMachine();
    assert !FlagSet(0, FLAG_STICKY);
    EngineFinds();
    StandardFinds();
  }

  lemma PatternFacts()
    ensures WellFormed(Atom()) && Captures(Atom()) == 1 && WellFormed(Star()) && Captures(Star()) == 1
    ensures DisjunctionWellFormed(Pattern()) && DisjunctionCaptures(Pattern()) == 1
  {
    AltsFacts();
    assert WellFormed(Atom()) && Captures(Atom()) == 1;
    assert WellFormed(Star()) && Captures(Star()) == 1;
    SingleFacts(Star());
  }

  lemma AltsFacts()
    ensures var d := Atom().alts;
            && d[..1] == [Alternative([Capture([Alternative([Char(0x61)])])])]
            && DisjunctionCaptures(d[..1]) == 1 && DisjunctionCaptures(d) == 1
            && DisjunctionWellFormed(d[..1]) && DisjunctionWellFormed(d)
  {
    var d := Atom().alts;
    var inner := [Alternative([Char(0x61)])];
    SingleFacts(Char(0x61));
    assert DisjunctionCaptures(inner) == 0 && DisjunctionWellFormed(inner);
    SingleFacts(Capture(inner));
    SingleFacts(Char(0x62));
    assert d[..1] == [Alternative([Capture(inner)])];
    assert d[..1][..0] == [];
  }

  /** An alternative of one term. */
  lemma SingleFacts(t: Term)
    ensures SequenceCaptures([t]) == Captures(t) && (SequenceWellFormed([t]) <==> WellFormed(t))
    ensures DisjunctionCaptures([Alternative([t])]) == Captures(t)
    ensures DisjunctionWellFormed([Alternative([t])]) <==> WellFormed(t)
  {
    var ts, d := [t], [Alternative([t])];
    assert ts[..0] == [] && d[..0] == [];
  }

  // the program is accepted: its code is short, and so is the operand stack it needs

  lemma PatternAccepted()
    ensures Accepted(0, Canon(), Pattern()) && InputOk(Canon(), INPUT) && |Bytecode(0, Canon(), Pattern())| < TWO31
  {
    hide Need, DisjunctionWellFormed, DisjunctionCaptures, ProgramCode, Header;
    PatternFacts();
    ProgramShort();
    NeedBound(ProgramCode(OptionsOf(0, Canon()), Pattern(), false));
    assert !FlagSet(0, FLAG_STICKY);
  }

  lemma PatternMachine()
    ensures |Bytecode(0, Canon(), Pattern())| >= HEADER_LEN
    ensures MachineOf(Bytecode(0, Canon(), Pattern()), Canon(), INPUT).subject == Ab()
  {
    hide Need, ProgramCode, DisjunctionWellFormed, DisjunctionCaptures;
    PatternAccepted();
    PatternFacts();
    BytecodeLayout(0, Canon(), Pattern());
  }

  /** Each byte of code pushes at most one operand. */
  lemma NeedBound(code: seq<byte>)
    ensures Need(code) <= |code|
  {
    OpsBound(code, 0);
    PeakBound(Ops(code, 0));
  }

  lemma {:induction false} PeakBound(ops: seq<byte>)
    ensures Net(ops) <= |ops| && Peak(ops) <= |ops|
    decreases |ops|
  {
    if |ops| > 0 { PeakBound(ops[..|ops| - 1]); }
  }

  lemma ProgramShort()
    ensures |ProgramCode(OptionsOf(0, Canon()), Pattern(), false)| <= 100
  {
    hide TermCode;
    var o := OptionsOf(0, Canon());
    SingleCode(o, Star(), 1);
    StarShort(o);
  }

  lemma SingleCode(o: Options, t: Term, cap: int)
    ensures DisjunctionCode(o, [Alternative([t])], false, cap) == TermCode(o, t, false, cap)
    ensures SequenceCode(o, [t], false, cap) == TermCode(o, t, false, cap)
  {
    hide TermCode;
    var ts, d := [t], [Alternative([t])];
    assert ts[..0] == [] && d[..0] == [];
    assert SequenceCode(o, ts[..0], false, cap) == [];
  }

  lemma StarShort(o: Options)
    ensures |TermCode(o, Star(), false, 1)| <= 70
  {
    var a := TermCode(o, Atom(), false, 1);
    assert |a| <= 30 by { AtomShort(o); }
    hide PutU32;
    PatternFacts();
    assert TermCode(o, Star(), false, 1) == QuantifierCode(a, 0, INFINITE, true, 1, 2);
  }

  lemma AtomShort(o: Options)
    ensures |TermCode(o, Atom(), false, 1)| <= 30
  {
    hide CharCode, PutU32;
    var d := Atom().alts;
    AltsFacts();
    SingleCode(o, Char(0x61), 2);
    SingleCode(o, Char(0x62), 2);
    SingleCode(o, Capture([Alternative([Char(0x61)])]), 1);
    assert TermCode(o, Atom(), false, 1) == DisjunctionCode(o, d, false, 1);
    CharShort(Fold(o, 0x61));
    CharShort(Fold(o, 0x62));
  }

  lemma CharShort(c: int)
    ensures |CharCode(c)| <= 5
  {
  }

  // what the two matchers find

  lemma EngineFinds()
    requires WellFormed(Star()) && Captures(Star()) == 1
    requires DisjunctionWellFormed(Pattern()) && DisjunctionCaptures(Pattern()) == 1
    ensures Valid(Ab(), Start(Ab(), 0))
    ensures Verdict(MatchesFrom(Ab(), Pattern(), false, Start(Ab(), 0))) == Matched([0, 2, 0, 1])
  {
    hide MatchDisjunction, DisjunctionWellFormed, DisjunctionCaptures, WellFormed, Captures, MatchesFrom;
    var s, x, x0 := Ab(), Start(Ab(), 0), Reached(0, UNSET, UNSET);
    assert SetCapture(x, 0, 0) == x0;
    SingleMatches(s, Star(), 1, x0);
    EngineMatches();
    var ys := MatchDisjunction(s, Pattern(), false, 1, x0);
    assert ys[0] == Reached(2, 0, 1);
    assert SetCapture(ys[0], 1, 2).captures == [0, 2, 0, 1];
    CaptureMeans(s, Pattern(), x, x0);
  }

  lemma CaptureMeans(s: Subject, d: Disjunction, x: MatchState, x0: MatchState)
    requires DisjunctionWellFormed(d) && Valid(s, x) && 1 + DisjunctionCaptures(d) <= s.captureCount
    requires x0 == SetCapture(x, 0, x.pos)
    ensures Valid(s, x0)
    ensures var ys := MatchDisjunction(s, d, false, 1, x0);
            |ys| > 0 ==> Verdict(MatchesFrom(s, d, false, x)) == Matched(SetCapture(ys[0], 1, ys[0].pos).captures)
    ensures var ys := StandardDisjunction(s, d, false, 1, x0);
            |ys| > 0 ==> Verdict(StandardFrom(s, d, false, x)) == Matched(SetCapture(ys[0], 1, ys[0].pos).captures)
  {
    hide MatchDisjunction, StandardDisjunction;
  }

  lemma StandardFinds()
    requires WellFormed(Star()) && Captures(Star()) == 1
    requires DisjunctionWellFormed(Pattern()) && DisjunctionCaptures(Pattern()) == 1
    ensures Valid(Ab(), Start(Ab(), 0))
    ensures Verdict(StandardFrom(Ab(), Pattern(), false, Start(Ab(), 0))) == Matched([0, 2, UNSET, UNSET])
  {
    hide StandardDisjunction, DisjunctionWellFormed, DisjunctionCaptures, WellFormed, Captures, StandardFrom;
    var s, x, x0 := Ab(), Start(Ab(), 0), Reached(0, UNSET, UNSET);
    assert SetCapture(x, 0, 0) == x0;
    StandardSingle(s, Star(), 1, x0);
    StandardMatches();
    var ys := StandardDisjunction(s, Pattern(), false, 1, x0);
    assert ys[0] == Reached(2, UNSET, UNSET);
    assert SetCapture(ys[0], 1, 2).captures == [0, 2, UNSET, UNSET];
    CaptureMeans(s, Pattern(), x, x0);
  }

  lemma SingleMatches(s: Subject, t: Term, cap: nat, x: MatchState)
    requires WellFormed(t) && Valid(s, x) && cap + Captures(t) <= s.captureCount
    ensures SequenceWellFormed([t]) && DisjunctionWellFormed([Alternative([t])])
    ensures SequenceCaptures([t]) == Captures(t) && DisjunctionCaptures([Alternative([t])]) == Captures(t)
    ensures MatchSequence(s, [t], false, cap, x) == Match(s, t, false, cap, x)
    ensures MatchDisjunction(s, [Alternative([t])], false, cap, x) == Match(s, t, false, cap, x)
  {
    hide Match;
    SingleFacts(t);
    var ts, d := [t], [Alternative([t])];
    assert ts[..0] == [] && d[..0] == [];
    assert MatchSequence(s, ts, false, cap, x) == MatchAll(s, t, false, cap, x, [x]);
  }

  lemma StandardSingle(s: Subject, t: Term, cap: nat, x: MatchState)
    requires WellFormed(t) && Valid(s, x) && cap + Captures(t) <= s.captureCount
    ensures DisjunctionWellFormed([Alternative([t])]) && DisjunctionCaptures([Alternative([t])]) == Captures(t)
    ensures StandardDisjunction(s, [Alternative([t])], false, cap, x) == StandardMatch(s, t, false, cap, x)
  {
    hide StandardMatch;
    SingleFacts(t);
    var ts, d := [t], [Alternative([t])];
    assert ts[..0] == [] && d[..0] == [];
    assert StandardSequence(s, ts, false, cap, x) == StandardAll(s, t, false, cap, x, [x]);
  }

  /** The atom matches the character at either position, and sets its group at position 0 only. */
  lemma AtomMatches(x: MatchState)
    requires Valid(Ab(), x)
    ensures WellFormed(Atom()) && Captures(Atom()) == 1
    ensures Match(Ab(), Atom(), false, 1, x)
            == if x.pos == 0 then [MatchState(1, x.captures[2 := 0][3 := 1])] else if x.pos == 1 then [x.(pos := 2)]
              else []
  {
    hide Match, MatchDisjunction, MatchSequence, WellFormed, Captures, DisjunctionCaptures, DisjunctionWellFormed;
    PatternFacts();
    AltsFacts();
    CaptureMatches(x);
    BMatches(x);
    SingleMatches(Ab(), Capture([Alternative([Char(0x61)])]), 1, x);
    SingleMatches(Ab(), Char(0x62), 2, x);
    TwoAlternatives(Ab(), Atom().alts, 1, x);
  }

  /** There is no quantifier in the atom. */
  lemma AtomStandard(x: MatchState)
    requires Valid(Ab(), x) && x.captures[2] == UNSET && x.captures[3] == UNSET
    ensures WellFormed(Atom()) && Captures(Atom()) == 1
    ensures StandardMatch(Ab(), Atom(), false, 1, x) == Match(Ab(), Atom(), false, 1, x)
  {
    hide Match, StandardMatch;
    PatternFacts();
    AtomClean();
    CleanTogether(Atom(), false, 1);
    Agree(Ab(), Atom(), false, 1, {}, x);
  }

  lemma AtomClean()
    ensures Clean(Atom(), 1)
  {
    SingleClean(Char(0x61), 2);
    SingleClean(Capture([Alternative([Char(0x61)])]), 1);
    var d := Atom().alts;
    SingleClean(Char(0x62), 2);
    AltsFacts();
  }

  lemma SingleClean(t: Term, cap: int)
    ensures DisjunctionClean([Alternative([t])], cap) == Clean(t, cap) == SequenceClean([t], cap)
  {
    var ts, d := [t], [Alternative([t])];
    assert ts[..0] == [] && d[..0] == [];
    assert SequenceClean(ts[..0], cap) && SequenceCaptures(ts[..0]) == 0 && DisjunctionCaptures(d[..0]) == 0;
    assert SequenceClean(ts, cap) == Clean(t, cap);
  }

  lemma TwoAlternatives(s: Subject, d: Disjunction, cap: nat, x: MatchState)
    requires |d| == 2 && DisjunctionWellFormed(d) && Valid(s, x) && cap + DisjunctionCaptures(d) <= s.captureCount
    ensures WellFormed(Group(d)) && Captures(Group(d)) == DisjunctionCaptures(d)
    ensures DisjunctionWellFormed(d[..1]) && SequenceWellFormed(d[1].terms)
    ensures DisjunctionCaptures(d) == DisjunctionCaptures(d[..1]) + SequenceCaptures(d[1].terms)
    ensures Match(s, Group(d), false, cap, x)
            == MatchDisjunction(s, d[..1], false, cap, x)
               + MatchSequence(s, d[1].terms, false, cap + DisjunctionCaptures(d[..1]), x)
  {
    hide MatchSequence;
  }

  lemma BMatches(x: MatchState)
    requires Valid(Ab(), x)
    ensures WellFormed(Char(0x62)) && Captures(Char(0x62)) == 0
    ensures Match(Ab(), Char(0x62), false, 2, x) == if x.pos == 1 then [x.(pos := 2)] else []
  {
  }

  lemma CaptureMatches(x: MatchState)
    requires Valid(Ab(), x)
    ensures var t := Capture([Alternative([Char(0x61)])]);
            && WellFormed(t) && Captures(t) == 1
            && Match(Ab(), t, false, 1, x) == if x.pos == 0 then [MatchState(1, x.captures[2 := 0][3 := 1])] else []
  {
    var s := Ab();
    var x1 := SetCapture(x, 2, x.pos);
    assert Valid(s, x1);
    SingleFacts(Char(0x61));
    SingleMatches(s, Char(0x61), 2, x1);
    CharMatches(x1);
  }

  lemma CharMatches(x: MatchState)
    requires Valid(Ab(), x)
    ensures Match(Ab(), Char(0x61), false, 2, x) == if x.pos == 0 then [x.(pos := 1)] else []
  {
  }

  lemma EngineMatches()
    requires WellFormed(Star()) && Captures(Star()) == 1
    ensures var r := Match(Ab(), Star(), false, 1, Reached(0, UNSET, UNSET)); |r| > 0 && r[0] == Reached(2, 0, 1)
  {
    hide Match, WellFormed, Captures, MatchUpTo;
    var s, a := Ab(), Atom();
    var x0, x1, x2 := Reached(0, UNSET, UNSET), Reached(1, 0, 1), Reached(2, 0, 1);
    AtomMatches(x0);
    AtomMatches(x1);
    AtomMatches(x2);
    assert x0.captures[2 := 0][3 := 1] == x1.captures;
    assert Match(s, a, false, 1, x0) == [x1];
    EngineTurn(s, a, 1, x2);
    EngineTurn(s, a, 1, x1);
    EngineTurn(s, a, 1, x0);
    StarMeans(x0);
  }

  /** Entering the loop with the group unset. */
  lemma StarMeans(x: MatchState)
    requires Valid(Ab(), x) && x.captures[2] == UNSET && x.captures[3] == UNSET
    ensures WellFormed(Atom()) && Captures(Atom()) == 1 && WellFormed(Star()) && Captures(Star()) == 1
    ensures Match(Ab(), Star(), false, 1, x) == MatchUpTo(Ab(), Atom(), false, 1, INFINITE, true, x)
    ensures StandardMatch(Ab(), Star(), false, 1, x) == StandardUpTo(Ab(), Atom(), false, 1, INFINITE, true, x)
  {
    hide MatchUpTo, StandardUpTo, Match, StandardMatch;
    PatternFacts();
    var s, a := Ab(), Atom();
    assert Cleared(a, 1, x).captures == x.captures;
    QuantifiedMeans(s, a, 0, INFINITE, true, false, 1, x, x);
    ExactlyNone(s, a, false, 1, x, x);
    assert [x][1..] == [];
    assert MatchUpToAll(s, a, false, 1, INFINITE, true, x, []) == [];
    assert StandardUpToAll(s, a, false, 1, INFINITE, true, x, []) == [];
  }

  /** One turn of a greedy loop whose atom matches in at most one way. */
  lemma EngineTurn(s: Subject, a: Term, cap: nat, x: MatchState)
    requires WellFormed(a) && Valid(s, x) && cap + Captures(a) <= s.captureCount
    requires var ys := Match(s, a, false, cap, x); |ys| == 0 || (|ys| == 1 && ys[0].pos != x.pos)
    ensures var ys := Match(s, a, false, cap, x);
            MatchUpTo(s, a, false, cap, INFINITE, true, x)
            == (if |ys| == 0 then [] else MatchUpTo(s, a, false, cap, INFINITE, true, ys[0])) + [x]
  {
    hide Match, WellFormed, Captures;
    var ys := Match(s, a, false, cap, x);
    var more := MatchMoved(s, a, false, cap, INFINITE, true, x, ys);
    if |ys| == 1 { assert MatchMoved(s, a, false, cap, INFINITE, true, x, ys[1..]) == []; }
    assert MatchUpTo(s, a, false, cap, INFINITE, true, x) == more + [x];
  }

  lemma StandardTurn(s: Subject, a: Term, cap: nat, x: MatchState)
    requires WellFormed(a) && Valid(s, x) && cap + Captures(a) <= s.captureCount
    requires var ys := StandardMatch(s, a, false, cap, Cleared(a, cap, x));
             |ys| == 0 || (|ys| == 1 && ys[0].pos != x.pos)
    ensures var ys := StandardMatch(s, a, false, cap, Cleared(a, cap, x));
            StandardUpTo(s, a, false, cap, INFINITE, true, x)
            == (if |ys| == 0 then [] else StandardUpTo(s, a, false, cap, INFINITE, true, ys[0])) + [x]
  {
    hide StandardMatch, WellFormed, Captures;
    var ys := StandardMatch(s, a, false, cap, Cleared(a, cap, x));
    var more := StandardMoved(s, a, false, cap, INFINITE, true, x, ys);
    if |ys| == 1 { assert StandardMoved(s, a, false, cap, INFINITE, true, x, ys[1..]) == []; }
    assert StandardUpTo(s, a, false, cap, INFINITE, true, x) == more + [x];
  }

  lemma StandardMatches()
    requires WellFormed(Star()) && Captures(Star()) == 1
    ensures var r := StandardMatch(Ab(), Star(), false, 1, Reached(0, UNSET, UNSET));
            |r| > 0 && r[0] == Reached(2, UNSET, UNSET)
  {
    hide Match, StandardMatch, WellFormed, Captures, StandardUpTo;
    var s, a := Ab(), Atom();
    var x0, x1, x2 := Reached(0, UNSET, UNSET), Reached(1, 0, 1), Reached(2, UNSET, UNSET);
    var c1 := Reached(1, UNSET, UNSET);
    PatternFacts();
    assert Cleared(a, 1, x0) == x0 && Cleared(a, 1, x1) == c1 && Cleared(a, 1, x2) == x2;
    AtomMatches(x0);
    AtomMatches(c1);
    AtomMatches(x2);
    AtomStandard(x0);
    AtomStandard(c1);
    AtomStandard(x2);
    assert x0.captures[2 := 0][3 := 1] == x1.captures;
    assert StandardMatch(s, a, false, 1, x0) == [x1] && StandardMatch(s, a, false, 1, c1) == [x2];
    StandardTurn(s, a, 1, x2);
    StandardTurn(s, a, 1, x1);
    StandardTurn(s, a, 1, x0);
    StarMeans(x0);
  }
}
