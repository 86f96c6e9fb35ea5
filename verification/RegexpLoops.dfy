/** Facts about quantifiers that do not depend on how the atom is matched. */
module RegexpLoops {
  import opened Bytes
  import opened RegexpOpcodes
  import opened RegexpSyntax
  import opened RegexpSemantics
  import opened RegexpMachine
  import opened RegexpSteps
  import opened RegexpYields
  import opened RegexpPrediction

  /** The states of ys that moved away from x. */
  ghost function Moved(x: MatchState, ys: seq<MatchState>): (r: seq<MatchState>)
    ensures AllMoved(x, r)
  {
    if |ys| == 0 then [] else (if ys[0].pos == x.pos then [] else [ys[0]]) + Moved(x, ys[1..])
  }

  lemma {:induction false} MovedFrom(s: Subject, back: bool, x: MatchState, ys: seq<MatchState>)
    requires AllFrom(s, back, x, ys)
    ensures AllFrom(s, back, x, Moved(x, ys))
    decreases |ys|
  {
    if |ys| > 0 { MovedFrom(s, back, x, ys[1..]); }
  }

  lemma {:induction false} MovedIsAll(x: MatchState, ys: seq<MatchState>)
    requires AllMoved(x, ys)
    ensures Moved(x, ys) == ys
    decreases |ys|
  {
    if |ys| > 0 {
      assert AllMoved(x, ys[1..]);
      MovedIsAll(x, ys[1..]);
      assert [ys[0]] + ys[1..] == ys;
    }
  }

  /** Continuing from the states that moved is continuing from all states and failing those that did not move. */
  lemma {:induction false} MatchMovedIsAll(s: Subject, a: Term, back: bool, cap: nat, n: int, greedy: bool,
                                           x: MatchState, ys: seq<MatchState>)
    requires WellFormed(a) && Valid(s, x) && AllFrom(s, back, x, ys) && cap + Captures(a) <= s.captureCount && 0 <= n
    ensures AllFrom(s, back, x, Moved(x, ys))
    ensures MatchMoved(s, a, back, cap, n, greedy, x, ys) == MatchUpToAll(s, a, back, cap, n, greedy, x, Moved(x, ys))
    decreases |ys|
  {
    hide MatchUpTo;
    MovedFrom(s, back, x, ys);
    if |ys| > 0 {
      MatchMovedIsAll(s, a, back, cap, n, greedy, x, ys[1..]);
      if ys[0].pos == x.pos {
        assert Moved(x, ys) == Moved(x, ys[1..]);
      } else {
        assert Moved(x, ys)[1..] == Moved(x, ys[1..]);
      }
    }
  }

  /** One unfolding of the optional iterations. */
  lemma MatchUpToUnfold(s: Subject, a: Term, back: bool, cap: nat, n: int, greedy: bool, x: MatchState)
    returns (ys: seq<MatchState>)
    requires WellFormed(a) && Valid(s, x) && cap + Captures(a) <= s.captureCount && 0 < n
    ensures ys == Moved(x, Match(s, a, back, cap, x)) && AllFrom(s, back, x, ys) && AllMoved(x, ys)
    ensures var more := MatchUpToAll(s, a, back, cap, if n == INFINITE then n else n - 1, greedy, x, ys);
            MatchUpTo(s, a, back, cap, n, greedy, x) == if greedy then more + [x] else [x] + more
  {
    ys := Moved(x, Match(s, a, back, cap, x));
    MatchMovedIsAll(s, a, back, cap, if n == INFINITE then n else n - 1, greedy, x, Match(s, a, back, cap, x));
    hide Match, MatchMoved, MatchUpToAll;
  }

  /** The guard around an atom drops the states that did not move. */
  lemma {:induction false} GuardYields(m: Machine, c: Config, p: int, x: MatchState, s: seq<int>, k: seq<State>,
                                       ys: seq<MatchState>)
    requires At(m.code, p, [CHECK_ADVANCE]) && AllValid(m.subject, ys)
    requires Yields(m, c, p, s + [x.pos], k, ys)
    ensures Yields(m, c, p + 1, s, k, Moved(x, ys))
    decreases |ys|
  {
    hide Yields, Reaches, NoLook;
    if |ys| == 0 {
      YieldsEmpty(m, c, p, s + [x.pos], p + 1, s, k, ys);
    } else {
      var more := YieldsHead(m, c, p, s + [x.pos], k, ys);
      GuardYields(m, Unwind(k + more), p, x, s, k, ys[1..]);
      var head := if ys[0].pos == x.pos then [] else [ys[0]];
      GuardOne(m, p, x, ys[0], s, k + more);
      YieldsThen(m, c, p, ys[0], s + [x.pos], more, p + 1, s, k, head, Moved(x, ys[1..]));
    }
  }

  lemma GuardOne(m: Machine, p: int, x: MatchState, y: MatchState, s: seq<int>, k: seq<State>)
    requires At(m.code, p, [CHECK_ADVANCE]) && Valid(m.subject, y)
    ensures Yields(m, Go(p, y, s + [x.pos], k), p + 1, s, k, if y.pos == x.pos then [] else [y])
  {
    CheckStep(m, p, x.pos, y, s, k);
    hide Yields, Reaches, Step;
    UnwindYieldsNone(m, p + 1, s, k);
    YieldsOne(m, p + 1, y, s, k);
    YieldsStep(m, Go(p, y, s + [x.pos], k), p + 1, s, k, if y.pos == x.pos then [] else [y]);
  }

  lemma UnwindYieldsNone(m: Machine, q: int, s: seq<int>, k: seq<State>)
    ensures Yields(m, Unwind(k), q, s, k, [])
  {
    ReachSelf(m, Unwind(k));
  }
}
