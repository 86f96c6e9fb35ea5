/** Backtracking behaviour of a configuration, as the ordered list of match states it produces. */
module RegexpYields {
  import opened Bytes
  import opened RegexpCode
  import opened RegexpSemantics
  import opened RegexpMachine
  import opened RegexpSteps

  /** Choices that a success discards. */
  ghost predicate NoLook(k: seq<State>) {
    forall i :: 0 <= i < |k| ==> k[i].kind == SplitState || k[i].kind == GreedyState
  }

  /** From c the machine gets to q in state y with operand stack s, leaving the choices `more` above k. */
  ghost predicate Arrives(m: Machine, c: Config, q: int, y: MatchState, s: seq<int>, k: seq<State>, more: seq<State>) {
    NoLook(more) && Reaches(m, c, Go(q, y, s, k + more))
  }

  /**
   * c produces exactly the states ys at q, in this order: it first arrives in ys[0]; unwinding the choices it has left
   * produces ys[1..]; and when there is nothing (more) to produce, it unwinds to k.
   */
  ghost predicate Yields(m: Machine, c: Config, q: int, s: seq<int>, k: seq<State>, ys: seq<MatchState>)
    decreases |ys|
  {
    if |ys| == 0 then Reaches(m, c, Unwind(k))
    else exists more :: Arrives(m, c, q, ys[0], s, k, more) && Yields(m, Unwind(k + more), q, s, k, ys[1..])
  }

  lemma YieldsNone(m: Machine, c: Config, q: int, s: seq<int>, k: seq<State>)
    requires Reaches(m, c, Unwind(k))
    ensures Yields(m, c, q, s, k, [])
  {
  }

  /** When nothing is produced, the place where it would have been produced does not matter. */
  lemma YieldsEmpty(m: Machine, c: Config, q: int, s: seq<int>, q2: int, s2: seq<int>, k: seq<State>,
                    ys: seq<MatchState>)
    requires |ys| == 0 && Yields(m, c, q, s, k, ys)
    ensures Yields(m, c, q2, s2, k, [])
  {
  }

  lemma YieldsCons(m: Machine, c: Config, q: int, s: seq<int>, k: seq<State>, y: MatchState, more: seq<State>,
                   ys: seq<MatchState>)
    requires Arrives(m, c, q, y, s, k, more) && Yields(m, Unwind(k + more), q, s, k, ys)
    ensures Yields(m, c, q, s, k, [y] + ys)
  {
    assert ([y] + ys)[0] == y && ([y] + ys)[1..] == ys;
  }

  lemma YieldsOne(m: Machine, q: int, y: MatchState, s: seq<int>, k: seq<State>)
    ensures Yields(m, Go(q, y, s, k), q, s, k, [y])
  {
    assert k + [] == k;
    ReachSelf(m, Go(q, y, s, k));
    ReachSelf(m, Unwind(k));
    YieldsNone(m, Unwind(k), q, s, k);
    YieldsCons(m, Go(q, y, s, k), q, s, k, y, [], []);
    assert [y] + [] == [y];
  }

  lemma YieldsReach(m: Machine, c: Config, d: Config, q: int, s: seq<int>, k: seq<State>, ys: seq<MatchState>)
    requires Reaches(m, c, d) && Yields(m, d, q, s, k, ys)
    ensures Yields(m, c, q, s, k, ys)
  {
    if |ys| == 0 {
      ReachTrans(m, c, d, Unwind(k));
    } else {
      var more :| Arrives(m, d, q, ys[0], s, k, more) && Yields(m, Unwind(k + more), q, s, k, ys[1..]);
      ReachTrans(m, c, d, Go(q, ys[0], s, k + more));
      assert Arrives(m, c, q, ys[0], s, k, more);
    }
  }

  lemma YieldsStep(m: Machine, c: Config, q: int, s: seq<int>, k: seq<State>, ys: seq<MatchState>)
    requires Yields(m, Step(m, c), q, s, k, ys)
    ensures Yields(m, c, q, s, k, ys)
  {
    ReachSelf(m, Step(m, c));
    ReachStep(m, c, Step(m, c));
    YieldsReach(m, c, Step(m, c), q, s, k, ys);
  }

  /** The choices left after the first of a nonempty list of produced states. */
  lemma YieldsHead(m: Machine, c: Config, q: int, s: seq<int>, k: seq<State>, ys: seq<MatchState>)
    returns (more: seq<State>)
    requires |ys| > 0 && Yields(m, c, q, s, k, ys)
    ensures NoLook(more) && Reaches(m, c, Go(q, ys[0], s, k + more))
    ensures Yields(m, Unwind(k + more), q, s, k, ys[1..])
  {
    more :| Arrives(m, c, q, ys[0], s, k, more) && Yields(m, Unwind(k + more), q, s, k, ys[1..]);
  }

  /** What a configuration produces above the choices `more` comes before what those choices produce. */
  lemma {:induction false} YieldsAppend(m: Machine, c: Config, q: int, s: seq<int>, k: seq<State>, more: seq<State>,
                                        ys: seq<MatchState>, zs: seq<MatchState>)
    requires NoLook(more) && Yields(m, c, q, s, k + more, ys) && Yields(m, Unwind(k + more), q, s, k, zs)
    ensures Yields(m, c, q, s, k, ys + zs)
    decreases |ys|
  {
    if |ys| == 0 {
      YieldsReach(m, c, Unwind(k + more), q, s, k, zs);
      assert ys + zs == zs;
    } else {
      var above := YieldsHead(m, c, q, s, k + more, ys);
      YieldsAppend(m, Unwind((k + more) + above), q, s, k, more, ys[1..], zs);
      AppendHead(m, c, q, s, k, more, above, ys, zs);
    }
  }

  lemma AppendHead(m: Machine, c: Config, q: int, s: seq<int>, k: seq<State>, more: seq<State>, above: seq<State>,
                   ys: seq<MatchState>, zs: seq<MatchState>)
    requires |ys| > 0 && NoLook(more) && NoLook(above)
    requires Reaches(m, c, Go(q, ys[0], s, (k + more) + above))
    requires Yields(m, Unwind((k + more) + above), q, s, k, ys[1..] + zs)
    ensures Yields(m, c, q, s, k, ys + zs)
  {
    hide Yields, Reaches;
    assert (k + more) + above == k + (more + above);
    YieldsCons(m, c, q, s, k, ys[0], more + above, ys[1..] + zs);
    assert [ys[0]] + (ys[1..] + zs) == ys + zs;
  }

  /**
   * Sequencing: c produces ys at q; from the first of them the machine produces zs at q2; unwinding what c left
   * produces rest at q2. Then c produces zs followed by rest at q2.
   */
  lemma YieldsThen(m: Machine, c: Config, q: int, y: MatchState, s: seq<int>, more: seq<State>, q2: int, s2: seq<int>,
                   k: seq<State>, zs: seq<MatchState>, rest: seq<MatchState>)
    requires NoLook(more) && Reaches(m, c, Go(q, y, s, k + more))
    requires Yields(m, Go(q, y, s, k + more), q2, s2, k + more, zs)
    requires Yields(m, Unwind(k + more), q2, s2, k, rest)
    ensures Yields(m, c, q2, s2, k, zs + rest)
  {
    YieldsReach(m, c, Go(q, y, s, k + more), q2, s2, k + more, zs);
    YieldsAppend(m, c, q2, s2, k, more, zs, rest);
  }

  /** A success discards all choices above a lookahead. */
  lemma {:induction false} SucceedDiscards(m: Machine, captures: seq<int>, k: seq<State>, more: seq<State>)
    requires NoLook(more)
    ensures Reaches(m, Succeed(captures, k + more), Succeed(captures, k))
    decreases |more|
  {
    if |more| == 0 {
      assert k + more == k;
      ReachSelf(m, Succeed(captures, k));
    } else {
      assert Pop(k + more) == k + more[..|more| - 1];
      SucceedDiscards(m, captures, k, more[..|more| - 1]);
      ReachStep(m, Succeed(captures, k + more), Succeed(captures, k));
    }
  }

  /**
   * A split runs one branch and leaves the other as a choice: the states of the first come before those of the second.
   */
  lemma SplitYields(m: Machine, p: int, nextFirst: bool, off: int, x: MatchState, stack: seq<int>, k: seq<State>,
                    q: int, s: seq<int>, first: seq<MatchState>, second: seq<MatchState>)
    requires At(m.code, p, [SplitOp(nextFirst)] + PutU32(off)) && Int32(off) && Valid(m.subject, x)
    requires var p1, p2 := if nextFirst then p + 5 else p + 5 + off, if nextFirst then p + 5 + off else p + 5;
             var k1 := Push(k, Choice(SplitState, p2, x, stack));
             Yields(m, Go(p1, x, stack, k1), q, s, k1, first) && Yields(m, Go(p2, x, stack, k), q, s, k, second)
    ensures Yields(m, Go(p, x, stack, k), q, s, k, first + second)
  {
    var p1, p2 := if nextFirst then p + 5 else p + 5 + off, if nextFirst then p + 5 + off else p + 5;
    var choice := Choice(SplitState, p2, x, stack);
    SplitStep(m, p, nextFirst, off, x, stack, k);
    UnwindStep(m, SplitState, p2, x, stack, k);
    hide Yields, Reaches, Step;
    YieldsStep(m, Unwind(Push(k, choice)), q, s, k, second);
    YieldsAppend(m, Go(p1, x, stack, Push(k, choice)), q, s, k, [choice], first, second);
    YieldsStep(m, Go(p, x, stack, k), q, s, k, first + second);
  }
}
