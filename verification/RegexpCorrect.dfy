/** Compiler correctness: running the code of a term produces the states that the term matches, in order. */
module RegexpCorrect {
  import opened Bytes
  import opened RegexpOpcodes
  import opened RegexpSyntax
  import opened RegexpCode
  import opened RegexpSemantics
  import opened RegexpMachine
  import opened RegexpSteps
  import opened RegexpCharSteps
  import opened RegexpYields
  import opened RegexpLayout
  import opened RegexpShape
  import opened RegexpLoops

  /** Jumps of the code fit 32 bits and capture numbers fit a byte. */
  ghost predicate MachineOk(m: Machine) {
    SubjectOk(m.subject) && |m.code| < TWO31 && m.subject.captureCount <= CAPTURE_COUNT_MAX
  }

  /** The piece of code is at p and its operand stack needs are met on top of the stack s. */
  ghost predicate Loaded(m: Machine, p: int, code: seq<byte>, s: seq<int>) {
    At(m.code, p, code) && |s| + Need(code) <= m.stackMax
  }

  ghost predicate TermOk(m: Machine, t: Term, cap: nat) {
    WellFormed(t) && cap + Captures(t) <= m.subject.captureCount
  }

  ghost function TCode(m: Machine, t: Term, back: bool, cap: int): seq<byte> {
    TermCode(m.subject.opts, t, back, cap)
  }

  // ----- one-character terms, assertions and back references -----

  /** One step that either fails or moves to the only result. */
  lemma StepYields(m: Machine, c: Config, q: int, x: MatchState, s: seq<int>, k: seq<State>, ys: seq<MatchState>)
    requires |ys| <= 1 && Step(m, c) == if |ys| == 0 then Unwind(k) else Go(q, ys[0], s, k)
    ensures Yields(m, c, q, s, k, ys)
  {
    hide Yields, Reaches, Step;
    if |ys| == 0 {
      UnwindYieldsNone(m, q, s, k);
    } else {
      YieldsOne(m, q, ys[0], s, k);
      assert ys == [ys[0]];
    }
    YieldsStep(m, c, q, s, k, ys);
  }

  lemma ForwardChar(m: Machine, p: int, t: Term, x: MatchState, s: seq<int>, k: seq<State>)
    requires MachineOk(m) && IsOneChar(t) && WellFormed(t) && Valid(m.subject, x)
             && At(m.code, p, OneCharCode(m.subject.opts, t))
    ensures Yields(m, Go(p, x, s, k), p + |OneCharCode(m.subject.opts, t)|, s, k, MatchOneChar(m.subject, t, false, x))
  {
    hide Yields, Reaches, Step, MatchesChar, OneCharCode;
    CharStep(m, p, t, x, s, k, []);
    StepYields(m, Go(p, x, s, k), p + |OneCharCode(m.subject.opts, t)|, x, s, k, MatchOneChar(m.subject, t, false, x));
  }

  /** Backward, a character is read by stepping back, reading it forward and stepping back again. */
  lemma BackwardChar(m: Machine, p: int, t: Term, x: MatchState, s: seq<int>, k: seq<State>)
    requires MachineOk(m) && IsOneChar(t) && WellFormed(t) && Valid(m.subject, x)
    requires At(m.code, p, Stepping(true, OneCharCode(m.subject.opts, t)))
    ensures Yields(m, Go(p, x, s, k), p + |OneCharCode(m.subject.opts, t)| + 2, s, k,
                   MatchOneChar(m.subject, t, true, x))
  {
    hide Yields, Reaches, Step, MatchesChar, OneCharCode, TestChar;
    var one := OneCharCode(m.subject.opts, t);
    var q := p + |one| + 2;
    var ys := MatchOneChar(m.subject, t, true, x);
    AtSplit3(m.code, p, [PREV], one, [PREV]);
    PrevStep(m, p, x, s, k, []);
    if x.pos == 0 {
      StepYields(m, Go(p, x, s, k), q, x, s, k, []);
    } else {
      var y := x.(pos := x.pos - 1);
      CharStep(m, p + 1, t, y, s, k, []);
      PrevStep(m, p + 1 + |one|, x, s, k, []);
      assert y.(pos := y.pos + 1) == x;
      if |ys| == 0 {
        StepYields(m, Go(p + 1, y, s, k), q, y, s, k, ys);
      } else {
        StepYields(m, Go(p + 1 + |one|, x, s, k), q, x, s, k, ys);
        YieldsStep(m, Go(p + 1, y, s, k), q, s, k, ys);
      }
      YieldsStep(m, Go(p, x, s, k), q, s, k, ys);
    }
  }

  lemma OneCharRuns(m: Machine, p: int, t: Term, back: bool, cap: nat, x: MatchState, s: seq<int>, k: seq<State>)
    requires MachineOk(m) && IsOneChar(t) && TermOk(m, t, cap) && Valid(m.subject, x)
             && At(m.code, p, TCode(m, t, back, cap))
    ensures Yields(m, Go(p, x, s, k), p + |TCode(m, t, back, cap)|, s, k, Match(m.subject, t, back, cap, x))
  {
    hide Yields, At, TermCode, OneCharCode, Stepping, Match, MatchOneChar;
    OneCharMeans(m.subject, t, back, cap, x);
    if back {
      BackwardChar(m, p, t, x, s, k);
    } else {
      ForwardChar(m, p, t, x, s, k);
    }
  }

  lemma OneCharMeans(s: Subject, t: Term, back: bool, cap: nat, x: MatchState)
    requires IsOneChar(t) && WellFormed(t) && Valid(s, x) && cap + Captures(t) <= s.captureCount
    ensures TermCode(s.opts, t, back, cap) == Stepping(back, OneCharCode(s.opts, t))
    ensures |Stepping(back, OneCharCode(s.opts, t))| == |OneCharCode(s.opts, t)| + if back then 2 else 0
    ensures !back ==> Stepping(back, OneCharCode(s.opts, t)) == OneCharCode(s.opts, t)
    ensures Match(s, t, back, cap, x) == MatchOneChar(s, t, back, x)
  {
    hide MatchOneChar, CharCode, RegexpClass.RangeCode;
  }

  lemma AssertionRuns(m: Machine, p: int, t: Term, back: bool, cap: nat, x: MatchState, s: seq<int>, k: seq<State>)
    requires t.LineStart? || t.LineEnd? || t.WordBoundary?
    requires MachineOk(m) && TermOk(m, t, cap) && Valid(m.subject, x) && At(m.code, p, TCode(m, t, back, cap))
    ensures Yields(m, Go(p, x, s, k), p + |TCode(m, t, back, cap)|, s, k, Match(m.subject, t, back, cap, x))
  {
    hide Yields, Step, AssertionHolds;
    AssertionStep(m, p, t, x, s, k, []);
    StepYields(m, Go(p, x, s, k), p + 1, x, s, k, Match(m.subject, t, back, cap, x));
  }

  lemma BackReferenceRuns(m: Machine, p: int, i: int, back: bool, cap: nat, x: MatchState, s: seq<int>, k: seq<State>)
    requires MachineOk(m) && TermOk(m, BackReference(i), cap) && Valid(m.subject, x)
    requires At(m.code, p, TCode(m, BackReference(i), back, cap))
    ensures Yields(m, Go(p, x, s, k), p + |TCode(m, BackReference(i), back, cap)|, s, k,
                   Match(m.subject, BackReference(i), back, cap, x))
  {
    hide Yields, Step, MatchBackReference;
    BackReferenceStep(m, p, i, back, x, s, k, []);
    StepYields(m, Go(p, x, s, k), p + 2, x, s, k, MatchBackReference(m.subject, i, back, x));
  }

  // ----- lookaround and captures, around a body that is known to run correctly -----

  /** After the body of a lookaround has matched, its choices are discarded. */
  lemma LookSucceeds(m: Machine, p: int, y: MatchState, s: seq<int>, k: seq<State>, more: seq<State>, choice: State)
    requires At(m.code, p, [MATCH]) && Valid(m.subject, y) && NoLook(more)
    ensures Reaches(m, Go(p, y, s, Push(k, choice) + more), Succeed(y.captures, Push(k, choice)))
  {
    hide Reaches, Step;
    MatchStep(m, p, y, s, Push(k, choice) + more);
    SucceedDiscards(m, y.captures, Push(k, choice), more);
    ReachStep(m, Go(p, y, s, Push(k, choice) + more), Succeed(y.captures, Push(k, choice)));
  }

  lemma SucceedStep(m: Machine, captures: seq<int>, negated: bool, q: int, x: MatchState, s: seq<int>, k: seq<State>)
    ensures Step(m, Succeed(captures, Push(k, Choice(if negated then NegativeLookaheadState
                                                     else LookaheadState, q, x, s)))) ==
            if negated then Unwind(k) else Go(q, x.(captures := captures), s, k)
  {
    assert Pop(Push(k, Choice(if negated then NegativeLookaheadState else LookaheadState, q, x, s))) == k;
  }

  ghost function LookResult(negated: bool, x: MatchState, ys: seq<MatchState>): seq<MatchState> {
    if negated then if |ys| == 0 then [x] else []
    else if |ys| == 0 then [] else [x.(captures := ys[0].captures)]
  }

  lemma LookRuns(m: Machine, p: int, negated: bool, body: seq<byte>, x: MatchState, s: seq<int>, k: seq<State>,
                 ys: seq<MatchState>)
    requires MachineOk(m) && Valid(m.subject, x) && At(m.code, p, LookCode(negated, body)) && AllValid(m.subject, ys)
    requires var kind := if negated then NegativeLookaheadState else LookaheadState;
             var k1 := Push(k, Choice(kind, p + 6 + |body|, x, s));
             Yields(m, Go(p + 5, x, s, k1), p + 5 + |body|, s, k1, ys)
    ensures Yields(m, Go(p, x, s, k), p + |LookCode(negated, body)|, s, k, LookResult(negated, x, ys))
  {
    LookLayout(m.code, p, negated, body);
    LookRuns'(m, p, negated, body, x, s, k, ys);
  }

  lemma LookRuns'(m: Machine, p: int, negated: bool, body: seq<byte>, x: MatchState, s: seq<int>, k: seq<State>,
                  ys: seq<MatchState>)
    requires MachineOk(m) && Valid(m.subject, x) && AllValid(m.subject, ys)
    requires At(m.code, p, [LookOp(negated)] + PutU32(|body| + 1)) && Int32(|body| + 1)
             && At(m.code, p + 5 + |body|, [MATCH])
    requires var kind := if negated then NegativeLookaheadState else LookaheadState;
             var k1 := Push(k, Choice(kind, p + 6 + |body|, x, s));
             Yields(m, Go(p + 5, x, s, k1), p + 5 + |body|, s, k1, ys)
    ensures Yields(m, Go(p, x, s, k), p + 6 + |body|, s, k, LookResult(negated, x, ys))
  {
    hide Yields, Reaches, Step, NoLook, At;
    var kind := if negated then NegativeLookaheadState else LookaheadState;
    var q := p + 6 + |body|;
    var choice := Choice(kind, q, x, s);
    var k1 := Push(k, choice);
    var c := Go(p + 5, x, s, k1);
    LookStep(m, p, negated, |body| + 1, x, s, k);
    if |ys| == 0 {
      YieldsNoneReach(m, c, p + 5 + |body|, s, k1, ys);
      UnwindStep(m, kind, q, x, s, k);
      StepYields(m, Unwind(k1), q, x, s, k, LookResult(negated, x, ys));
      YieldsReach(m, c, Unwind(k1), q, s, k, LookResult(negated, x, ys));
    } else {
      var more := YieldsHead(m, c, p + 5 + |body|, s, k1, ys);
      LookSucceeds(m, p + 5 + |body|, ys[0], s, k, more, choice);
      ReachTrans(m, c, Go(p + 5 + |body|, ys[0], s, k1 + more), Succeed(ys[0].captures, k1));
      SucceedStep(m, ys[0].captures, negated, q, x, s, k);
      StepYields(m, Succeed(ys[0].captures, k1), q, x, s, k, LookResult(negated, x, ys));
      YieldsReach(m, c, Succeed(ys[0].captures, k1), q, s, k, LookResult(negated, x, ys));
    }
    YieldsStep(m, Go(p, x, s, k), q, s, k, LookResult(negated, x, ys));
  }

  lemma YieldsNoneReach(m: Machine, c: Config, q: int, s: seq<int>, k: seq<State>, ys: seq<MatchState>)
    requires |ys| == 0 && Yields(m, c, q, s, k, ys)
    ensures Reaches(m, c, Unwind(k))
  {
  }

  /** The instruction that closes a group records the position in every state. */
  lemma {:induction false} CloseRuns(m: Machine, c: Config, p: int, end: bool, cap: int, s: seq<int>, k: seq<State>,
                                     ys: seq<MatchState>)
    requires At(m.code, p, [SaveOp(end), cap % 256]) && 0 <= cap < m.subject.captureCount <= CAPTURE_COUNT_MAX
             && AllValid(m.subject, ys)
    requires Yields(m, c, p, s, k, ys)
    ensures Yields(m, c, p + 2, s, k, CloseCapture(m.subject, if end then 2 * cap + 1 else 2 * cap, ys))
    decreases |ys|
  {
    hide Yields, Reaches, Step, NoLook, At;
    var i := if end then 2 * cap + 1 else 2 * cap;
    if |ys| == 0 {
      YieldsEmpty(m, c, p, s, p + 2, s, k, ys);
    } else {
      var more := YieldsHead(m, c, p, s, k, ys);
      CloseRuns(m, Unwind(k + more), p, end, cap, s, k, ys[1..]);
      var y := SetCapture(ys[0], i, ys[0].pos);
      SaveStep(m, p, end, cap, ys[0], s, k + more);
      StepYields(m, Go(p, ys[0], s, k + more), p + 2, ys[0], s, k + more, [y]);
      YieldsThen(m, c, p, ys[0], s, more, p + 2, s, k, [y], CloseCapture(m.subject, i, ys[1..]));
      assert [y] + CloseCapture(m.subject, i, ys[1..]) == CloseCapture(m.subject, i, ys);
    }
  }
}
