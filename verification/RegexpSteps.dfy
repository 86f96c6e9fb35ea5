/** One step of the machine at each instruction, as the correctness proof uses it. */
module RegexpSteps {
  import opened Bytes
  import opened RegexpOpcodes
  import opened RegexpCode
  import opened RegexpSemantics
  import opened RegexpMachine

  /** The machine outside of calls, at p in match state x, with operand stack `stack` and saved states k. */
  function Go(p: int, x: MatchState, stack: seq<int>, k: seq<State>): Config {
    Run(Thread(p, x.pos, stack, x.captures, k, []))
  }

  function Choice(kind: Kind, p: int, x: MatchState, stack: seq<int>): State {
    State(kind, p, x.pos, x.captures, stack, 0)
  }

  function Int32(v: int): bool { -TWO31 <= v < TWO31 }

  lemma JumpAt(m: Machine, p: int, op: byte, off: int)
    requires At(m.code, p, [op] + PutU32(off)) && Int32(off)
    ensures p + 5 <= |m.code| && m.code[p] == op && Target(m, p) == p + 5 + off
  {
    AtSplit(m.code, p, [op], PutU32(off));
    AtByte(m.code, p, op);
    U32RoundTrip(m.code, p + 1, off);
  }

  lemma GotoStep(m: Machine, p: int, off: int, x: MatchState, s: seq<int>, k: seq<State>)
    requires At(m.code, p, [GOTO] + PutU32(off)) && Int32(off) && Valid(m.subject, x)
    ensures Step(m, Go(p, x, s, k)) == Go(p + 5 + off, x, s, k)
  {
    JumpAt(m, p, GOTO, off);
  }

  lemma SplitStep(m: Machine, p: int, nextFirst: bool, off: int, x: MatchState, s: seq<int>, k: seq<State>)
    requires At(m.code, p, [SplitOp(nextFirst)] + PutU32(off)) && Int32(off) && Valid(m.subject, x)
    ensures Step(m, Go(p, x, s, k)) ==
            if nextFirst then Go(p + 5, x, s, Push(k, Choice(SplitState, p + 5 + off, x, s)))
            else Go(p + 5 + off, x, s, Push(k, Choice(SplitState, p + 5, x, s)))
  {
    JumpAt(m, p, SplitOp(nextFirst), off);
  }

  lemma LookStep(m: Machine, p: int, negated: bool, off: int, x: MatchState, s: seq<int>, k: seq<State>)
    requires At(m.code, p, [LookOp(negated)] + PutU32(off)) && Int32(off) && Valid(m.subject, x)
    ensures Step(m, Go(p, x, s, k)) ==
            Go(p + 5, x, s, Push(k, Choice(if negated then NegativeLookaheadState
                                           else LookaheadState, p + 5 + off, x, s)))
  {
    JumpAt(m, p, LookOp(negated), off);
  }

  lemma UnwindStep(m: Machine, kind: Kind, p: int, x: MatchState, s: seq<int>, k: seq<State>)
    requires kind != GreedyState
    ensures Step(m, Unwind(Push(k, Choice(kind, p, x, s)))) == if kind == LookaheadState then Unwind(k)
            else Go(p, x, s, k)
  {
    assert Pop(Push(k, Choice(kind, p, x, s))) == k;
  }

  lemma MatchStep(m: Machine, p: int, x: MatchState, s: seq<int>, k: seq<State>)
    requires At(m.code, p, [MATCH]) && Valid(m.subject, x)
    ensures Step(m, Go(p, x, s, k)) == Succeed(x.captures, k)
  {
    AtByte(m.code, p, MATCH);
  }

  lemma PushStep(m: Machine, p: int, v: int, x: MatchState, s: seq<int>, k: seq<State>)
    requires At(m.code, p, [PUSH_I32] + PutU32(v)) && 0 <= v < TWO32 && Valid(m.subject, x) && |s| < m.stackMax
    ensures Step(m, Go(p, x, s, k)) == Go(p + 5, x, s + [v], k)
  {
    AtSplit(m.code, p, [PUSH_I32], PutU32(v));
    AtByte(m.code, p, PUSH_I32);
    U32RoundTrip(m.code, p + 1, v);
    Wrap32(v);
  }

  lemma DropStep(m: Machine, p: int, v: int, x: MatchState, s: seq<int>, k: seq<State>)
    requires At(m.code, p, [DROP]) && Valid(m.subject, x)
    ensures Step(m, Go(p, x, s + [v], k)) == Go(p + 1, x, s, k)
  {
    AtByte(m.code, p, DROP);
    assert (s + [v])[..|s|] == s;
  }

  lemma LoopStep(m: Machine, p: int, off: int, n: int, x: MatchState, s: seq<int>, k: seq<State>)
    requires At(m.code, p, [LOOP] + PutU32(off)) && Int32(off) && Valid(m.subject, x) && n >= 1
    ensures Step(m, Go(p, x, s + [n], k)) == Go(if n == 1 then p + 5 else p + 5 + off, x, s + [n - 1], k)
  {
    JumpAt(m, p, LOOP, off);
    assert (s + [n])[..|s|] == s;
  }

  lemma PushPosStep(m: Machine, p: int, x: MatchState, s: seq<int>, k: seq<State>)
    requires At(m.code, p, [PUSH_CHAR_POS]) && Valid(m.subject, x) && |s| < m.stackMax
    ensures Step(m, Go(p, x, s, k)) == Go(p + 1, x, s + [x.pos], k)
  {
    AtByte(m.code, p, PUSH_CHAR_POS);
  }

  lemma CheckStep(m: Machine, p: int, pos: int, x: MatchState, s: seq<int>, k: seq<State>)
    requires At(m.code, p, [CHECK_ADVANCE]) && Valid(m.subject, x)
    ensures Step(m, Go(p, x, s + [pos], k)) == if pos == x.pos then Unwind(k) else Go(p + 1, x, s, k)
  {
    AtByte(m.code, p, CHECK_ADVANCE);
    assert (s + [pos])[..|s|] == s;
  }

  lemma SaveStep(m: Machine, p: int, end: bool, cap: int, x: MatchState, s: seq<int>, k: seq<State>)
    requires At(m.code, p, [SaveOp(end), cap % 256]) && 0 <= cap < 256 && cap < m.subject.captureCount
             && Valid(m.subject, x)
    ensures Step(m, Go(p, x, s, k)) == Go(p + 2, SetCapture(x, if end then 2 * cap + 1 else 2 * cap, x.pos), s, k)
  {
    var part := [SaveOp(end), cap % 256];
    assert part[0] == SaveOp(end) && part[1] == cap;
  }

  lemma ResetStep(m: Machine, p: int, first: int, end: int, x: MatchState, s: seq<int>, k: seq<State>)
    requires At(m.code, p, [SAVE_RESET, first % 256, (end - 1) % 256]) && 0 <= first < end <= 256
    requires end <= m.subject.captureCount && Valid(m.subject, x)
    ensures Step(m, Go(p, x, s, k)) == Go(p + 3, x.(captures := ResetCaptures(x.captures, first, end)), s, k)
  {
    var part := [SAVE_RESET, first % 256, (end - 1) % 256];
    assert part[0] == SAVE_RESET && part[1] == first && part[2] == end - 1;
  }
}
