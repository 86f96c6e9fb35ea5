/**
 * Stack discipline: in every reachable configuration the operand stack has the height that the linear scan gives its
 * place.
 */
module RegexpDiscipline {
  import opened Bytes
  import opened RegexpOpcodes
  import opened RegexpSyntax
  import opened RegexpAnalysis
  import opened RegexpCode
  import opened RegexpMachine
  import opened RegexpSteps
  import opened RegexpShape
  import opened RegexpStraight
  import opened RegexpPrediction
  import opened RegexpProgram
  import opened RegexpHeights

  /** All jumps of the code lead to places of their own height. */
  ghost predicate JumpsOk(m: Machine, base: nat) {
    Sound(m.code, base, base, |m.code|, base, |m.code|)
  }

  ghost predicate OnLevel(m: Machine, base: nat, pc: int, stack: seq<int>) {
    Level(m.code, base, pc, |stack|)
  }

  /** A saved state has the height of the place where it resumes. */
  ghost predicate StateOk(m: Machine, base: nat, s: State) {
    if s.kind == GreedyState then 0 <= s.pc && s.pc + 16 <= |m.code|
      && OnLevel(m, base, s.pc + 16 + GetI32(m.code, s.pc), s.stack)
    else OnLevel(m, base, s.pc, s.stack)
  }

  ghost predicate StatesOk(m: Machine, base: nat, states: seq<State>) {
    forall i :: 0 <= i < |states| ==> StateOk(m, base, states[i])
  }

  /** The atom and the end of a simple quantifier have the height that the call has recorded. */
  ghost predicate FrameOk(m: Machine, base: nat, f: Frame) {
    && Level(m.code, base, f.atom, f.height) && Level(m.code, base, f.next, f.height)
    && 16 <= f.atom <= |m.code| && f.next == f.atom + GetI32(m.code, f.atom - 16)
  }

  ghost predicate FramesOk(m: Machine, base: nat, frames: seq<Frame>) {
    forall i :: 0 <= i < |frames| ==> FrameOk(m, base, frames[i])
  }

  ghost predicate Disciplined(m: Machine, base: nat, c: Config) {
    match c
    case Run(t) => OnLevel(m, base, t.pc, t.stack) && StatesOk(m, base, t.states) && FramesOk(m, base, t.frames)
    case Return0(_, _, states, frames) => StatesOk(m, base, states) && FramesOk(m, base, frames)
    case Unwind(states) => StatesOk(m, base, states)
    case Succeed(_, states) => StatesOk(m, base, states)
    case _ => true
  }

  // ----- one step -----

  lemma FailKeeps(m: Machine, base: nat, t: Thread)
    requires StatesOk(m, base, t.states) && FramesOk(m, base, t.frames)
    ensures Disciplined(m, base, Fail(t))
  {
  }

  lemma PushKeeps(m: Machine, base: nat, states: seq<State>, s: State)
    requires StatesOk(m, base, states) && StateOk(m, base, s)
    ensures StatesOk(m, base, Push(states, s))
  {
  }

  lemma FinishKeeps(m: Machine, base: nat, f: Frame, stack: seq<int>, captures: seq<int>, states: seq<State>,
                    frames: seq<Frame>)
    requires FrameOk(m, base, f) && StatesOk(m, base, states) && FramesOk(m, base, frames)
    ensures Disciplined(m, base, FinishQuant(f, stack, captures, states, frames))
  {
    hide Level;
    if |stack| >= f.height {
      var kept := stack[..f.height];
      var s := State(GreedyState, f.atom - 16, f.cptr, captures, kept, f.q - f.min);
      PushKeeps(m, base, states, s);
    }
  }

  lemma IterateKeeps(m: Machine, base: nat, t: Thread)
    requires StatesOk(m, base, t.states) && FramesOk(m, base, t.frames) && |t.frames| > 0
    ensures Disciplined(m, base, Iterate(t, t.frames[|t.frames| - 1]))
  {
    hide Level;
    var f := t.frames[|t.frames| - 1];
    assert FrameOk(m, base, f);
    var g := f.(q := f.q + 1, cptr := t.cptr);
    var outer := t.frames[..|t.frames| - 1];
    assert FrameOk(m, base, g);
    assert FramesOk(m, base, outer);
    if g.q >= g.max && g.max != INFINITE { FinishKeeps(m, base, g, t.stack, t.captures, t.states, outer); }
  }

  /** Where the instruction at pc leads. */
  lemma Successors(m: Machine, base: nat, t: Thread)
    requires JumpsOk(m, base) && Ready(m, t) && OnLevel(m, base, t.pc, t.stack)
    ensures Level(m.code, base, t.pc + OpSize(m.code, t.pc), |t.stack| + Delta(m.code[t.pc]))
    ensures JumpOk(m.code, base, t.pc, |t.stack|, base, |m.code|)
  {
    PassesForward(m.code, base, 0, t.pc, |t.stack|);
    LevelNext(m.code, base, t.pc, |t.stack|);
  }

  lemma ControlKeeps(m: Machine, base: nat, t: Thread)
    requires JumpsOk(m, base) && Ready(m, t) && Disciplined(m, base, Run(t))
    ensures Disciplined(m, base, ExecControl(m, t))
  {
    hide Level, JumpsOk;
    Successors(m, base, t);
    var op := m.code[t.pc];
    if op == SPLIT_GOTO_FIRST {
      PushKeeps(m, base, t.states, State(SplitState, t.pc + 5, t.cptr, t.captures, t.stack, 0));
    } else if op == SPLIT_NEXT_FIRST {
      PushKeeps(m, base, t.states, State(SplitState, Target(m, t.pc), t.cptr, t.captures, t.stack, 0));
    } else if op == LOOKAHEAD {
      PushKeeps(m, base, t.states, State(LookaheadState, Target(m, t.pc), t.cptr, t.captures, t.stack, 0));
    } else if op == NEGATIVE_LOOKAHEAD {
      PushKeeps(m, base, t.states, State(NegativeLookaheadState, Target(m, t.pc), t.cptr, t.captures, t.stack, 0));
    } else if op == MATCH && |t.frames| > 0 {
      IterateKeeps(m, base, t);
    } else if op == SIMPLE_GREEDY_QUANT {
      CallKeeps(m, base, t);
    }
  }

  lemma CallKeeps(m: Machine, base: nat, t: Thread)
    requires Ready(m, t) && m.code[t.pc] == SIMPLE_GREEDY_QUANT && FramesOk(m, base, t.frames)
             && StatesOk(m, base, t.states)
    requires Level(m.code, base, t.pc + 17, |t.stack|) && JumpOk(m.code, base, t.pc, |t.stack|, base, |m.code|)
    ensures Disciplined(m, base, ExecControl(m, t))
  {
    hide Level;
    var f := Frame(t.pc + 17, t.pc + 17 + GetI32(m.code, t.pc + 1), GetU32(m.code, t.pc + 5), GetU32(m.code, t.pc + 9),
                   0, t.cptr,
                   |t.stack|);
    assert FrameOk(m, base, f);
  }

  lemma ExecuteKeeps(m: Machine, base: nat, t: Thread)
    requires JumpsOk(m, base) && Ready(m, t) && Disciplined(m, base, Run(t))
    ensures Disciplined(m, base, Execute(m, t))
  {
    hide Level, JumpsOk, ExecControl, TestChar, TestAssertion, EmptyRange, StatesOk, FramesOk, CompareForward,
      CompareBackward, GetI32, GetU32;
    Successors(m, base, t);
    ControlKeeps(m, base, t);
    FailKeeps(m, base, t);
    FailKeeps(m, base, t.(stack := t.stack[..if |t.stack| > 0 then |t.stack| - 1 else 0]));
  }

  lemma UnwindKeeps(m: Machine, base: nat, states: seq<State>, captures: seq<int>)
    requires StatesOk(m, base, states)
    ensures Disciplined(m, base, Step(m, Unwind(states))) && Disciplined(m, base, Step(m, Succeed(captures, states)))
  {
    hide Level, GetI32, GetU32;
    if |states| > 0 {
      var s, rest := states[|states| - 1], Pop(states);
      assert StateOk(m, base, s);
      assert StatesOk(m, base, rest);
      if s.kind == GreedyState && 0 <= s.pc && s.pc + 16 <= |m.code| {
        var cptr := s.cptr - GetU32(m.code, s.pc + 12);
        PushKeeps(m, base, rest, s.(cptr := cptr, count := s.count - 1));
      }
    }
  }

  lemma StepKeeps(m: Machine, base: nat, c: Config)
    requires JumpsOk(m, base) && Disciplined(m, base, c)
    ensures Disciplined(m, base, Step(m, c))
  {
    hide Level, JumpsOk, Execute, FinishQuant;
    match c {
      case Run(t) => if Ready(m, t) { ExecuteKeeps(m, base, t); }
      case Return0(stack, captures, states, frames) =>
        if |frames| > 0 {
          assert FramesOk(m, base, frames[..|frames| - 1]);
          FinishKeeps(m, base, frames[|frames| - 1], stack, captures, states, frames[..|frames| - 1]);
        }
      case Unwind(states) => UnwindKeeps(m, base, states, []);
      case Succeed(captures, states) => UnwindKeeps(m, base, states, captures);
      case _ =>
    }
  }

  // ----- every run -----

  lemma {:induction false} StepsKeep(m: Machine, base: nat, c: Config, n: nat)
    requires JumpsOk(m, base) && Disciplined(m, base, c)
    ensures Disciplined(m, base, Steps(m, c, n))
    decreases n
  {
    hide Step, Disciplined, JumpsOk;
    if n > 0 {
      StepKeeps(m, base, c);
      StepsKeep(m, base, Step(m, c), n - 1);
    }
  }

  lemma SoundPrefix(code: seq<byte>, base: nat, sticky: bool)
    ensures SoundPiece(code, base, SearchPrefix(sticky))
  {
    if sticky {
      SoundNothing(code, base);
    } else {
      var prefix := SearchPrefix(false);
      PrefixSize(false);
      SoundOp(code, base, ANY);
      hide Level, Bytes.At, Sound, SearchPrefix, PutU32;
      forall p: nat, h | Bytes.At(code, p, prefix) && Level(code, base, p, h)
        ensures Sound(code, base, p, p + |prefix|, p, p + |prefix|)
      {
        PrefixLayout(code, p);
        SoundSearch(code, base, p, h);
      }
    }
  }

  lemma SoundSearch(code: seq<byte>, base: nat, p: nat, h: int)
    requires SoundPiece(code, base, [ANY]) && Level(code, base, p, h)
    requires Bytes.At(code, p, [SPLIT_GOTO_FIRST] + PutU32(6)) && Bytes.At(code, p + 5, [ANY])
             && Bytes.At(code, p + 6, [GOTO] + PutU32(-11))
    ensures Sound(code, base, p, p + 11, p, p + 11)
  {
    hide Level, Bytes.At, Sound, SoundPiece, PutU32;
    LevelOp32(code, base, p, h, SPLIT_GOTO_FIRST, 6);
    LevelOp(code, base, p + 5, h, ANY);
    LevelOp32(code, base, p + 6, h, GOTO, -11);
    SoundJump(code, base, p, h, SPLIT_GOTO_FIRST, 6, p, p + 11);
    SoundAt(code, base, p + 5, h, [ANY], p, p + 11);
    SoundJump(code, base, p + 6, h, GOTO, -11, p, p + 11);
    SoundJoin(code, base, p, p + 5, p + 6, p, p + 11);
    SoundJoin(code, base, p, p + 6, p + 11, p, p + 11);
  }

  lemma ProgramSound(code: seq<byte>, base: nat, o: Options, d: Disjunction, sticky: bool)
    requires |code| < TWO31 && DisjunctionWellFormed(d)
    ensures SoundPiece(code, base, ProgramCode(o, d, sticky))
  {
    hide SoundPiece, Scanned, SearchPrefix, CaptureCode, DisjunctionCode;
    var body := DisjunctionCode(o, d, false, 1);
    SoundPrefix(code, base, sticky);
    PrefixScanned(sticky);
    DisjunctionSound(code, base, o, d, false, 1);
    DisjunctionScanned(o, d, false, 1);
    SoundCapture(code, base, false, 0, body);
    ScannedCapture(false, 0, body);
    SoundOp(code, base, MATCH);
    SoundConcat(code, base, SearchPrefix(sticky), CaptureCode(false, 0, body));
    ScannedConcat(SearchPrefix(sticky), CaptureCode(false, 0, body));
    SoundConcat(code, base, SearchPrefix(sticky) + CaptureCode(false, 0, body), [MATCH]);
  }

  lemma ProgramLevels(code: seq<byte>, base: nat, program: seq<byte>)
    requires SoundPiece(code, base, program) && Bytes.At(code, base, program) && |code| == base + |program|
    ensures Sound(code, base, base, |code|, base, |code|) && Level(code, base, base, 0)
  {
    PassesSelf(code, base, 0);
    SoundAt(code, base, base, 0, program, base, |code|);
  }

  /** The scan of the bytecode after its header meets the opcodes of the program. */
  lemma ProgramHeights(code: seq<byte>, base: nat, program: seq<byte>)
    requires Bytes.At(code, base, program) && |code| == base + |program|
    ensures Ops(code, base) == Ops(program, 0)
  {
    assert code == code[..base] + program;
    OpsShift(code[..base], program, 0);
  }

  /**
   * Stack discipline of compiled programs: after any number of steps the operand stack has exactly the height that the
   * linear scan of lre_compute_stack_size has at the current instruction, so it is never negative and never above the
   * size in the header; saved states, lookarounds included, and calls resume at their own heights.
   */
  lemma StackDiscipline(flags: int, canon: (int, bool) -> int, d: Disjunction, input: seq<int>, index: nat, n: nat)
    requires 0 <= flags < TWO16 && Accepted(flags, canon, d) && InputOk(canon, input) && index <= |input|
    requires |Bytecode(flags, canon, d)| < TWO31
    ensures var m := MachineOf(Bytecode(flags, canon, d), canon, input);
            var c := Steps(m, Go(HEADER_LEN, Start(m.subject, index), [], []), n);
            && Disciplined(m, HEADER_LEN, c)
            && (c.Run? ==> Level(m.code, HEADER_LEN, c.t.pc, |c.t.stack|) && |c.t.stack| <= m.stackMax)
  {
    hide DisjunctionCaptures, DisjunctionWellFormed, FlagSet, ProgramCode, Steps, Sound, SoundPiece, Need, Low, Peak,
      Ops, Level, Bytes.At;
    var o, code := OptionsOf(flags, canon), Bytecode(flags, canon, d);
    var program := ProgramCode(o, d, FlagSet(flags, FLAG_STICKY));
    BytecodeLayout(flags, canon, d);
    ProgramSound(code, HEADER_LEN, o, d, FlagSet(flags, FLAG_STICKY));
    ProgramLevels(code, HEADER_LEN, program);
    ProgramHeights(code, HEADER_LEN, program);
    var m := MachineOf(code, canon, input);
    StepsKeep(m, HEADER_LEN, Go(HEADER_LEN, Start(m.subject, index), [], []), n);
    var c := Steps(m, Go(HEADER_LEN, Start(m.subject, index), [], []), n);
    if c.Run? {
      LevelBounded(code, HEADER_LEN, c.t.pc, |c.t.stack|);
      NeedIsPeak(program);
    }
  }

  lemma NeedIsPeak(code: seq<byte>)
    ensures Need(code) == Peak(Ops(code, 0))
  {
  }
}
