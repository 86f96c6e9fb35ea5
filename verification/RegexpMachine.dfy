/**
 * The backtracking machine as a transition function on configurations. Undefined behaviour of the C code (operand stack
 * under- or overflow, a capture index out of range, leaving the bytecode or the input) is the configuration Stuck.
 */
module RegexpMachine {
  import opened Bytes
  import opened RegexpOpcodes
  import opened RegexpAnalysis
  import opened RegexpCode
  import opened RegexpSemantics
  import opened RegexpSyntax
  import RegexpClass

  datatype Machine = Machine(code: seq<byte>, stackMax: int, subject: Subject)

  datatype Kind = SplitState | LookaheadState | NegativeLookaheadState | GreedyState

  /** A saved state (REExecState); count is used by GreedyState only. */
  datatype State = State(kind: Kind, pc: int, cptr: int, captures: seq<int>, stack: seq<int>, count: int)

  /**
   * A call of the machine by itself, made by simple_greedy_quant with no_recurse set: the operands of that instruction,
   * the number q of matches of its atom so far, the position after them, and the caller's operand stack height.
   */
  datatype Frame = Frame(atom: int, next: int, min: int, max: int, q: int, cptr: int, height: nat)

  /** The registers of the machine; frames is empty except inside such a call. */
  datatype Thread = Thread(pc: int, cptr: int, stack: seq<int>, captures: seq<int>, states: seq<State>,
                           frames: seq<Frame>)

  datatype Config =
    | Run(t: Thread)
    | Return0(stack: seq<int>, captures: seq<int>, states: seq<State>, frames: seq<Frame>) // a call fails
    | Unwind(states: seq<State>)                          // no match: back to the last choice
    | Succeed(captures: seq<int>, states: seq<State>)     // match reached: discard choices down to a lookahead
    | Matched(captures: seq<int>)                         // the machine returned 1
    | NoMatch                                             // the machine returned 0
    | Stuck

  function Push(states: seq<State>, s: State): seq<State> { states + [s] }

  function Pop(states: seq<State>): seq<State>
    requires |states| > 0
  {
    states[..|states| - 1]
  }

  function Resume(s: State, captures: seq<int>, rest: seq<State>): Config {
    Run(Thread(s.pc, s.cptr, s.stack, captures, rest, []))
  }

  /** A failure pops the innermost choice; inside a call it makes the call return 0. */
  function Fail(c: Thread): Config
  {
    if |c.frames| == 0 then Unwind(c.states) else Return0(c.stack, c.captures, c.states, c.frames)
  }

  /**
   * simple_greedy_quant once its loop has ended after f.q matches at position f.cptr, with f removed from the frames.
   */
  function FinishQuant(f: Frame, stack: seq<int>, captures: seq<int>, states: seq<State>, frames: seq<Frame>): Config {
    if |stack| < f.height then Stuck
    else
      var kept := stack[..f.height];
      var c := Thread(f.next, f.cptr, kept, captures, states, frames);
      if f.q < f.min then Fail(c)
      else if f.q > f.min then
        Run(c.(states := Push(states, State(GreedyState, f.atom - 16, f.cptr, captures, kept, f.q - f.min))))
      else Run(c)
  }

  /** The match instruction reached inside a call: one more iteration of the quantified atom. */
  function Iterate(c: Thread, f: Frame): Config
    requires |c.frames| > 0
  {
    var g := f.(q := f.q + 1, cptr := c.cptr);
    var outer := c.frames[..|c.frames| - 1];
    if g.q >= g.max && g.max != INFINITE then FinishQuant(g, c.stack, c.captures, c.states, outer)
    else if |c.stack| < f.height then Stuck
    else Run(c.(pc := f.atom, stack := c.stack[..f.height], frames := outer + [g]))
  }

  /** The outcome of a one-character test of the character c by the instruction at pc. */
  function TestChar(m: Machine, pc: nat, c: int): bool
    requires pc < |m.code| && IsCharOp(m.code[pc]) && pc + OpSize(m.code, pc) <= |m.code|
  {
    var op := m.code[pc];
    var d := Fold(m.subject.opts, c);
    if op == CHAR8 then m.code[pc + 1] == d
    else if op == CHAR16 then GetU16(m.code, pc + 1) == d
    else if op == CHAR32 then GetU32(m.code, pc + 1) == d
    else if op == DOT then !IsLineTerminator(c)
    else if op == ANY then true
    else
      var n := GetU16(m.code, pc + 1);
      n >= 1 && RegexpClass.RangeTest(RegexpClass.Table(m.code, pc + 3, op == RANGE32, n), op == RANGE32, d)
  }

  /** A class instruction must have at least one interval. */
  predicate EmptyRange(m: Machine, pc: nat)
    requires pc < |m.code| && pc + OpSize(m.code, pc) <= |m.code|
  {
    (m.code[pc] == RANGE || m.code[pc] == RANGE32) && GetU16(m.code, pc + 1) == 0
  }

  predicate TestAssertion(m: Machine, op: byte, pos: int)
    requires IsAssertionOp(op) && 0 <= pos <= |m.subject.input|
  {
    var s := m.subject;
    if op == LINE_START then pos == 0 || (s.opts.multiLine && IsLineTerminator(s.input[pos - 1]))
    else if op == LINE_END then pos == |s.input| || (s.opts.multiLine && IsLineTerminator(s.input[pos]))
    else
      var v1 := pos != 0 && IsWordChar(s.input[pos - 1]);
      var v2 := pos < |s.input| && IsWordChar(s.input[pos]);
      !((v1 != v2) != (op == WORD_BOUNDARY))
  }

  /** Compares the characters from p up to end with those from q on; returns the end position, or -1. */
  function CompareForward(s: Subject, p: int, end: int, q: int): int
    requires 0 <= p && end <= |s.input| && 0 <= q <= |s.input|
    decreases end - p
  {
    if p >= end then q
    else if q >= |s.input| then -1
    else if Fold(s.opts, s.input[p]) != Fold(s.opts, s.input[q]) then -1
    else CompareForward(s, p + 1, end, q + 1)
  }

  /** Compares the characters before p down to start with those before q; returns the end position, or -1. */
  function CompareBackward(s: Subject, p: int, start: int, q: int): int
    requires 0 <= start && p <= |s.input| && 0 <= q <= |s.input|
    decreases p - start
  {
    if p <= start then q
    else if q == 0 then -1
    else if Fold(s.opts, s.input[p - 1]) != Fold(s.opts, s.input[q - 1]) then -1
    else CompareBackward(s, p - 1, start, q - 1)
  }

  function BackReference(m: Machine, c: Thread, index: int, back: bool): Config
    requires 0 <= index && 0 <= c.pc && 0 <= c.cptr <= |m.subject.input|
  {
    if index >= m.subject.captureCount then Fail(c)
    else if |c.captures| != 2 * m.subject.captureCount then Stuck
    else
      var start, end := c.captures[2 * index], c.captures[2 * index + 1];
      if start == UNSET || end == UNSET then Run(c.(pc := c.pc + 2))
      else if !(0 <= start <= |m.subject.input| && 0 <= end <= |m.subject.input|) then Stuck
      else
        var q := if back then CompareBackward(m.subject, end, start, c.cptr)
                 else CompareForward(m.subject, start, end, c.cptr);
        if q < 0 then Fail(c) else Run(c.(pc := c.pc + 2, cptr := q))
  }

  /** Decrement of an unsigned machine word. */
  function Decrement(v: int): int {
    if v == 0 then 0xffff_ffff_ffff_ffff else v - 1
  }

  /** A jump whose operand follows the opcode at pc. */
  function Target(m: Machine, pc: nat): int
    requires pc + 5 <= |m.code|
  {
    pc + 5 + GetI32(m.code, pc + 1)
  }

  function Saved(c: Thread, kind: Kind, pc: int): seq<State>
  {
    Push(c.states, State(kind, pc, c.cptr, c.captures, c.stack, 0))
  }

  /** The configuration can execute the instruction at its pc. */
  predicate Ready(m: Machine, c: Thread) {
    0 <= c.pc < |m.code| && c.pc + OpSize(m.code, c.pc) <= |m.code| && 0 <= c.cptr <= |m.subject.input|
  }

  // The instructions, by group.

  function ExecChar(m: Machine, c: Thread): Config
    requires Ready(m, c) && IsCharOp(m.code[c.pc])
  {
    if EmptyRange(m, c.pc) then Stuck
    else if c.cptr == |m.subject.input| then Fail(c)
    else if TestChar(m, c.pc, m.subject.input[c.cptr]) then
      Run(c.(pc := c.pc + OpSize(m.code, c.pc), cptr := c.cptr + 1))
    else Fail(c)
  }

  function ExecControl(m: Machine, c: Thread): Config
    requires Ready(m, c)
  {
    var op := m.code[c.pc];
    if op == GOTO then Run(c.(pc := Target(m, c.pc)))
    else if op == SPLIT_GOTO_FIRST then Run(c.(pc := Target(m, c.pc), states := Saved(c, SplitState, c.pc + 5)))
    else if op == SPLIT_NEXT_FIRST then Run(c.(pc := c.pc + 5, states := Saved(c, SplitState, Target(m, c.pc))))
    else if op == LOOKAHEAD then Run(c.(pc := c.pc + 5, states := Saved(c, LookaheadState, Target(m, c.pc))))
    else if op == NEGATIVE_LOOKAHEAD then Run(c.(pc := c.pc + 5, states :=
                                                 Saved(c, NegativeLookaheadState, Target(m, c.pc))))
    else if op == MATCH then
      if |c.frames| == 0 then Succeed(c.captures, c.states) else Iterate(c, c.frames[|c.frames| - 1])
    else if op == SIMPLE_GREEDY_QUANT then
      Run(c.(pc := c.pc + 17,
         frames := c.frames + [Frame(c.pc + 17, c.pc + 17 + GetI32(m.code, c.pc + 1), GetU32(m.code, c.pc + 5),
                                     GetU32(m.code, c.pc + 9), 0, c.cptr, |c.stack|)]))
    else Stuck
  }

  function ExecStack(m: Machine, c: Thread): Config
    requires Ready(m, c)
  {
    var op := m.code[c.pc];
    if op == PUSH_I32 then
      if |c.stack| >= m.stackMax then Stuck else Run(c.(pc := c.pc + 5, stack := c.stack + [GetU32(m.code, c.pc + 1)]))
    else if op == PUSH_CHAR_POS then
      if |c.stack| >= m.stackMax then Stuck else Run(c.(pc := c.pc + 1, stack := c.stack + [c.cptr]))
    else if |c.stack| == 0 then Stuck
    else
      var rest, top := c.stack[..|c.stack| - 1], c.stack[|c.stack| - 1];
      if op == DROP then Run(c.(pc := c.pc + 1, stack := rest))
      else if op == CHECK_ADVANCE then
        if top == c.cptr then Fail(c.(stack := rest)) else Run(c.(pc := c.pc + 1, stack := rest))
      else if op == LOOP then
        var v := Decrement(top);
        Run(c.(pc := if v != 0 then Target(m, c.pc) else c.pc + 5, stack := rest + [v]))
      else Stuck
  }

  function ExecCapture(m: Machine, c: Thread): Config
    requires Ready(m, c)
  {
    var op := m.code[c.pc];
    if |c.captures| != 2 * m.subject.captureCount then Stuck
    else if op == SAVE_START || op == SAVE_END then
      var v := m.code[c.pc + 1];
      if v >= m.subject.captureCount then Stuck
      else Run(c.(pc := c.pc + 2, captures := c.captures[2 * v + (if op == SAVE_END then 1 else 0) := c.cptr]))
    else if op == SAVE_RESET then
      var v, v2 := m.code[c.pc + 1], m.code[c.pc + 2];
      if v2 >= m.subject.captureCount then Stuck
      else Run(c.(pc := c.pc + 3, captures := ResetCaptures(c.captures, v, v2 + 1)))
    else Stuck
  }

  function Execute(m: Machine, c: Thread): Config
    requires Ready(m, c)
  {
    var op := m.code[c.pc];
    if IsCharOp(op) then ExecChar(m, c)
    else if IsAssertionOp(op) then
      if TestAssertion(m, op, c.cptr) then Run(c.(pc := c.pc + 1)) else Fail(c)
    else if op == PREV then
      if c.cptr == 0 then Fail(c) else Run(c.(pc := c.pc + 1, cptr := c.cptr - 1))
    else if op == BACK_REFERENCE || op == BACKWARD_BACK_REFERENCE then
      BackReference(m, c, m.code[c.pc + 1], op == BACKWARD_BACK_REFERENCE)
    else if op == SAVE_START || op == SAVE_END || op == SAVE_RESET then ExecCapture(m, c)
    else if op == PUSH_I32 || op == PUSH_CHAR_POS || op == DROP || op == CHECK_ADVANCE || op == LOOP
      then ExecStack(m, c)
    else ExecControl(m, c)
  }

  /** Takes the greedy quantifier's state back by one iteration of its atom. */
  function ResumeGreedy(m: Machine, s: State, rest: seq<State>): Config {
    if !(0 <= s.pc && s.pc + 16 <= |m.code|) then Stuck
    else
      var cptr := s.cptr - GetU32(m.code, s.pc + 12);
      if cptr < 0 then Stuck
      else
        var pc := s.pc + 16 + GetI32(m.code, s.pc);
        var left := if s.count == 1 then rest else Push(rest, s.(cptr := cptr, count := s.count - 1));
        Run(Thread(pc, cptr, s.stack, s.captures, left, []))
  }

  function Step(m: Machine, c: Config): Config {
    match c
    case Run(t) => if Ready(m, t) then Execute(m, t) else Stuck
    case Return0(stack, captures, states, frames) =>
      if |frames| == 0 then Unwind(states)
      else FinishQuant(frames[|frames| - 1], stack, captures, states, frames[..|frames| - 1])
    case Unwind(states) =>
      if |states| == 0 then NoMatch
      else
        var s, rest := states[|states| - 1], Pop(states);
        (match s.kind
         case SplitState => Resume(s, s.captures, rest)
         case GreedyState => ResumeGreedy(m, s, rest)
         case LookaheadState => Unwind(rest)
         case NegativeLookaheadState => Resume(s, s.captures, rest))
    case Succeed(captures, states) =>
      if |states| == 0 then Matched(captures)
      else
        var s, rest := states[|states| - 1], Pop(states);
        (match s.kind
         case SplitState => Succeed(captures, rest)
         case GreedyState => Succeed(captures, rest)
         case LookaheadState => Resume(s, captures, rest)
         case NegativeLookaheadState => Unwind(rest))
    case _ => c
  }

  /** The configuration after n steps. */
  function Steps(m: Machine, c: Config, n: nat): Config
    decreases n
  {
    if n == 0 then c else Steps(m, Step(m, c), n - 1)
  }

  /** The machine gets from c to d. */
  ghost predicate Reaches(m: Machine, c: Config, d: Config) {
    exists n: nat :: Steps(m, c, n) == d
  }

  lemma {:induction false} StepsAdd(m: Machine, c: Config, i: nat, j: nat)
    ensures Steps(m, c, i + j) == Steps(m, Steps(m, c, i), j)
    decreases i
  {
    if i > 0 { StepsAdd(m, Step(m, c), i - 1, j); }
  }

  lemma ReachSelf(m: Machine, c: Config)
    ensures Reaches(m, c, c)
  {
    assert Steps(m, c, 0) == c;
  }

  lemma ReachStep(m: Machine, c: Config, d: Config)
    requires Reaches(m, Step(m, c), d)
    ensures Reaches(m, c, d)
  {
    var n: nat :| Steps(m, Step(m, c), n) == d;
    assert Steps(m, c, n + 1) == d;
  }

  lemma ReachTrans(m: Machine, c: Config, d: Config, e: Config)
    requires Reaches(m, c, d) && Reaches(m, d, e)
    ensures Reaches(m, c, e)
  {
    var i: nat :| Steps(m, c, i) == d;
    var j: nat :| Steps(m, d, j) == e;
    StepsAdd(m, c, i, j);
  }
}
