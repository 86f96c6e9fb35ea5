/**
 * The backtracking engine: it keeps captures and operand stack in arrays and runs compiled programs to their verdict.
 */
module RegexpExec {
  import opened Bytes
  import opened RegexpOpcodes
  import opened RegexpSyntax
  import opened RegexpAnalysis
  import opened RegexpCode
  import opened RegexpSemantics
  import opened RegexpMachine
  import opened RegexpSteps
  import opened RegexpProgram
  import RegexpClass

  // ----- instructions that only read -----

  method MatchCharOp(m: Machine, pc: nat, c: int) returns (hit: bool)
    requires pc < |m.code| && IsCharOp(m.code[pc]) && pc + OpSize(m.code, pc) <= |m.code| && !EmptyRange(m, pc)
    ensures hit == TestChar(m, pc, c)
  {
    var op := m.code[pc];
    var d := Fold(m.subject.opts, c);
    if op == RANGE || op == RANGE32 {
      var n := GetU16(m.code, pc + 1);
      hit := RegexpClass.RangeMatch(m.code, pc + 3, op == RANGE32, n, d);
    } else {
      hit := TestChar(m, pc, c);
    }
  }

  method CompareForwardLoop(s: Subject, start: int, end: int, cptr: int) returns (q: int)
    requires 0 <= start && end <= |s.input| && 0 <= cptr <= |s.input|
    ensures q == CompareForward(s, start, end, cptr)
  {
    var p := start;
    q := cptr;
    while p < end
      invariant start <= p && 0 <= q <= |s.input|
      invariant CompareForward(s, start, end, cptr) == CompareForward(s, p, end, q)
    {
      if q >= |s.input| {
        return -1;
      }
      var c1, c2 := Fold(s.opts, s.input[p]), Fold(s.opts, s.input[q]);
      if c1 != c2 {
        return -1;
      }
      p, q := p + 1, q + 1;
    }
  }

  method CompareBackwardLoop(s: Subject, end: int, start: int, cptr: int) returns (q: int)
    requires 0 <= start && end <= |s.input| && 0 <= cptr <= |s.input|
    ensures q == CompareBackward(s, end, start, cptr)
  {
    var p := end;
    q := cptr;
    while p > start
      invariant p <= end && 0 <= q <= |s.input|
      invariant CompareBackward(s, end, start, cptr) == CompareBackward(s, p, start, q)
    {
      if q == 0 {
        return -1;
      }
      p, q := p - 1, q - 1;
      var c1, c2 := Fold(s.opts, s.input[p]), Fold(s.opts, s.input[q]);
      if c1 != c2 {
        return -1;
      }
    }
  }

  predicate IsReader(op: byte) {
    IsCharOp(op) || IsAssertionOp(op) || op == PREV || op == BACK_REFERENCE || op == BACKWARD_BACK_REFERENCE
  }

  /** Characters, assertions, steps back and back references: either they fail or they move. */
  method Read(m: Machine, pc: int, cptr: int, captures: array<int>, ghost t: Thread)
    returns (ok: bool, pc': int, cptr': int)
    requires Ready(m, t) && t.pc == pc && t.cptr == cptr && t.captures == captures[..]
    requires IsReader(m.code[pc]) && !Execute(m, t).Stuck?
    ensures Execute(m, t) == if ok then Run(t.(pc := pc', cptr := cptr')) else Fail(t)
  {
    hide TestChar, CompareForward, CompareBackward;
    var op := m.code[pc];
    ok, pc', cptr' := true, pc + 1, cptr;
    if IsCharOp(op) {
      ok := cptr != |m.subject.input|;
      if ok {
        ok := MatchCharOp(m, pc, m.subject.input[cptr]);
        pc', cptr' := pc + OpSize(m.code, pc), cptr + 1;
      }
    } else if IsAssertionOp(op) {
      ok := TestAssertion(m, op, cptr);
    } else if op == PREV {
      ok := cptr != 0;
      cptr' := cptr - 1;
    } else {
      ok, cptr' := ReadBackReference(m, m.code[pc + 1], op == BACKWARD_BACK_REFERENCE, cptr, captures, t);
      pc' := pc + 2;
    }
  }

  method ReadBackReference(m: Machine, index: int, back: bool, cptr: int, captures: array<int>, ghost t: Thread)
    returns (ok: bool, q: int)
    requires 0 <= index && 0 <= t.pc && 0 <= t.cptr <= |m.subject.input| && t.cptr == cptr && t.captures == captures[..]
    requires !RegexpMachine.BackReference(m, t, index, back).Stuck?
    ensures RegexpMachine.BackReference(m, t, index, back) == if ok then Run(t.(pc := t.pc + 2, cptr := q)) else Fail(t)
  {
    hide CompareForward, CompareBackward;
    if index >= m.subject.captureCount {
      return false, cptr;
    }
    assert t.captures[2 * index] == captures[2 * index] && t.captures[2 * index + 1] == captures[2 * index + 1];
    var start, end := captures[2 * index], captures[2 * index + 1];
    if start == UNSET || end == UNSET {
      return true, cptr;
    }
    if back {
      q := CompareBackwardLoop(m.subject, end, start, cptr);
    } else {
      q := CompareForwardLoop(m.subject, start, end, cptr);
    }
    ok := q >= 0;
  }

  // ----- the engine -----

  class ExecContext {
    const m: Machine
    const capture: array<int>
    const stack: array<int>
    var states: seq<State>

    constructor (m: Machine, capture: array<int>)
      requires m.stackMax >= 0 && capture.Length == 2 * m.subject.captureCount
      ensures this.m == m && this.capture == capture && states == [] && fresh(stack) && Ok()
    {
      this.m := m;
      this.capture := capture;
      stack := new int[m.stackMax];
      states := [];
    }

    /** Saved states fit the arrays they will be copied back to. */
    ghost predicate Ok()
      reads this
    {
      && capture != stack && capture.Length == 2 * m.subject.captureCount && stack.Length == m.stackMax
      && StatesOk(states)
    }

    ghost predicate StatesOk(k: seq<State>) {
      forall i :: 0 <= i < |k| ==> |k[i].captures| == capture.Length && |k[i].stack| <= stack.Length
    }

    /** The machine state that the registers and arrays stand for. */
    ghost function Now(pc: int, cptr: int, len: nat, frames: seq<Frame>): Thread
      requires len <= stack.Length
      reads this, capture, stack
    {
      Thread(pc, cptr, stack[..len], capture[..], states, frames)
    }

    method PushState(kind: Kind, pc: int, cptr: int, len: nat, count: int)
      requires Ok() && len <= stack.Length
      modifies this`states
      ensures Ok() && states == Push(old(states), State(kind, pc, cptr, capture[..], stack[..len], count))
    {
      states := states + [State(kind, pc, cptr, capture[..], stack[..len], count)];
    }

    /** Copies a saved capture list back. */
    method RestoreCaptures(c: seq<int>)
      requires |c| == capture.Length
      modifies capture
      ensures capture[..] == c
    {
      forall i | 0 <= i < |c| {
        capture[i] := c[i];
      }
    }

    method RestoreStack(s: seq<int>)
      requires |s| <= stack.Length
      modifies stack
      ensures stack[..|s|] == s
    {
      forall i | 0 <= i < |s| {
        stack[i] := s[i];
      }
    }

    /** push_i32, push_char_pos, drop, check_advance and loop. */
    method StackOp(pc: int, cptr: int, len: nat, ghost frames: seq<Frame>) returns (ok: bool, pc': int, len': nat)
      requires Ok() && len <= stack.Length && Ready(m, Now(pc, cptr, len, frames))
      requires !ExecStack(m, Now(pc, cptr, len, frames)).Stuck?
      modifies stack
      ensures len' <= stack.Length
      ensures old(ExecStack(m, Now(pc, cptr, len, frames))) ==
              if ok then Run(Now(pc', cptr, len', frames)) else Fail(Now(pc, cptr, len', frames))
    {
      ghost var before := stack[..len];
      var op := m.code[pc];
      ok := true;
      if op == PUSH_I32 {
        stack[len] := GetU32(m.code, pc + 1);
        pc', len' := pc + 5, len + 1;
        assert stack[..len'] == before + [GetU32(m.code, pc + 1)];
      } else if op == PUSH_CHAR_POS {
        stack[len] := cptr;
        pc', len' := pc + 1, len + 1;
        assert stack[..len'] == before + [cptr];
      } else if op == DROP {
        pc', len' := pc + 1, len - 1;
        assert stack[..len'] == before[..len - 1];
      } else if op == CHECK_ADVANCE {
        pc', len' := pc + 1, len - 1;
        ok := stack[len - 1] != cptr;
        assert stack[..len'] == before[..len - 1];
      } else {
        var v := Decrement(stack[len - 1]);
        stack[len - 1] := v;
        pc', len' := if v != 0 then Target(m, pc) else pc + 5, len;
        assert stack[..len'] == before[..len - 1] + [v];
      }
    }

    /** save_start, save_end and save_reset. */
    method CaptureOp(pc: int, cptr: int, len: nat, ghost frames: seq<Frame>) returns (pc': int)
      requires Ok() && len <= stack.Length && Ready(m, Now(pc, cptr, len, frames))
      requires !ExecCapture(m, Now(pc, cptr, len, frames)).Stuck?
      modifies capture
      ensures old(ExecCapture(m, Now(pc, cptr, len, frames))) == Run(Now(pc', cptr, len, frames))
    {
      ghost var before := capture[..];
      var op := m.code[pc];
      if op == SAVE_START || op == SAVE_END {
        var val: int := m.code[pc + 1];
        var i := 2 * val + (if op == SAVE_END then 1 else 0);
        capture[i] := cptr;
        pc' := pc + 2;
        assert capture[..] == before[i := cptr];
      } else {
        var first: int, val2: int := m.code[pc + 1], m.code[pc + 2];
        var v := first;
        assert before == ResetCaptures(before, first, first);
        while v <= val2
          invariant first <= v && (v == first || v <= val2 + 1)
          invariant capture[..] == ResetCaptures(before, first, v)
        {
          ghost var now := capture[..];
          capture[2 * v] := UNSET;
          capture[2 * v + 1] := UNSET;
          assert capture[..] == now[2 * v := UNSET][2 * v + 1 := UNSET];
          assert capture[..] == ResetCaptures(before, first, v + 1);
          v := v + 1;
        }
        ResetMore(before, first, val2 + 1, v);
        pc' := pc + 3;
      }
    }

    /**
     * The `recurse` loop: unwinds the saved states after a success or a failure. Returns whether the engine goes on, at
     * pc and cptr with len operands; if not, ret is its result.
     */
    method Recurse(ret0: bool, ghost end: Config, ghost fuel: nat)
      returns (again: bool, ret: bool, pc: int, cptr: int, len: nat, ghost left: nat)
      requires Ok() && Halted(end) && !end.Stuck?
      requires Steps(m, if ret0 then Succeed(capture[..], states) else Unwind(states), fuel) == end
      modifies this`states, capture, stack
      ensures Ok() && len <= stack.Length && left <= fuel
      ensures again ==> left < fuel && Steps(m, Run(Now(pc, cptr, len, [])), left) == end
      ensures !again ==> end == if ret then Matched(capture[..]) else NoMatch
    {
      ret, left, pc, cptr, len := ret0, fuel, 0, 0, 0;
      while true
        invariant Ok() && left <= fuel
        invariant Steps(m, if ret then Succeed(capture[..], states) else Unwind(states), left) == end
        decreases left
      {
        StepBack(m, if ret then Succeed(capture[..], states) else Unwind(states), left, end);
        if |states| == 0 {
          HaltedStays(m, if ret then Matched(capture[..]) else NoMatch, left - 1);
          return false, ret, pc, cptr, len, left;
        }
        left := left - 1;
        var rs := states[|states| - 1];
        ghost var rest := Pop(states);
        assert states == Push(rest, rs);
        if rs.kind == SplitState || rs.kind == GreedyState {
          if !ret {
            again, pc, cptr, len := true, rs.pc, rs.cptr, |rs.stack|;
            RestoreCaptures(rs.captures);
            RestoreStack(rs.stack);
            if rs.kind == SplitState {
              states := states[..|states| - 1];
            } else {
              NotStuck(m, ResumeGreedy(m, rs, rest), left, end);
              pc, cptr := ResumeQuantifier(rs, rest);
            }
            return;
          }
        } else {
          ret := (rs.kind == LookaheadState && ret) || (rs.kind == NegativeLookaheadState && !ret);
          if ret {
            // the captures are kept in case of a positive lookahead
            if rs.kind == NegativeLookaheadState {
              RestoreCaptures(rs.captures);
            }
            RestoreStack(rs.stack);
            states := states[..|states| - 1];
            return true, ret, rs.pc, rs.cptr, |rs.stack|, left;
          }
        }
        states := states[..|states| - 1];
      }
    }

    /** Everything except match, simple_greedy_quant: one instruction that stays within this call. */
    method Instruction(pc: int, cptr: int, len: nat, ghost frames: seq<Frame>)
      returns (ok: bool, pc': int, cptr': int, len': nat)
      requires Ok() && len <= stack.Length && Ready(m, Now(pc, cptr, len, frames))
      requires m.code[pc] != MATCH && m.code[pc] != SIMPLE_GREEDY_QUANT
               && !Execute(m, Now(pc, cptr, len, frames)).Stuck?
      modifies this`states, capture, stack
      ensures Ok() && len' <= stack.Length
      ensures old(Execute(m, Now(pc, cptr, len, frames))) ==
              if ok then Run(Now(pc', cptr', len', frames)) else Fail(Now(pc, cptr, len', frames))
    {
      hide ExecChar, ExecStack, ExecCapture, TestAssertion, RegexpMachine.BackReference;
      var op := m.code[pc];
      ok, pc', cptr', len' := true, pc, cptr, len;
      if IsReader(op) {
        ok, pc', cptr' := Read(m, pc, cptr, capture, Now(pc, cptr, len, frames));
      } else if op == SAVE_START || op == SAVE_END || op == SAVE_RESET {
        pc' := CaptureOp(pc, cptr, len, frames);
      } else if op == PUSH_I32 || op == PUSH_CHAR_POS || op == DROP || op == CHECK_ADVANCE || op == LOOP {
        ok, pc', len' := StackOp(pc, cptr, len, frames);
      } else if op == GOTO {
        pc' := Target(m, pc);
      } else if op == SPLIT_GOTO_FIRST || op == SPLIT_NEXT_FIRST {
        var val := Target(m, pc);
        var pc1 := if op == SPLIT_NEXT_FIRST then val else pc + 5;
        PushState(SplitState, pc1, cptr, len, 0);
        pc' := if op == SPLIT_NEXT_FIRST then pc + 5 else val;
      } else {
        PushState(if op == LOOKAHEAD then LookaheadState else NegativeLookaheadState, Target(m, pc), cptr, len, 0);
        pc' := pc + 5;
      }
    }

    /**
     * lre_exec_backtrack. The run from the given registers is known to end in `end` after `fuel` steps, without getting
     * stuck. Outside of a call (no frames) the result is the verdict of the run. Inside a call it is the position where
     * the subroutine's match was reached, or -1; the run then goes on from `next`.
     */
    method Backtrack(pc0: int, cptr0: int, len0: nat, noRecurse: bool, ghost frames: seq<Frame>, ghost end: Config,
                     ghost fuel: nat)
      returns (res: int, ghost next: Config, ghost left: nat)
      requires Ok() && len0 <= stack.Length && Halted(end) && !end.Stuck? && noRecurse == (|frames| > 0)
      requires Steps(m, Run(Now(pc0, cptr0, len0, frames)), fuel) == end
      modifies this`states, capture, stack
      ensures Ok() && left <= fuel
      ensures !noRecurse ==> end == if res == 1 then Matched(capture[..]) else NoMatch
      ensures noRecurse ==> left < fuel && Steps(m, next, left) == end && res >= -1
      ensures noRecurse ==> CallReturns(frames, res, next)
      decreases fuel, 0
    {
      hide Steps, Step, Execute, Iterate, FinishQuant, Returned;
      var pc, cptr := pc0, cptr0;
      var len: nat := len0;
      left, next, res := fuel, end, -1;
      while true
        invariant Ok() && len <= stack.Length && left <= fuel
        invariant Steps(m, Run(Now(pc, cptr, len, frames)), left) == end
        decreases left
      {
        ghost var t := Now(pc, cptr, len, frames);
        RunStep(m, t, left, end);
        left := left - 1;
        var opcode := m.code[pc];
        var ok: bool;
        if opcode == MATCH {
          MatchMeans(m, t);
          if noRecurse {
            res, next := cptr, Returned(frames, cptr, stack[..len], capture[..], states);
            return;
          }
          var again, ret;
          again, ret, pc, cptr, len, left := Recurse(true, end, left);
          if !again {
            res := if ret then 1 else 0;
            return;
          }
        } else {
          if opcode == SIMPLE_GREEDY_QUANT {
            ok, pc, cptr, left := SimpleGreedyQuant(pc, cptr, len, frames, end, left);
          } else {
            ok, pc, cptr, len := Instruction(pc, cptr, len, frames);
          }
          if !ok {
            // no_match
            if noRecurse {
              FailInCall(m, Now(pc, cptr, len, frames), left, end);
              left, next := left - 1, Returned(frames, res, stack[..len], capture[..], states);
              return;
            }
            FailOutside(Now(pc, cptr, len, frames));
            var again, ret;
            again, ret, pc, cptr, len, left := Recurse(false, end, left);
            if !again {
              res := if ret then 1 else 0;
              return;
            }
          }
        }
      }
    }

    /** What a call has left behind for its caller. */
    ghost predicate CallReturns(frames: seq<Frame>, res: int, next: Config)
      requires |frames| > 0
      reads this, capture, stack
    {
      exists len: nat :: len <= stack.Length && next == Returned(frames, res, stack[..len], capture[..], states)
    }

    /** The instruction that calls the engine on its atom until it fails. */
    method SimpleGreedyQuant(pc: int, cptr0: int, len: nat, ghost frames: seq<Frame>, ghost end: Config,
                             ghost fuel: nat)
      returns (ok: bool, pc': int, cptr: int, ghost left: nat)
      requires Ok() && len <= stack.Length && Ready(m, Now(pc, cptr0, len, frames)) && m.code[pc] == SIMPLE_GREEDY_QUANT
      requires Halted(end) && !end.Stuck? && Steps(m, Execute(m, Now(pc, cptr0, len, frames)), fuel) == end
      modifies this`states, capture, stack
      ensures Ok() && left <= fuel
      ensures Steps(m, if ok then Run(Now(pc', cptr, len, frames)) else Fail(Now(pc', cptr, len, frames)), left) == end
      decreases fuel, 1
    {
      hide Steps, Step, Execute, Iterate, FinishQuant, Returned, Fail, Front, Last;
      GreedyEntry(m, Now(pc, cptr0, len, frames));
      var nextPos, quantMin, quantMax := GetI32(m.code, pc + 1), GetU32(m.code, pc + 5), GetU32(m.code, pc + 9);
      var pc1 := pc + 17;
      pc', cptr, left := pc1 + nextPos, cptr0, fuel;
      var q := 0;
      while true
        invariant Ok() && left <= fuel && q >= 0
        invariant Steps(m, Run(Now(pc1, cptr, len, frames + [Frame(pc1, pc', quantMin, quantMax, q, cptr, len)])),
                        left) == end
        decreases left
      {
        ghost var f := Frame(pc1, pc', quantMin, quantMax, q, cptr, len);
        ghost var next: Config;
        var res: int;
        res, next, left := Backtrack(pc1, cptr, len, true, frames + [f], end, left);
        NotStuck(m, next, left, end);
        ghost var len1: nat :| len1 <= stack.Length
          && next == Returned(frames + [f], res, stack[..len1], capture[..], states);
        if res < 0 {
          CallFinished(frames, f, stack[..len1], capture[..], states);
          FinishMeans(f, stack[..len1], capture[..], states, frames);
          assert stack[..len1][..len] == stack[..len];
          break;
        }
        IterateMeans(frames, f, res, stack[..len1], capture[..], states);
        cptr := res;
        q := q + 1;
        if q >= quantMax && quantMax != INFINITE {
          FinishMeans(f.(q := q, cptr := cptr), stack[..len1], capture[..], states, frames);
          assert stack[..len1][..len] == stack[..len];
          break;
        }
        assert stack[..len1][..len] == stack[..len];
      }
      ok := q >= quantMin;
      if q > quantMin {
        PushState(GreedyState, pc1 - 16, cptr, len, q - quantMin);
      }
    }

    /** Takes a greedy quantifier back by one iteration; its state stays while there are more. */
    method ResumeQuantifier(rs: State, ghost rest: seq<State>) returns (pc: int, cptr: int)
      requires Ok() && states == Push(rest, rs) && !ResumeGreedy(m, rs, rest).Stuck? && |rs.stack| <= stack.Length
      requires stack[..|rs.stack|] == rs.stack && capture[..] == rs.captures
      modifies this`states
      ensures Ok() && ResumeGreedy(m, rs, rest) == Run(Now(pc, cptr, |rs.stack|, []))
    {
      var charCount := GetU32(m.code, rs.pc + 12);
      var i := 0;
      cptr := rs.cptr;
      while i < charCount
        invariant 0 <= i <= charCount && cptr == rs.cptr - i
      {
        cptr := cptr - 1;
        i := i + 1;
      }
      pc := rs.pc + 16 + GetI32(m.code, rs.pc);
      if rs.count == 1 {
        states := states[..|states| - 1];
      } else {
        states := states[|states| - 1 := rs.(cptr := cptr, count := rs.count - 1)];
      }
    }
  }

  /** A run that has not ended yet takes a step. */
  lemma StepBack(m: Machine, c: Config, n: nat, end: Config)
    requires Steps(m, c, n) == end && Halted(end) && !Halted(c)
    ensures n > 0 && Steps(m, Step(m, c), n - 1) == end
  {
  }

  lemma RunStep(m: Machine, t: Thread, n: nat, end: Config)
    requires Steps(m, Run(t), n) == end && Halted(end) && !end.Stuck?
    ensures n > 0 && Ready(m, t) && !Execute(m, t).Stuck? && Steps(m, Execute(m, t), n - 1) == end
  {
    hide Execute;
    StepBack(m, Run(t), n, end);
    NotStuck(m, Step(m, Run(t)), n - 1, end);
  }

  /** The match instruction ends a call at the current position, or the search for a match. */
  lemma MatchMeans(m: Machine, t: Thread)
    requires Ready(m, t) && m.code[t.pc] == MATCH
    ensures Execute(m, t) ==
            if |t.frames| > 0 then Returned(t.frames, t.cptr, t.stack, t.captures, t.states)
            else Succeed(t.captures, t.states)
  {
    hide Iterate;
    if |t.frames| > 0 { IterateAnywhere(t, Last(t.frames)); }
  }

  lemma FailInCall(m: Machine, t: Thread, n: nat, end: Config)
    requires Steps(m, Fail(t), n) == end && Halted(end) && |t.frames| > 0
    ensures n > 0 && Steps(m, Returned(t.frames, -1, t.stack, t.captures, t.states), n - 1) == end
  {
    hide Steps;
    StepBack(m, Fail(t), n, end);
  }

  lemma FailOutside(t: Thread)
    ensures |t.frames| == 0 ==> Fail(t) == Unwind(t.states)
  {
  }

  function Last(frames: seq<Frame>): Frame
    requires |frames| > 0
  {
    frames[|frames| - 1]
  }

  function Front(frames: seq<Frame>): seq<Frame>
    requires |frames| > 0
  {
    frames[..|frames| - 1]
  }

  /** The configuration in which the caller finds itself after a call. */
  function Returned(frames: seq<Frame>, res: int, stack: seq<int>, captures: seq<int>, states: seq<State>): Config
    requires |frames| > 0
  {
    if res >= 0 then Iterate(Thread(0, res, stack, captures, states, frames), Last(frames))
    else FinishQuant(Last(frames), stack, captures, states, Front(frames))
  }

  lemma GreedyEntry(m: Machine, t: Thread)
    requires Ready(m, t) && m.code[t.pc] == SIMPLE_GREEDY_QUANT
    ensures Execute(m, t) == Run(t.(pc := t.pc + 17, frames :=
                                    t.frames + [Frame(t.pc + 17, t.pc + 17 + GetI32(m.code, t.pc + 1),
      GetU32(m.code, t.pc + 5), GetU32(m.code, t.pc + 9), 0, t.cptr, |t.stack|)]))
  {
  }

  lemma CallFinished(frames: seq<Frame>, f: Frame, stack: seq<int>, captures: seq<int>, states: seq<State>)
    requires !Returned(frames + [f], -1, stack, captures, states).Stuck?
    ensures Returned(frames + [f], -1, stack, captures, states) == FinishQuant(f, stack, captures, states, frames)
  {
    assert Front(frames + [f]) == frames && Last(frames + [f]) == f;
  }

  lemma IterateAnywhere(t: Thread, f: Frame)
    requires |t.frames| > 0
    ensures Iterate(t, f) == Iterate(t.(pc := 0), f)
  {
  }

  lemma FinishMeans(f: Frame, stack: seq<int>, captures: seq<int>, states: seq<State>, frames: seq<Frame>)
    requires !FinishQuant(f, stack, captures, states, frames).Stuck?
    ensures |stack| >= f.height
    ensures var t := Thread(f.next, f.cptr, stack[..f.height], captures, states, frames);
            FinishQuant(f, stack, captures, states, frames) ==
            if f.q < f.min then Fail(t)
            else if f.q > f.min then
              Run(t.(states := Push(states, State(GreedyState, f.atom - 16, f.cptr, captures, t.stack, f.q - f.min))))
            else Run(t)
  {
  }

  lemma IterateMeans(frames: seq<Frame>, f: Frame, res: int, stack: seq<int>, captures: seq<int>, states: seq<State>)
    requires res >= 0 && !Returned(frames + [f], res, stack, captures, states).Stuck?
    ensures |stack| >= f.height
    ensures var g := f.(q := f.q + 1, cptr := res);
            Returned(frames + [f], res, stack, captures, states) ==
            if g.q >= g.max && g.max != INFINITE then FinishQuant(g, stack, captures, states, frames)
            else Run(Thread(f.atom, res, stack[..f.height], captures, states, frames + [g]))
  {
    assert Front(frames + [f]) == frames && Last(frames + [f]) == f;
  }

  lemma NotStuck(m: Machine, c: Config, n: nat, end: Config)
    requires Steps(m, c, n) == end && !end.Stuck?
    ensures !c.Stuck?
  {
    if c.Stuck? { HaltedStays(m, c, n); }
  }

  lemma ResetMore(c: seq<int>, first: int, end: int, v: int)
    requires first <= v && (v == end || (v == first && end <= first))
    ensures ResetCaptures(c, first, v) == ResetCaptures(c, first, end)
  {
  }

  /**
   * lre_exec on bytecode that the compiler produced for the pattern d: it returns, and it reports the first match from
   * index on, in priority order, with its captures, exactly when there is one.
   */
  method Exec(bytecode: seq<byte>, canon: (int, bool) -> int, input: seq<int>, index: nat, ghost flags: int,
              ghost d: Disjunction)
    returns (matched: bool, capture: array<int>)
    requires 0 <= flags < TWO16 && Accepted(flags, canon, d) && InputOk(canon, input) && index <= |input|
    requires bytecode == Bytecode(flags, canon, d) && |bytecode| < TWO31
    ensures var s := Subject(input, OptionsOf(flags, canon), 1 + DisjunctionCaptures(d));
            && DisjunctionWellFormed(d) && Valid(s, Start(s, index))
            && var ys := MatchesFrom(s, d, FlagSet(flags, FLAG_STICKY), Start(s, index));
               && (matched <==> |ys| > 0)
               && (matched ==> capture[..] == ys[0].captures)
  {
    hide MatchesFrom, Accepted, InputOk, Bytecode, FlagSet, Reaches, DisjunctionCaptures, DisjunctionWellFormed;
    BytecodeIsLong(flags, canon, d);
    var m := MachineOf(bytecode, canon, input);
    capture := new int[2 * m.subject.captureCount];
    var i := 0;
    while i < capture.Length
      invariant 0 <= i <= capture.Length && forall j :: 0 <= j < i ==> capture[j] == UNSET
    {
      capture[i] := UNSET;
      i := i + 1;
    }
    ghost var x := Start(m.subject, index);
    assert capture[..] == x.captures;
    CompiledProgramIsCorrect(flags, canon, d, input, index);
    ProgramSubject(flags, canon, d, input);
    ghost var end := Verdict(MatchesFrom(m.subject, d, FlagSet(flags, FLAG_STICKY), x));
    ghost var n := StepsNeeded(m, Go(HEADER_LEN, x, [], []), end);
    var context := new ExecContext(m, capture);
    assert context.Now(HEADER_LEN, index, 0, []) == Thread(HEADER_LEN, index, [], x.captures, [], []);
    ghost var next, left;
    var res;
    res, next, left := context.Backtrack(HEADER_LEN, index, 0, false, [], end, n);
    matched := res == 1;
  }

  lemma StepsNeeded(m: Machine, c: Config, d: Config) returns (n: nat)
    requires Reaches(m, c, d)
    ensures Steps(m, c, n) == d
  {
    n :| Steps(m, c, n) == d;
  }

  lemma BytecodeIsLong(flags: int, canon: (int, bool) -> int, d: Disjunction)
    ensures |Bytecode(flags, canon, d)| >= HEADER_LEN
  {
  }

  lemma ProgramSubject(flags: int, canon: (int, bool) -> int, d: Disjunction, input: seq<int>)
    requires 0 <= flags < TWO16 && Accepted(flags, canon, d) && |Bytecode(flags, canon, d)| >= HEADER_LEN
    ensures DisjunctionWellFormed(d)
    ensures MachineOf(Bytecode(flags, canon, d), canon, input).subject
            == Subject(input, OptionsOf(flags, canon), 1 + DisjunctionCaptures(d))
  {
    BytecodeLayout(flags, canon, d);
  }
}
