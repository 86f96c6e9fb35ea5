/** The linear scans over bytecode: need-check-advance, simple quantifier and operand stack size. */
module RegexpAnalysis {
  import opened Bytes
  import opened RegexpOpcodes

  /** Size of the instruction at pos, its intervals included. */
  function OpSize(code: seq<byte>, pos: nat): (n: nat)
    requires pos < |code|
    ensures n >= 1
  {
    FixedSize(code[pos]) + IntervalBytes(code, pos)
  }

  function IntervalBytes(code: seq<byte>, pos: nat): nat
    requires pos < |code|
  {
    if pos + 3 > |code| then 0
    else if code[pos] == RANGE then 4 * GetU16(code, pos + 1)
    else if code[pos] == RANGE32 then 8 * GetU16(code, pos + 1)
    else 0
  }

  /** The opcodes met by a linear scan from pos. */
  function Ops(code: seq<byte>, pos: nat): seq<byte>
    decreases |code| - pos
  {
    if pos >= |code| then [] else [code[pos]] + Ops(code, pos + OpSize(code, pos))
  }

  /** The scan from pos ends exactly at the end of the code. */
  ghost predicate Clean(code: seq<byte>, pos: nat)
    decreases |code| - pos
  {
    pos == |code| || (pos < |code| && Clean(code, pos + OpSize(code, pos)))
  }

  predicate IsCharOp(op: byte) {
    op == CHAR8 || op == CHAR16 || op == CHAR32 || op == DOT || op == ANY || op == RANGE || op == RANGE32
  }

  predicate IsAssertionOp(op: byte) {
    op == LINE_START || op == LINE_END || op == WORD_BOUNDARY || op == NOT_WORD_BOUNDARY
  }

  /** Opcodes after which the scan of re_need_check_advance goes on without having learnt anything. */
  predicate IsPassiveOp(op: byte) {
    || IsAssertionOp(op)
    || op == PUSH_I32 || op == PUSH_CHAR_POS || op == DROP || op == PREV
    || op == SAVE_START || op == SAVE_END || op == SAVE_RESET
    || op == BACK_REFERENCE || op == BACKWARD_BACK_REFERENCE
  }

  ghost predicate AllSimple(ops: seq<byte>) {
    forall i :: 0 <= i < |ops| ==> IsCharOp(ops[i]) || IsAssertionOp(ops[i])
  }

  ghost predicate AllPredictable(ops: seq<byte>) {
    forall i :: 0 <= i < |ops| ==> IsCharOp(ops[i]) || IsPassiveOp(ops[i])
  }

  ghost predicate HasCharOp(ops: seq<byte>) {
    exists i :: 0 <= i < |ops| && IsCharOp(ops[i])
  }

  function CharCount(ops: seq<byte>): nat {
    if |ops| == 0 then 0 else CharCount(ops[..|ops| - 1]) + if IsCharOp(ops[|ops| - 1]) then 1 else 0
  }

  /** -1, or the number of characters that straight-line character matching code consumes. */
  ghost function SimpleLength(code: seq<byte>): int {
    if AllSimple(Ops(code, 0)) then CharCount(Ops(code, 0)) else -1
  }

  /** The code may come back to the position it started from, as far as the scan can tell. */
  ghost predicate NeedCheck(code: seq<byte>) {
    !AllPredictable(Ops(code, 0)) || !HasCharOp(Ops(code, 0))
  }

  function Delta(op: byte): int {
    if op == PUSH_I32 || op == PUSH_CHAR_POS then 1
    else if op == DROP || op == CHECK_ADVANCE then -1
    else 0
  }

  /** Height of the operand stack after a scan that starts at height 0. */
  function Net(ops: seq<byte>): int {
    if |ops| == 0 then 0 else Net(ops[..|ops| - 1]) + Delta(ops[|ops| - 1])
  }

  function Max(a: int, b: int): int { if a >= b then a else b }

  /** Greatest height reached by that scan. */
  function Peak(ops: seq<byte>): (n: nat) {
    if |ops| == 0 then 0 else Max(Peak(ops[..|ops| - 1]), Net(ops))
  }

  /** Least height reached by that scan; negative when it pops an empty stack. */
  function Low(ops: seq<byte>): (n: int) {
    if |ops| == 0 then 0 else Min(Low(ops[..|ops| - 1]), Net(ops))
  }

  function Min(a: int, b: int): int { if a <= b then a else b }

  // ----- the scans themselves -----

  lemma OpsStep(code: seq<byte>, pos: nat, done: seq<byte>)
    requires pos < |code| && Ops(code, 0) == done + Ops(code, pos)
    ensures Ops(code, 0) == (done + [code[pos]]) + Ops(code, pos + OpSize(code, pos))
  {
    assert done + Ops(code, pos) == (done + [code[pos]]) + Ops(code, pos + OpSize(code, pos));
  }

  method NeedCheckAdvance(code: seq<byte>) returns (ret: bool)
    ensures ret == NeedCheck(code)
  {
    ret := true;
    var pos := 0;
    ghost var done: seq<byte> := [];
    while pos < |code|
      invariant Ops(code, 0) == done + Ops(code, pos)
      invariant AllPredictable(done)
      invariant ret == !HasCharOp(done)
      decreases |code| - pos
    {
      var opcode := code[pos];
      OpsStep(code, pos, done);
      ghost var before := done;
      done := done + [opcode];
      if IsCharOp(opcode) {
        ret := false;
        assert IsCharOp(done[|done| - 1]);
      } else if !IsPassiveOp(opcode) {
        assert Ops(code, 0)[|before|] == opcode;
        return true;
      } else {
        assert HasCharOp(done) ==> HasCharOp(before);
        assert forall i :: 0 <= i < |before| ==> done[i] == before[i];
      }
      pos := pos + OpSize(code, pos);
    }
    assert done + Ops(code, pos) == done;
  }

  method IsSimpleQuantifier(code: seq<byte>) returns (count: int)
    ensures count == SimpleLength(code)
  {
    count := 0;
    var pos := 0;
    ghost var done: seq<byte> := [];
    while pos < |code|
      invariant Ops(code, 0) == done + Ops(code, pos)
      invariant AllSimple(done)
      invariant count == CharCount(done)
      decreases |code| - pos
    {
      var opcode := code[pos];
      OpsStep(code, pos, done);
      assert (done + [opcode])[..|done|] == done;
      if IsCharOp(opcode) {
        count := count + 1;
      } else if !IsAssertionOp(opcode) {
        assert Ops(code, 0)[|done|] == opcode;
        return -1;
      }
      done := done + [opcode];
      pos := pos + OpSize(code, pos);
    }
    assert done + Ops(code, pos) == done;
  }

  const STACK_SIZE_MAX: int := 255

  /** The greatest operand stack height, or -1 when it does not fit the header byte. */
  method ComputeStackSize(code: seq<byte>) returns (stackSizeMax: int)
    requires Low(Ops(code, 0)) >= 0 // what its assert on the stack size demands
    ensures stackSizeMax == if Peak(Ops(code, 0)) <= STACK_SIZE_MAX then Peak(Ops(code, 0)) else -1
  {
    hide Net, Peak, Low, Ops, OpSize;
    EmptyScan();
    var stackSize := 0;
    stackSizeMax := 0;
    var pos := 0;
    ghost var done: seq<byte> := [];
    while pos < |code|
      invariant Ops(code, 0) == done + Ops(code, pos)
      invariant stackSize == Net(done) && stackSizeMax == Peak(done) <= STACK_SIZE_MAX
      decreases |code| - pos
    {
      var opcode := code[pos];
      done := PeakStep(code, pos, done);
      if opcode == PUSH_I32 || opcode == PUSH_CHAR_POS {
        stackSize := stackSize + 1;
        if stackSize > stackSizeMax {
          if stackSize > STACK_SIZE_MAX {
            return -1;
          }
          stackSizeMax := stackSize;
        }
      } else if opcode == DROP || opcode == CHECK_ADVANCE {
        assert stackSize > 0;
        stackSize := stackSize - 1;
      }
      pos := pos + OpSize(code, pos);
    }
    OpsEnd(code, pos);
    assert done + [] == done;
  }

  lemma EmptyScan()
    ensures Net([]) == 0 && Peak([]) == 0
  {
  }

  lemma PeakStep(code: seq<byte>, pos: nat, done: seq<byte>) returns (next: seq<byte>)
    requires pos < |code| && Ops(code, 0) == done + Ops(code, pos) && Low(Ops(code, 0)) >= 0
    ensures next == done + [code[pos]] && Ops(code, 0) == next + Ops(code, pos + OpSize(code, pos))
    ensures Net(next) == Net(done) + Delta(code[pos])
    ensures Peak(next) == Max(Peak(done), Net(next))
    ensures Peak(next) <= Peak(Ops(code, 0))
    ensures 0 <= Net(next) && Net(done) <= Peak(done)
  {
    OpsStep(code, pos, done);
    next := done + [code[pos]];
    assert next[..|done|] == done;
    PeakOfPrefix(next, Ops(code, pos + OpSize(code, pos)));
    PeakOfPrefix(done, []);
    assert done + [] == done;
  }

  lemma {:induction false} PeakOfPrefix(a: seq<byte>, b: seq<byte>)
    ensures Peak(a) <= Peak(a + b)
    ensures Peak(a) >= Net(a)
    ensures Low(a + b) <= Low(a) <= Net(a)
    decreases |b|
  {
    if |b| == 0 {
      assert a + b == a;
    } else {
      PeakOfPrefix(a, b[..|b| - 1]);
      assert (a + b)[..|a + b| - 1] == a + b[..|b| - 1];
    }
  }

  // ----- the scans on concatenated code -----

  /** An instruction has the same size in any code that contains it whole. */
  lemma OpSizeIn(code: seq<byte>, base: nat, part: seq<byte>, pos: nat)
    requires base + |part| <= |code| && code[base..base + |part|] == part
    requires pos < |part| && (pos + 3 <= |part| || FixedSize(part[pos]) < 3 || base + |part| == |code|)
    ensures code[base + pos] == part[pos] && OpSize(code, base + pos) == OpSize(part, pos)
  {
    assert code[base + pos] == part[pos];
    if pos + 3 <= |part| {
      assert code[base + pos + 1] == part[pos + 1] && code[base + pos + 2] == part[pos + 2];
    }
  }

  lemma {:induction false} OpsShift(a: seq<byte>, b: seq<byte>, pos: nat)
    ensures Ops(a + b, |a| + pos) == Ops(b, pos)
    ensures Clean(b, pos) ==> Clean(a + b, |a| + pos)
    decreases |b| - pos
  {
    hide Ops, Clean, OpSize;
    if pos < |b| {
      OpSizeIn(a + b, |a|, b, pos);
      var next := pos + OpSize(b, pos);
      OpsShift(a, b, next);
      OpsUnfold(b, pos, next);
      OpsUnfold(a + b, |a| + pos, |a| + next);
    } else {
      OpsEnd(b, pos);
      OpsEnd(a + b, |a| + pos);
    }
  }

  lemma OpsUnfold(code: seq<byte>, pos: nat, next: nat)
    requires pos < |code| && next == pos + OpSize(code, pos)
    ensures Ops(code, pos) == [code[pos]] + Ops(code, next)
    ensures Clean(code, next) <==> Clean(code, pos)
  {
  }

  lemma OpsEnd(code: seq<byte>, pos: nat)
    requires pos >= |code|
    ensures Ops(code, pos) == [] && (Clean(code, pos) <==> pos == |code|)
  {
  }

  /** Scanning one clean piece of code after another meets the opcodes of both, and nothing else. */
  lemma {:induction false} OpsConcat(a: seq<byte>, b: seq<byte>, pos: nat)
    requires Clean(a, pos)
    ensures Ops(a + b, pos) == Ops(a, pos) + Ops(b, 0)
    ensures Clean(b, 0) ==> Clean(a + b, pos)
    decreases |a| - pos
  {
    if pos == |a| {
      OpsShift(a, b, 0);
    } else {
      CleanFits(a, pos);
      OpSizeIn(a + b, 0, a, pos);
      var next := pos + OpSize(a, pos);
      OpsConcat(a, b, next);
      OpsUnfold(a + b, pos, next);
      OpsUnfold(a, pos, next);
      hide Ops, OpSize;
      assert [a[pos]] + (Ops(a, next) + Ops(b, 0)) == ([a[pos]] + Ops(a, next)) + Ops(b, 0);
    }
  }

  lemma CleanFits(a: seq<byte>, pos: nat)
    requires pos < |a| && Clean(a, pos)
    ensures pos + OpSize(a, pos) <= |a|
    ensures pos + 3 <= |a| || FixedSize(a[pos]) < 3
  {
    assert Clean(a, pos + OpSize(a, pos));
  }

  lemma {:induction false} ScanConcat(a: seq<byte>, b: seq<byte>)
    ensures Net(a + b) == Net(a) + Net(b)
    ensures Peak(a + b) == Max(Peak(a), Net(a) + Peak(b))
    ensures Low(a + b) == Min(Low(a), Net(a) + Low(b))
    ensures CharCount(a + b) == CharCount(a) + CharCount(b)
    decreases |b|
  {
    if |b| == 0 {
      assert a + b == a;
      PeakOfPrefix(a, b);
    } else {
      ScanConcat(a, b[..|b| - 1]);
      assert (a + b)[..|a + b| - 1] == a + b[..|b| - 1];
    }
  }

  /** Simple code consumes at most one character per byte. */
  lemma SimpleLengthBound(code: seq<byte>)
    ensures SimpleLength(code) <= |code|
  {
    OpsBound(code, 0);
    CharCountBound(Ops(code, 0));
  }

  lemma {:induction false} OpsBound(code: seq<byte>, pos: nat)
    requires pos <= |code|
    ensures |Ops(code, pos)| <= |code| - pos
    decreases |code| - pos
  {
    if pos + 1 <= |code| && pos + OpSize(code, pos) <= |code| { OpsBound(code, pos + OpSize(code, pos)); }
  }

  lemma {:induction false} CharCountBound(ops: seq<byte>)
    ensures CharCount(ops) <= |ops|
    decreases |ops|
  {
    if |ops| > 0 { CharCountBound(ops[..|ops| - 1]); }
  }

  // ----- the shape of a piece of code -----

  /** What a piece of code does to the operand stack: net effect, least and greatest height on the way. */
  datatype Shape = Shape(net: int, low: int, peak: int)

  function ShapeOf(code: seq<byte>): Shape {
    Shape(Net(Ops(code, 0)), Low(Ops(code, 0)), Peak(Ops(code, 0)))
  }

  function Compose(a: Shape, b: Shape): Shape {
    Shape(a.net + b.net, Min(a.low, a.net + b.low), Max(a.peak, a.net + b.peak))
  }

  lemma Glue(a: seq<byte>, b: seq<byte>)
    requires Clean(a, 0) && Clean(b, 0)
    ensures Clean(a + b, 0) && Ops(a + b, 0) == Ops(a, 0) + Ops(b, 0)
    ensures ShapeOf(a + b) == Compose(ShapeOf(a), ShapeOf(b))
  {
    hide Ops, Clean, Net, Low, Peak, OpSize;
    OpsConcat(a, b, 0);
    ScanConcat(Ops(a, 0), Ops(b, 0));
  }

  lemma OneOp(code: seq<byte>)
    requires |code| > 0 && OpSize(code, 0) == |code|
    ensures Clean(code, 0) && Ops(code, 0) == [code[0]]
    ensures ShapeOf(code) == Shape(Delta(code[0]), Min(0, Delta(code[0])), Max(0, Delta(code[0])))
  {
    assert Clean(code, |code|);
    assert Ops(code, |code|) == [];
    SingleScan(code[0]);
  }

  lemma SingleScan(op: byte)
    ensures Net([op]) == Delta(op) && Low([op]) == Min(0, Delta(op)) && Peak([op]) == Max(0, Delta(op))
  {
    assert [op][..0] == [];
    assert Net([]) == 0 && Low([]) == 0 && Peak([]) == 0;
  }

  lemma NoOps()
    ensures Clean([], 0) && Ops([], 0) == [] && ShapeOf([]) == Shape(0, 0, 0)
  {
  }
}
