/**
 * Operand stack heights: the linear scan gives every instruction a height, and in emitted code every jump leads to an
 * instruction with the height it is taken at.
 */
module RegexpHeights {
  import opened Bytes
  import opened RegexpOpcodes
  import opened RegexpSyntax
  import opened RegexpAnalysis
  import opened RegexpCode
  import opened RegexpShape
  import opened RegexpStraight
  import opened RegexpPrediction
  import opened RegexpCharSteps
  import opened RegexpLayout
  import opened RegexpSteps

  /** The linear scan that is at pc with height h comes to q with height g. */
  ghost predicate Passes(code: seq<byte>, pc: nat, h: int, q: int, g: int)
    decreases |code| - pc
  {
    (pc == q && h == g) || (pc < |code| && Passes(code, pc + OpSize(code, pc), h + Delta(code[pc]), q, g))
  }

  /** The scan of the code from base on comes to pc with height h. */
  ghost predicate Level(code: seq<byte>, base: nat, pc: int, h: int) {
    Passes(code, base, 0, pc, h)
  }

  lemma {:induction false} PassesTrans(code: seq<byte>, a: nat, ha: int, b: nat, hb: int, c: int, hc: int)
    requires Passes(code, a, ha, b, hb) && Passes(code, b, hb, c, hc)
    ensures Passes(code, a, ha, c, hc)
    decreases |code| - a
  {
    if !(a == b && ha == hb) { PassesTrans(code, a + OpSize(code, a), ha + Delta(code[a]), b, hb, c, hc); }
  }

  lemma {:induction false} PassesForward(code: seq<byte>, a: nat, ha: int, b: int, hb: int)
    requires Passes(code, a, ha, b, hb)
    ensures a < b || (a == b && ha == hb)
    decreases |code| - a
  {
    if !(a == b && ha == hb) { PassesForward(code, a + OpSize(code, a), ha + Delta(code[a]), b, hb); }
  }

  /** Of two places on the way of the scan, the later one is passed from the earlier one. */
  lemma {:induction false} PassesLinear(code: seq<byte>, a: nat, ha: int, b: nat, hb: int, c: nat, hc: int)
    requires Passes(code, a, ha, b, hb) && Passes(code, a, ha, c, hc) && b <= c
    ensures Passes(code, b, hb, c, hc)
    decreases |code| - a
  {
    PassesForward(code, a, ha, b, hb);
    PassesForward(code, a, ha, c, hc);
    if a < b {
      PassesLinear(code, a + OpSize(code, a), ha + Delta(code[a]), b, hb, c, hc);
    }
  }

  /** The height at a place lies between the least and the greatest height of the whole scan. */
  lemma {:induction false} PassesBounded(code: seq<byte>, done: seq<byte>, base: nat, pc: nat, h: int, q: int, g: int)
    requires Passes(code, pc, h, q, g) && Ops(code, base) == done + Ops(code, pc) && h == Net(done)
    ensures Low(Ops(code, base)) <= g <= Peak(Ops(code, base))
    decreases |code| - pc
  {
    if pc == q && h == g {
      PeakOfPrefix(done, Ops(code, pc));
    } else {
      var next := done + [code[pc]];
      assert next[..|done|] == done;
      assert done + Ops(code, pc) == next + Ops(code, pc + OpSize(code, pc));
      PassesBounded(code, next, base, pc + OpSize(code, pc), h + Delta(code[pc]), q, g);
    }
  }

  lemma LevelBounded(code: seq<byte>, base: nat, pc: int, h: int)
    requires Level(code, base, pc, h)
    ensures Low(Ops(code, base)) <= h <= Peak(Ops(code, base))
  {
    assert Net([]) == 0;
    PassesBounded(code, [], base, base, 0, pc, h);
  }

  lemma LevelUnique(code: seq<byte>, base: nat, pc: int, h: int, g: int)
    requires Level(code, base, pc, h) && Level(code, base, pc, g)
    ensures h == g
  {
    PassesForward(code, base, 0, pc, h);
    PassesLinear(code, base, 0, pc, h, pc, g);
    PassesForward(code, pc, h, pc, g);
  }

  lemma LevelNext(code: seq<byte>, base: nat, pc: nat, h: int)
    requires Level(code, base, pc, h) && pc < |code|
    ensures Level(code, base, pc + OpSize(code, pc), h + Delta(code[pc]))
  {
    var next := pc + OpSize(code, pc);
    assert Passes(code, next, h + Delta(code[pc]), next, h + Delta(code[pc]));
    PassesTrans(code, base, 0, pc, h, next, h + Delta(code[pc]));
  }

  // ----- pieces of code at a place that the scan passes -----

  lemma AtSlice(code: seq<byte>, p: int, part: seq<byte>)
    requires At(code, p, part)
    ensures code[p..p + |part|] == part
  {
  }

  /** One instruction. */
  ghost predicate IsOne(part: seq<byte>) {
    |part| > 0 && Clean(part, 0) && OpSize(part, 0) == |part|
  }

  lemma OneByScan(part: seq<byte>, op: byte, s: Shape)
    requires Scans(part, [op], s)
    ensures IsOne(part) && part[0] == op
  {
    hide Ops, Clean, OpSize;
    assert |part| > 0 by {
      if |part| == 0 { OpsEnd(part, 0); }
    }
    var next := OpSize(part, 0);
    OpsUnfold(part, 0, next);
    OpsMore(part, next);
    CleanFits(part, 0);
  }

  lemma OpsMore(code: seq<byte>, pos: nat)
    ensures pos < |code| ==> |Ops(code, pos)| > 0
  {
  }

  lemma LevelOne(code: seq<byte>, base: nat, p: nat, h: int, part: seq<byte>)
    requires At(code, p, part) && IsOne(part) && Level(code, base, p, h)
    ensures p < |code| && code[p] == part[0] && OpSize(code, p) == |part|
    ensures Level(code, base, p + |part|, h + Delta(part[0]))
  {
    AtSlice(code, p, part);
    CleanFits(part, 0);
    OpSizeIn(code, p, part, 0);
    LevelNext(code, base, p, h);
  }

  lemma {:induction false} PassesPart(code: seq<byte>, p: nat, part: seq<byte>, i: nat, h: int)
    requires At(code, p, part) && Clean(part, i) && i <= |part|
    ensures Passes(code, p + i, h, p + |part|, h + Net(Ops(part, i)))
    decreases |part| - i
  {
    hide Ops, Clean, OpSize, Net, Low, Peak, CharCount;
    if i == |part| {
      OpsEnd(part, i);
      EmptyScan();
      PassesSelf(code, p + i, h);
    } else {
      var next := i + OpSize(part, i);
      AtSlice(code, p, part);
      CleanFits(part, i);
      OpSizeIn(code, p, part, i);
      OpsUnfold(part, i, next);
      PassesPart(code, p, part, next, h + Delta(part[i]));
      ScanConcat([part[i]], Ops(part, next));
      SingleScan(part[i]);
    }
  }

  lemma PassesSelf(code: seq<byte>, p: nat, h: int)
    ensures Passes(code, p, h, p, h)
  {
  }

  /** Code that leaves the operand stack as it was. */
  lemma LevelPiece(code: seq<byte>, base: nat, p: nat, h: int, part: seq<byte>)
    requires At(code, p, part) && Scanned(part) && Level(code, base, p, h)
    ensures Level(code, base, p + |part|, h)
  {
    PassesPart(code, p, part, 0, h);
    PassesTrans(code, base, 0, p, h, p + |part|, h);
  }

  // ----- jumps -----

  predicate IsJump(op: byte) {
    op == GOTO || op == SPLIT_GOTO_FIRST || op == SPLIT_NEXT_FIRST || op == LOOP || op == LOOKAHEAD
      || op == NEGATIVE_LOOKAHEAD
  }

  /** A place between lo and hi, both included, that the scan reaches with height h. */
  ghost predicate Lands(code: seq<byte>, base: nat, target: int, h: int, lo: int, hi: int) {
    lo <= target <= hi && Level(code, base, target, h)
  }

  /** The instruction at pc, reached with height h, jumps only to places between lo and hi with the same height. */
  ghost predicate JumpOk(code: seq<byte>, base: nat, pc: nat, h: int, lo: int, hi: int)
    requires pc < |code|
  {
    && (IsJump(code[pc]) && pc + 5 <= |code| ==> Lands(code, base, pc + 5 + GetI32(code, pc + 1), h, lo, hi))
    && (code[pc] == SIMPLE_GREEDY_QUANT && pc + 17 <= |code|
        ==> Lands(code, base, pc + 17 + GetI32(code, pc + 1), h, lo, hi))
  }

  /** All jumps from p up to q are like that. */
  ghost predicate Sound(code: seq<byte>, base: nat, p: int, q: int, lo: int, hi: int) {
    forall pc, h :: p <= pc < q && 0 <= pc < |code| && Level(code, base, pc, h) ==> JumpOk(code, base, pc, h, lo, hi)
  }

  /** Wherever the scan comes to the piece a, the jumps in it stay inside it or go to its end, at their own height. */
  ghost predicate SoundPiece(code: seq<byte>, base: nat, a: seq<byte>) {
    forall p: nat, h :: At(code, p, a) && Level(code, base, p, h) ==> Sound(code, base, p, p + |a|, p, p + |a|)
  }

  lemma SoundJoin(code: seq<byte>, base: nat, p: int, q: int, r: int, lo: int, hi: int)
    requires Sound(code, base, p, q, lo, hi) && Sound(code, base, q, r, lo, hi)
    ensures Sound(code, base, p, r, lo, hi)
  {
    hide JumpOk, Level;
  }

  lemma SoundOne(code: seq<byte>, base: nat, p: nat, h: int, part: seq<byte>, lo: int, hi: int)
    requires At(code, p, part) && IsOne(part) && Level(code, base, p, h) && p < |code|
             && JumpOk(code, base, p, h, lo, hi)
    ensures Sound(code, base, p, p + |part|, lo, hi)
  {
    hide JumpOk;
    LevelOne(code, base, p, h, part);
    forall pc, g | p <= pc < p + |part| && 0 <= pc < |code| && Level(code, base, pc, g)
      ensures JumpOk(code, base, pc, g, lo, hi)
    {
      PassesLinear(code, base, 0, p, h, pc, g);
      if pc == p {
        LevelUnique(code, base, p, h, g);
      } else {
        PassesForward(code, p + OpSize(code, p), h + Delta(code[p]), pc, g);
      }
    }
  }

  /** An instruction that does not jump. */
  lemma SoundPlain(code: seq<byte>, base: nat, part: seq<byte>)
    requires IsOne(part) && !IsJump(part[0]) && part[0] != SIMPLE_GREEDY_QUANT
    ensures SoundPiece(code, base, part)
  {
    hide Level, At, Sound;
    forall p: nat, h | At(code, p, part) && Level(code, base, p, h)
      ensures Sound(code, base, p, p + |part|, p, p + |part|)
    {
      var lo, hi := p, p + |part|;
      LevelOne(code, base, p, h, part);
      SoundOne(code, base, p, h, part, lo, hi);
    }
  }

  /** An instruction with a 32-bit operand that jumps by off. */
  lemma SoundJump(code: seq<byte>, base: nat, p: nat, h: int, op: byte, off: int, lo: int, hi: int)
    requires At(code, p, [op] + PutU32(off)) && Int32(off) && FixedSize(op) == 5 && op != SIMPLE_GREEDY_QUANT
    requires Level(code, base, p, h) && Lands(code, base, p + 5 + off, h, lo, hi)
    ensures Sound(code, base, p, p + 5, lo, hi)
  {
    hide Level, Sound;
    ScansOp32(op, off);
    OneByScan([op] + PutU32(off), op, Plain(op));
    LevelOne(code, base, p, h, [op] + PutU32(off));
    AtSplit(code, p, [op], PutU32(off));
    U32RoundTrip(code, p + 1, off);
    SoundOne(code, base, p, h, [op] + PutU32(off), lo, hi);
  }

  lemma LevelOp32(code: seq<byte>, base: nat, p: nat, h: int, op: byte, v: int)
    requires At(code, p, [op] + PutU32(v)) && FixedSize(op) == 5 && Level(code, base, p, h)
    ensures Level(code, base, p + 5, h + Delta(op))
  {
    hide Level;
    ScansOp32(op, v);
    OneByScan([op] + PutU32(v), op, Plain(op));
    LevelOne(code, base, p, h, [op] + PutU32(v));
  }

  lemma LevelOp(code: seq<byte>, base: nat, p: nat, h: int, op: byte)
    requires At(code, p, [op]) && FixedSize(op) == 1 && Level(code, base, p, h)
    ensures Level(code, base, p + 1, h + Delta(op))
  {
    hide Level;
    ScansOp(op);
    OneByScan([op], op, Plain(op));
    LevelOne(code, base, p, h, [op]);
  }

  lemma SoundOp(code: seq<byte>, base: nat, op: byte)
    requires FixedSize(op) == 1
    ensures SoundPiece(code, base, [op])
  {
    ScansOp(op);
    OneByScan([op], op, Plain(op));
    SoundPlain(code, base, [op]);
  }

  lemma SoundPush(code: seq<byte>, base: nat, v: int)
    ensures SoundPiece(code, base, [PUSH_I32] + PutU32(v))
  {
    ScansOp32(PUSH_I32, v);
    OneByScan([PUSH_I32] + PutU32(v), PUSH_I32, Plain(PUSH_I32));
    SoundPlain(code, base, [PUSH_I32] + PutU32(v));
  }

  lemma SoundAt(code: seq<byte>, base: nat, p: nat, h: int, a: seq<byte>, lo: int, hi: int)
    requires SoundPiece(code, base, a) && At(code, p, a) && Level(code, base, p, h) && lo <= p && p + |a| <= hi
    ensures Sound(code, base, p, p + |a|, lo, hi)
  {
    hide Level, At;
    assert Sound(code, base, p, p + |a|, p, p + |a|);
  }

  // ----- the blocks -----

  lemma SoundNothing(code: seq<byte>, base: nat)
    ensures SoundPiece(code, base, [])
  {
  }

  lemma SoundConcat(code: seq<byte>, base: nat, a: seq<byte>, b: seq<byte>)
    requires SoundPiece(code, base, a) && SoundPiece(code, base, b) && Scanned(a)
    ensures SoundPiece(code, base, a + b)
  {
    hide Level, At, Sound, Scanned;
    forall p: nat, h | At(code, p, a + b) && Level(code, base, p, h)
      ensures Sound(code, base, p, p + |a + b|, p, p + |a + b|)
    {
      var lo, hi := p, p + |a + b|;
      AtSplit(code, p, a, b);
      LevelPiece(code, base, p, h, a);
      SoundAt(code, base, p, h, a, lo, hi);
      SoundAt(code, base, p + |a|, h, b, lo, hi);
      SoundJoin(code, base, p, p + |a|, p + |a| + |b|, lo, hi);
    }
  }

  lemma SoundGuarded(code: seq<byte>, base: nat, a: seq<byte>, check: bool)
    requires SoundPiece(code, base, a) && Scanned(a)
    ensures SoundPiece(code, base, Guarded(a, check)) && Scanned(Guarded(a, check))
  {
    var g := Guarded(a, check);
    if check {
      GuardedScanned(a);
      SoundOp(code, base, PUSH_CHAR_POS);
      SoundOp(code, base, CHECK_ADVANCE);
      hide Level, At, Sound, Scanned;
      forall p: nat, h | At(code, p, g) && Level(code, base, p, h)
        ensures Sound(code, base, p, p + |g|, p, p + |g|)
      {
        var lo, hi := p, p + |g|;
        GuardedLayout(code, p, a);
        LevelOp(code, base, p, h, PUSH_CHAR_POS);
        LevelPiece(code, base, p + 1, h + 1, a);
        SoundAt(code, base, p, h, [PUSH_CHAR_POS], lo, hi);
        SoundAt(code, base, p + 1, h + 1, a, lo, hi);
        SoundAt(code, base, p + 1 + |a|, h + 1, [CHECK_ADVANCE], lo, hi);
        SoundJoin(code, base, p, p + 1, p + 1 + |a|, lo, hi);
        SoundJoin(code, base, p, p + 1 + |a|, p + 2 + |a|, lo, hi);
      }
    }
  }

  lemma GuardedScanned(a: seq<byte>)
    requires Scanned(a)
    ensures Scanned(Guarded(a, true))
  {
    ScansGuarded(a, Ops(a, 0), Need(a), true);
    ScannedBy(Guarded(a, true), [PUSH_CHAR_POS] + Ops(a, 0) + [CHECK_ADVANCE], Need(a) + 1);
  }

  lemma SoundOption(code: seq<byte>, base: nat, a: seq<byte>, greedy: bool, check: bool)
    requires |code| < TWO31 && SoundPiece(code, base, a) && Scanned(a)
    ensures SoundPiece(code, base, OptionBlock(a, greedy, check))
  {
    SoundGuarded(code, base, a, check);
    hide Level, At, Sound, Scanned, OptionBlock, Guarded;
    var g, block := Guarded(a, check), OptionBlock(a, greedy, check);
    forall p: nat, h | At(code, p, block) && Level(code, base, p, h)
      ensures Sound(code, base, p, p + |block|, p, p + |block|)
    {
      var lo, hi := p, p + |block|;
      OptionLayout(code, p, a, greedy, check);
      SoundSkip(code, base, p, h, g, greedy, lo, hi);
    }
  }

  lemma SoundSkip(code: seq<byte>, base: nat, p: nat, h: int, g: seq<byte>, greedy: bool, lo: int, hi: int)
    requires lo <= p && p + 5 + |g| <= hi
    requires SoundPiece(code, base, g) && Scanned(g) && Level(code, base, p, h)
    requires At(code, p, [SplitOp(greedy)] + PutU32(|g|)) && At(code, p + 5, g) && Int32(|g|)
    ensures Sound(code, base, p, p + 5 + |g|, lo, hi)
  {
    hide Level, At, Sound, Scanned, PutU32, SoundPiece;
    LevelOp32(code, base, p, h, SplitOp(greedy), |g|);
    LevelPiece(code, base, p + 5, h, g);
    SoundJump(code, base, p, h, SplitOp(greedy), |g|, lo, hi);
    SoundAt(code, base, p + 5, h, g, lo, hi);
    SoundJoin(code, base, p, p + 5, p + 5 + |g|, lo, hi);
  }

  lemma SoundStar(code: seq<byte>, base: nat, a: seq<byte>, greedy: bool, check: bool)
    requires |code| < TWO31 && SoundPiece(code, base, a) && Scanned(a)
    ensures SoundPiece(code, base, StarBlock(a, greedy, check))
  {
    SoundGuarded(code, base, a, check);
    hide Level, At, Sound, Scanned, StarBlock, Guarded;
    var g, block := Guarded(a, check), StarBlock(a, greedy, check);
    forall p: nat, h | At(code, p, block) && Level(code, base, p, h)
      ensures Sound(code, base, p, p + |block|, p, p + |block|)
    {
      var lo, hi := p, p + |block|;
      StarLayout(code, p, a, greedy, check);
      SoundRepeat(code, base, p, h, g, greedy, lo, hi);
    }
  }

  lemma SoundRepeat(code: seq<byte>, base: nat, p: nat, h: int, g: seq<byte>, greedy: bool, lo: int, hi: int)
    requires lo <= p && p + 10 + |g| <= hi
    requires SoundPiece(code, base, g) && Scanned(g) && Level(code, base, p, h)
    requires At(code, p, [SplitOp(greedy)] + PutU32(|g| + 5)) && At(code, p + 5, g) && Int32(|g| + 5)
             && Int32(-(|g| + 10))
    requires At(code, p + 5 + |g|, [GOTO] + PutU32(-(|g| + 10)))
    ensures Sound(code, base, p, p + 10 + |g|, lo, hi)
  {
    hide Level, At, Sound, Scanned, PutU32, SoundPiece;
    var q := p + 5 + |g|;
    LevelOp32(code, base, p, h, SplitOp(greedy), |g| + 5);
    LevelPiece(code, base, p + 5, h, g);
    LevelOp32(code, base, q, h, GOTO, -(|g| + 10));
    SoundJump(code, base, p, h, SplitOp(greedy), |g| + 5, lo, hi);
    SoundAt(code, base, p + 5, h, g, lo, hi);
    SoundJump(code, base, q, h, GOTO, -(|g| + 10), lo, hi);
    SoundJoin(code, base, p, p + 5, q, lo, hi);
    SoundJoin(code, base, p, q, q + 5, lo, hi);
  }

  lemma SoundUpTo(code: seq<byte>, base: nat, a: seq<byte>, greedy: bool, check: bool, n: int)
    requires |code| < TWO31 && SoundPiece(code, base, a) && Scanned(a)
    ensures SoundPiece(code, base, UpToBlock(a, greedy, check, n))
  {
    SoundGuarded(code, base, a, check);
    SoundPush(code, base, n);
    SoundOp(code, base, DROP);
    hide Level, At, Sound, Scanned, UpToBlock, Guarded, PutU32;
    var g, block := Guarded(a, check), UpToBlock(a, greedy, check, n);
    forall p: nat, h | At(code, p, block) && Level(code, base, p, h)
      ensures Sound(code, base, p, p + |block|, p, p + |block|)
    {
      var lo, hi := p, p + |block|;
      UpToLayout(code, p, a, greedy, check, n);
      SoundPushed(code, base, p, h, g, greedy, n, lo, hi);
    }
  }

  lemma SoundPushed(code: seq<byte>, base: nat, p: nat, h: int, g: seq<byte>, greedy: bool, n: int, lo: int, hi: int)
    requires lo <= p && p + 16 + |g| <= hi
    requires SoundPiece(code, base, g) && Scanned(g) && SoundPiece(code, base, [DROP])
             && SoundPiece(code, base, [PUSH_I32] + PutU32(n))
    requires Level(code, base, p, h) && At(code, p, [PUSH_I32] + PutU32(n))
    requires At(code, p + 5, [SplitOp(greedy)] + PutU32(|g| + 5)) && At(code, p + 10, g) && Int32(|g| + 5)
             && Int32(-(|g| + 10))
    requires At(code, p + 10 + |g|, [LOOP] + PutU32(-(|g| + 10))) && At(code, p + 15 + |g|, [DROP])
    ensures Sound(code, base, p, p + 16 + |g|, lo, hi)
  {
    hide Level, At, Sound, Scanned, PutU32, SoundPiece;
    LevelOp32(code, base, p, h, PUSH_I32, n);
    SoundAt(code, base, p, h, [PUSH_I32] + PutU32(n), lo, hi);
    SoundCounted(code, base, p + 5, h + 1, g, greedy, lo, hi);
    SoundJoin(code, base, p, p + 5, p + 16 + |g|, lo, hi);
  }

  /** The loop whose counter is on the operand stack. */
  lemma SoundCounted(code: seq<byte>, base: nat, p: nat, h: int, g: seq<byte>, greedy: bool, lo: int, hi: int)
    requires lo <= p && p + 11 + |g| <= hi
    requires SoundPiece(code, base, g) && Scanned(g) && SoundPiece(code, base, [DROP]) && Level(code, base, p, h)
    requires At(code, p, [SplitOp(greedy)] + PutU32(|g| + 5)) && At(code, p + 5, g) && Int32(|g| + 5)
             && Int32(-(|g| + 10))
    requires At(code, p + 5 + |g|, [LOOP] + PutU32(-(|g| + 10))) && At(code, p + 10 + |g|, [DROP])
    ensures Sound(code, base, p, p + 11 + |g|, lo, hi)
  {
    hide Level, At, Sound, Scanned, PutU32, SoundPiece;
    var q := p + 5 + |g|;
    LevelOp32(code, base, p, h, SplitOp(greedy), |g| + 5);
    LevelPiece(code, base, p + 5, h, g);
    LevelOp32(code, base, q, h, LOOP, -(|g| + 10));
    SoundJump(code, base, p, h, SplitOp(greedy), |g| + 5, lo, hi);
    SoundAt(code, base, p + 5, h, g, lo, hi);
    SoundJump(code, base, q, h, LOOP, -(|g| + 10), lo, hi);
    SoundAt(code, base, q + 5, h, [DROP], lo, hi);
    SoundJoin(code, base, p, p + 5, q, lo, hi);
    SoundJoin(code, base, p, q, q + 5, lo, hi);
    SoundJoin(code, base, p, q + 5, q + 6, lo, hi);
  }

  lemma SoundExact(code: seq<byte>, base: nat, a: seq<byte>, n: int)
    requires |code| < TWO31 && SoundPiece(code, base, a) && Scanned(a)
    ensures SoundPiece(code, base, ExactBlock(a, n))
  {
    SoundPush(code, base, n);
    SoundOp(code, base, DROP);
    hide Level, At, Sound, Scanned, ExactBlock, PutU32;
    var block := ExactBlock(a, n);
    forall p: nat, h | At(code, p, block) && Level(code, base, p, h)
      ensures Sound(code, base, p, p + |block|, p, p + |block|)
    {
      var lo, hi := p, p + |block|;
      ExactLayout(code, p, a, n);
      LevelOp32(code, base, p, h, PUSH_I32, n);
      SoundAt(code, base, p, h, [PUSH_I32] + PutU32(n), lo, hi);
      SoundTimes(code, base, p + 5, h + 1, a, lo, hi);
      SoundJoin(code, base, p, p + 5, p + 11 + |a|, lo, hi);
    }
  }

  lemma SoundTimes(code: seq<byte>, base: nat, p: nat, h: int, a: seq<byte>, lo: int, hi: int)
    requires lo <= p && p + 6 + |a| <= hi
    requires SoundPiece(code, base, a) && Scanned(a) && SoundPiece(code, base, [DROP]) && Level(code, base, p, h)
    requires At(code, p, a) && At(code, p + |a|, [LOOP] + PutU32(-(|a| + 5))) && At(code, p + 5 + |a|, [DROP])
             && Int32(-(|a| + 5))
    ensures Sound(code, base, p, p + 6 + |a|, lo, hi)
  {
    hide Level, At, Sound, Scanned, PutU32, SoundPiece;
    var q := p + |a|;
    LevelPiece(code, base, p, h, a);
    LevelOp32(code, base, q, h, LOOP, -(|a| + 5));
    SoundAt(code, base, p, h, a, lo, hi);
    SoundJump(code, base, q, h, LOOP, -(|a| + 5), lo, hi);
    SoundAt(code, base, q + 5, h, [DROP], lo, hi);
    SoundJoin(code, base, p, q, q + 5, lo, hi);
    SoundJoin(code, base, p, q + 5, q + 6, lo, hi);
  }

  lemma SoundPlus(code: seq<byte>, base: nat, a: seq<byte>, greedy: bool)
    requires |code| < TWO31 && SoundPiece(code, base, a) && Scanned(a)
    ensures SoundPiece(code, base, PlusBlock(a, greedy))
  {
    hide Level, At, Sound, Scanned, PlusBlock, PutU32;
    var block := PlusBlock(a, greedy);
    forall p: nat, h | At(code, p, block) && Level(code, base, p, h)
      ensures Sound(code, base, p, p + |block|, p, p + |block|)
    {
      var lo, hi := p, p + |block|;
      PlusLayout(code, p, a, greedy);
      LevelPiece(code, base, p, h, a);
      SoundAt(code, base, p, h, a, lo, hi);
      SoundJump(code, base, p + |a|, h, SplitOp(!greedy), -(|a| + 5), lo, hi);
      SoundJoin(code, base, p, p + |a|, p + |a| + 5, lo, hi);
    }
  }

  lemma SoundLook(code: seq<byte>, base: nat, negated: bool, body: seq<byte>)
    requires |code| < TWO31 && SoundPiece(code, base, body) && Scanned(body)
    ensures SoundPiece(code, base, LookCode(negated, body))
  {
    SoundOp(code, base, MATCH);
    hide Level, At, Sound, Scanned, LookCode, PutU32;
    var block := LookCode(negated, body);
    forall p: nat, h | At(code, p, block) && Level(code, base, p, h)
      ensures Sound(code, base, p, p + |block|, p, p + |block|)
    {
      LookLayout(code, p, negated, body);
      LevelOp32(code, base, p, h, LookOp(negated), |body| + 1);
      SoundBody(code, base, p + 5, h, body, p, p + |block|);
      SoundJump(code, base, p, h, LookOp(negated), |body| + 1, p, p + |block|);
      SoundJoin(code, base, p, p + 5, p + 6 + |body|, p, p + |block|);
    }
  }

  /** Code that ends with a match of its own. */
  lemma SoundBody(code: seq<byte>, base: nat, p: nat, h: int, body: seq<byte>, lo: int, hi: int)
    requires SoundPiece(code, base, body) && SoundPiece(code, base, [MATCH]) && Scanned(body)
    requires Level(code, base, p, h) && At(code, p, body) && At(code, p + |body|, [MATCH])
    requires lo <= p && p + |body| + 1 <= hi
    ensures Level(code, base, p + |body| + 1, h) && Sound(code, base, p, p + |body| + 1, lo, hi)
  {
    hide Level, At, Sound, Scanned, SoundPiece;
    LevelPiece(code, base, p, h, body);
    LevelOp(code, base, p + |body|, h, MATCH);
    SoundAt(code, base, p, h, body, lo, hi);
    SoundAt(code, base, p + |body|, h, [MATCH], lo, hi);
    SoundJoin(code, base, p, p + |body|, p + |body| + 1, lo, hi);
  }

  lemma SoundEither(code: seq<byte>, base: nat, left: seq<byte>, right: seq<byte>)
    requires |code| < TWO31 && SoundPiece(code, base, left) && Scanned(left) && SoundPiece(code, base, right)
             && Scanned(right)
    ensures SoundPiece(code, base, EitherCode(left, right))
  {
    hide Level, At, Sound, Scanned, EitherCode, PutU32;
    var block := EitherCode(left, right);
    forall p: nat, h | At(code, p, block) && Level(code, base, p, h)
      ensures Sound(code, base, p, p + |block|, p, p + |block|)
    {
      var lo, hi := p, p + |block|;
      EitherLayout(code, p, left, right);
      var q := p + 10 + |left|;
      LevelOp32(code, base, p, h, SPLIT_NEXT_FIRST, |left| + 5);
      LevelPiece(code, base, p + 5, h, left);
      LevelOp32(code, base, p + 5 + |left|, h, GOTO, |right|);
      LevelPiece(code, base, q, h, right);
      SoundJump(code, base, p, h, SPLIT_NEXT_FIRST, |left| + 5, lo, hi);
      SoundAt(code, base, p + 5, h, left, lo, hi);
      SoundJump(code, base, p + 5 + |left|, h, GOTO, |right|, lo, hi);
      SoundAt(code, base, q, h, right, lo, hi);
      SoundJoin(code, base, p, p + 5, p + 5 + |left|, lo, hi);
      SoundJoin(code, base, p, p + 5 + |left|, q, lo, hi);
      SoundJoin(code, base, p, q, q + |right|, lo, hi);
    }
  }

  lemma SoundSimple(code: seq<byte>, base: nat, a: seq<byte>, min: int, max: int, length: int)
    requires |code| < TWO31 && SoundPiece(code, base, a) && Scanned(a)
    requires 0 <= min < TWO31 && 0 <= max < TWO31 && 0 <= length <= |a|
    ensures SoundPiece(code, base, SimpleBlock(a, min, max, length))
  {
    SoundOp(code, base, MATCH);
    var head := [SIMPLE_GREEDY_QUANT] + PutU32(|a| + 1) + PutU32(min) + PutU32(max) + PutU32(length);
    SimpleHead(a, min, max, length);
    hide Level, At, Sound, Scanned, SimpleBlock, PutU32, IsOne;
    var block := SimpleBlock(a, min, max, length);
    forall p: nat, h | At(code, p, block) && Level(code, base, p, h)
      ensures Sound(code, base, p, p + |block|, p, p + |block|)
    {
      AtSplit(code, p, head, a + [MATCH]);
      AtLength(code, p + 17, a + [MATCH]);
      SimpleLayout(code, p, a, min, max, length);
      SoundCall(code, base, p, h, head, a, p, p + |block|);
    }
  }

  lemma SoundCall(code: seq<byte>, base: nat, p: nat, h: int, head: seq<byte>, a: seq<byte>, lo: int, hi: int)
    requires SoundPiece(code, base, a) && SoundPiece(code, base, [MATCH]) && Scanned(a) && Level(code, base, p, h)
    requires |head| == 17 && head[0] == SIMPLE_GREEDY_QUANT && IsOne(head) && At(code, p, head)
    requires p + 17 <= |code| && GetI32(code, p + 1) == |a| + 1
    requires At(code, p + 17, a) && At(code, p + 17 + |a|, [MATCH]) && lo <= p && p + 18 + |a| <= hi
    ensures Sound(code, base, p, p + 18 + |a|, lo, hi)
  {
    hide Level, At, Sound, Scanned, IsOne, SoundPiece, GetI32;
    LevelOne(code, base, p, h, head);
    SoundBody(code, base, p + 17, h, a, lo, hi);
    SoundOne(code, base, p, h, head, lo, hi);
    SoundJoin(code, base, p, p + 17, p + 18 + |a|, lo, hi);
  }

  lemma SimpleHead(a: seq<byte>, min: int, max: int, length: int)
    ensures var head := [SIMPLE_GREEDY_QUANT] + PutU32(|a| + 1) + PutU32(min) + PutU32(max) + PutU32(length);
            && |head| == 17 && head[0] == SIMPLE_GREEDY_QUANT && IsOne(head)
            && SimpleBlock(a, min, max, length) == head + (a + [MATCH])
  {
    var head := [SIMPLE_GREEDY_QUANT] + PutU32(|a| + 1) + PutU32(min) + PutU32(max) + PutU32(length);
    hide PutU32;
    OneOp(head);
  }

  lemma SoundReset(code: seq<byte>, base: nat, first: int, end: int)
    ensures SoundPiece(code, base, ResetCode(first, end))
  {
    var r := ScansReset(first, end);
    if first != end {
      OneByScan(ResetCode(first, end), SAVE_RESET, Neutral);
      SoundPlain(code, base, ResetCode(first, end));
    } else {
      SoundNothing(code, base);
    }
  }

  lemma SoundCapture(code: seq<byte>, base: nat, back: bool, cap: int, body: seq<byte>)
    requires SoundPiece(code, base, body) && Scanned(body)
    ensures SoundPiece(code, base, CaptureCode(back, cap, body))
  {
    var open, close := [SaveOp(back), cap % 256], [SaveOp(!back), cap % 256];
    ScansOp8(SaveOp(back), cap % 256);
    ScansOp8(SaveOp(!back), cap % 256);
    ScannedBy(open, [SaveOp(back)], 0);
    OneByScan(open, SaveOp(back), Neutral);
    OneByScan(close, SaveOp(!back), Neutral);
    SoundPlain(code, base, open);
    SoundPlain(code, base, close);
    hide SoundPiece, Scanned;
    SoundConcat(code, base, open, body);
    ScannedConcat(open, body);
    SoundConcat(code, base, open + body, close);
  }

  lemma SoundStepping(code: seq<byte>, base: nat, back: bool, a: seq<byte>, op: byte)
    requires Scans(a, [op], Neutral) && IsCharOp(op)
    ensures SoundPiece(code, base, Stepping(back, a))
  {
    OneByScan(a, op, Neutral);
    SoundPlain(code, base, a);
    SoundOp(code, base, PREV);
    ScannedBy(a, [op], 0);
    ScansOp(PREV);
    ScannedBy([PREV], [PREV], 0);
    hide SoundPiece, Scanned;
    ScannedConcat([PREV], a);
    SoundConcat(code, base, [PREV], a);
    SoundConcat(code, base, [PREV] + a, [PREV]);
  }

  lemma SoundTail(code: seq<byte>, base: nat, a: seq<byte>, min: int, max: int, greedy: bool)
    requires |code| < TWO31 && SoundPiece(code, base, a) && Scanned(a) && 0 <= min <= max <= INFINITE
    ensures SoundPiece(code, base, GeneralTail(a, min, max, greedy))
  {
    var check := NeedCheck(a);
    hide SoundPiece, Scanned, OptionBlock, StarBlock, UpToBlock;
    if min == 0 && max == 1 { SoundOption(code, base, a, greedy, check); }
    else if max == INFINITE { SoundStar(code, base, a, greedy, check); }
    else if max > min { SoundUpTo(code, base, a, greedy, check, max - min); }
    else { SoundNothing(code, base); }
  }

  lemma SoundHead(code: seq<byte>, base: nat, a: seq<byte>, min: int, max: int, first: int, end: int)
    requires |code| < TWO31 && SoundPiece(code, base, a) && Scanned(a) && 0 <= min
    ensures SoundPiece(code, base, GeneralHead(a, min, max, first, end))
  {
    hide SoundPiece, Scanned, ExactBlock, ResetCode;
    if min == 0 { SoundReset(code, base, first, end); }
    else if min > 1 { SoundExact(code, base, a, min); }
  }

  lemma SoundQuantifier(code: seq<byte>, base: nat, a: seq<byte>, min: int, max: int, greedy: bool, first: int,
                        end: int)
    requires |code| < TWO31 && SoundPiece(code, base, a) && Scanned(a) && 0 <= min <= max <= INFINITE
    ensures SoundPiece(code, base, QuantifierCode(a, min, max, greedy, first, end))
  {
    hide SoundPiece, Scanned, SimpleBlock, PlusBlock, GeneralHead, GeneralTail, SimpleLength, GeneralCode, NeedCheck;
    if UsesSimpleBlock(a, max, greedy) {
      SimpleLengthBound(a);
      SoundSimple(code, base, a, min, max, SimpleLength(a));
    } else {
      GeneralParts(a, min, max, greedy, first, end);
      if min == 1 && max == INFINITE && !NeedCheck(a) {
        SoundPlus(code, base, a, greedy);
      } else {
        SoundHead(code, base, a, min, max, first, end);
        SoundTail(code, base, a, min, max, greedy);
        ScannedHead(a, min, max, first, end);
        SoundConcat(code, base, GeneralHead(a, min, max, first, end), GeneralTail(a, min, max, greedy));
      }
    }
  }

  // ----- the code of terms -----

  /** The code of every term is sound wherever it is put into code shorter than 2^31 bytes. */
  lemma {:induction false} TermSound(code: seq<byte>, base: nat, o: Options, t: Term, back: bool, cap: int)
    requires |code| < TWO31 && WellFormed(t)
    ensures SoundPiece(code, base, TermCode(o, t, back, cap))
    decreases t
  {
    hide SoundPiece, Scanned, Scans, QuantifierCode, CaptureCode, LookCode, Stepping, DisjunctionCode;
    match t {
      case LineStart => SoundOp(code, base, LINE_START);
      case LineEnd => SoundOp(code, base, LINE_END);
      case WordBoundary(negated) => SoundOp(code, base, if negated then NOT_WORD_BOUNDARY else WORD_BOUNDARY);
      case BackReference(i) =>
        ScansOp8(BackReferenceOp(back), i % 256);
        OneByScan([BackReferenceOp(back), i % 256], BackReferenceOp(back), Neutral);
        SoundPlain(code, base, [BackReferenceOp(back), i % 256]);
      case Group(d) => DisjunctionSound(code, base, o, d, back, cap);
      case Capture(d) =>
        DisjunctionSound(code, base, o, d, back, cap + 1);
        DisjunctionScanned(o, d, back, cap + 1);
        SoundCapture(code, base, back, cap, DisjunctionCode(o, d, back, cap + 1));
      case Look(negated, behind, d) =>
        DisjunctionSound(code, base, o, d, behind, cap);
        DisjunctionScanned(o, d, behind, cap);
        SoundLook(code, base, negated, DisjunctionCode(o, d, behind, cap));
      case Quantified(a, min, max, greedy) =>
        TermSound(code, base, o, a, back, cap);
        TermScanned(o, a, back, cap);
        SoundQuantifier(code, base, TermCode(o, a, back, cap), min, max, greedy, cap, cap + Captures(a));
      case _ =>
        OneCharScanned(o, t);
        SoundStepping(code, base, back, OneCharCode(o, t), OneCharCode(o, t)[0]);
    }
  }

  lemma {:induction false} SequenceSound(code: seq<byte>, base: nat, o: Options, ts: seq<Term>, back: bool, cap: int)
    requires |code| < TWO31 && SequenceWellFormed(ts)
    ensures SoundPiece(code, base, SequenceCode(o, ts, back, cap))
    decreases ts
  {
    hide SoundPiece, Scanned, TermCode;
    if |ts| == 0 {
      SoundNothing(code, base);
    } else {
      var init, last := ts[..|ts| - 1], ts[|ts| - 1];
      var head, tail := SequenceCode(o, init, back, cap), TermCode(o, last, back, cap + SequenceCaptures(init));
      SequenceSound(code, base, o, init, back, cap);
      TermSound(code, base, o, last, back, cap + SequenceCaptures(init));
      SequenceScanned(o, init, back, cap);
      TermScanned(o, last, back, cap + SequenceCaptures(init));
      SoundConcat(code, base, head, tail);
      SoundConcat(code, base, tail, head);
    }
  }

  lemma {:induction false} DisjunctionSound(code: seq<byte>, base: nat, o: Options, d: Disjunction, back: bool,
                                            cap: int)
    requires |code| < TWO31 && DisjunctionWellFormed(d)
    ensures SoundPiece(code, base, DisjunctionCode(o, d, back, cap))
    decreases d
  {
    hide SoundPiece, Scanned, SequenceCode, EitherCode;
    if |d| == 0 {
      SoundNothing(code, base);
    } else {
      var init, last := d[..|d| - 1], d[|d| - 1].terms;
      var left, right := DisjunctionCode(o, init, back, cap),
        SequenceCode(o, last, back, cap + DisjunctionCaptures(init));
      SequenceSound(code, base, o, last, back, cap + DisjunctionCaptures(init));
      if |d| > 1 {
        DisjunctionSound(code, base, o, init, back, cap);
        SequenceScanned(o, last, back, cap + DisjunctionCaptures(init));
        DisjunctionScanned(o, init, back, cap);
        SoundEither(code, base, left, right);
      }
    }
  }
}
