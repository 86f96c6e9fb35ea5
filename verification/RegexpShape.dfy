/** The emitted code under the linear scans: every piece is scanned cleanly and leaves the operand stack as it was. */
module RegexpShape {
  import opened Bytes
  import opened CharSets
  import opened RegexpOpcodes
  import opened RegexpAnalysis
  import opened RegexpCode
  import RegexpClass

  /** The operand stack that a piece of code needs on top of what is there. */
  function Need(a: seq<byte>): nat { ShapeOf(a).peak }

  /** A piece of code that scans as the opcodes ops with the shape s. */
  ghost predicate Scans(a: seq<byte>, ops: seq<byte>, s: Shape) {
    Clean(a, 0) && Ops(a, 0) == ops && ShapeOf(a) == s
  }

  lemma ScansConcat(a: seq<byte>, oa: seq<byte>, sa: Shape, b: seq<byte>, ob: seq<byte>, sb: Shape)
    requires Scans(a, oa, sa) && Scans(b, ob, sb)
    ensures Scans(a + b, oa + ob, Compose(sa, sb))
  {
    hide Ops, Clean, Net, Low, Peak;
    Glue(a, b);
  }

  function Plain(op: byte): Shape {
    Shape(Delta(op), Min(0, Delta(op)), Max(0, Delta(op)))
  }

  lemma ScansOp(op: byte)
    requires FixedSize(op) == 1
    ensures Scans([op], [op], Plain(op))
  {
    OneOp([op]);
  }

  lemma ScansOp32(op: byte, v: int)
    requires FixedSize(op) == 5
    ensures Scans([op] + PutU32(v), [op], Plain(op))
  {
    OneOp([op] + PutU32(v));
  }

  lemma ScansOp8(op: byte, v: byte)
    requires FixedSize(op) == 2
    ensures Scans([op, v], [op], Plain(op))
  {
    OneOp([op, v]);
  }

  const Neutral: Shape := Shape(0, 0, 0)

  lemma ScansGuarded(a: seq<byte>, ops: seq<byte>, n: nat, check: bool)
    requires Scans(a, ops, Shape(0, 0, n))
    ensures Scans(Guarded(a, check), if check then [PUSH_CHAR_POS] + ops + [CHECK_ADVANCE] else ops,
                  Shape(0, 0, if check then n + 1 else n))
  {
    if check {
      hide Scans;
      ScansOp(PUSH_CHAR_POS);
      ScansOp(CHECK_ADVANCE);
      ScansConcat([PUSH_CHAR_POS], [PUSH_CHAR_POS], Plain(PUSH_CHAR_POS), a, ops, Shape(0, 0, n));
      ScansConcat([PUSH_CHAR_POS] + a, [PUSH_CHAR_POS] + ops, Shape(1, 0, n + 1), [CHECK_ADVANCE], [CHECK_ADVANCE],
                  Plain(CHECK_ADVANCE));
    }
  }

  lemma ScansOption(a: seq<byte>, ops: seq<byte>, n: nat, greedy: bool, check: bool) returns (r: seq<byte>)
    requires Scans(a, ops, Shape(0, 0, n))
    ensures Scans(OptionBlock(a, greedy, check), r, Shape(0, 0, if check then n + 1 else n))
    ensures |r| > 0 && r[0] == SplitOp(greedy)
  {
    hide Scans;
    ScansGuarded(a, ops, n, check);
    var g := Guarded(a, check);
    var og := if check then [PUSH_CHAR_POS] + ops + [CHECK_ADVANCE] else ops;
    ScansOp32(SplitOp(greedy), |g|);
    ScansConcat([SplitOp(greedy)] + PutU32(|g|), [SplitOp(greedy)], Neutral, g, og,
                Shape(0, 0, if check then n + 1 else n));
    r := [SplitOp(greedy)] + og;
  }

  /** The split instruction and the guarded atom that begin a loop. */
  lemma ScansLoopStart(a: seq<byte>, ops: seq<byte>, n: nat, greedy: bool, check: bool) returns (r: seq<byte>)
    requires Scans(a, ops, Shape(0, 0, n))
    ensures Scans([SplitOp(greedy)] + PutU32(|Guarded(a, check)| + 5) + Guarded(a, check), r,
                  Shape(0, 0, if check then n + 1 else n))
    ensures |r| > 0 && r[0] == SplitOp(greedy)
  {
    hide Scans;
    ScansGuarded(a, ops, n, check);
    var g := Guarded(a, check);
    var og := if check then [PUSH_CHAR_POS] + ops + [CHECK_ADVANCE] else ops;
    ScansOp32(SplitOp(greedy), |g| + 5);
    ScansConcat([SplitOp(greedy)] + PutU32(|g| + 5), [SplitOp(greedy)], Neutral, g, og,
                Shape(0, 0, if check then n + 1 else n));
    r := [SplitOp(greedy)] + og;
  }

  lemma ScansStar(a: seq<byte>, ops: seq<byte>, n: nat, greedy: bool, check: bool) returns (r: seq<byte>)
    requires Scans(a, ops, Shape(0, 0, n))
    ensures Scans(StarBlock(a, greedy, check), r, Shape(0, 0, if check then n + 1 else n))
    ensures |r| > 0 && r[0] == SplitOp(greedy)
  {
    hide Scans;
    var g := Guarded(a, check);
    var start := ScansLoopStart(a, ops, n, greedy, check);
    ScansOp32(GOTO, -(|g| + 10));
    ScansConcat([SplitOp(greedy)] + PutU32(|g| + 5) + g, start, Shape(0, 0, if check then n + 1 else n),
                [GOTO] + PutU32(-(|g| + 10)), [GOTO], Neutral);
    r := start + [GOTO];
    assert StarBlock(a, greedy, check) == ([SplitOp(greedy)] + PutU32(|g| + 5) + g) + ([GOTO] + PutU32(-(|g| + 10)));
  }

  lemma ScansUpTo(a: seq<byte>, ops: seq<byte>, n: nat, greedy: bool, check: bool, count: int) returns (r: seq<byte>)
    requires Scans(a, ops, Shape(0, 0, n))
    ensures Scans(UpToBlock(a, greedy, check, count), r, Shape(0, 0, if check then n + 2 else n + 1))
    ensures |r| > 1 && r[1] == SplitOp(greedy)
  {
    hide Scans, PutU32, Guarded, UpToBlock;
    var g := Guarded(a, check);
    var k := if check then n + 1 else n;
    var start := ScansLoopStart(a, ops, n, greedy, check);
    var push, loop := [PUSH_I32] + PutU32(count), [LOOP] + PutU32(-(|g| + 10));
    var body := [SplitOp(greedy)] + PutU32(|g| + 5) + g;
    ScansOp32(PUSH_I32, count);
    ScansOp32(LOOP, -(|g| + 10));
    ScansOp(DROP);
    ScansConcat(push, [PUSH_I32], Plain(PUSH_I32), body, start, Shape(0, 0, k));
    ScansConcat(push + body, [PUSH_I32] + start, Shape(1, 0, k + 1), loop, [LOOP], Neutral);
    ScansConcat((push + body) + loop, ([PUSH_I32] + start) + [LOOP], Shape(1, 0, k + 1), [DROP], [DROP], Plain(DROP));
    r := (([PUSH_I32] + start) + [LOOP]) + [DROP];
    UpToParts(a, greedy, check, count);
  }

  lemma UpToParts(a: seq<byte>, greedy: bool, check: bool, count: int)
    ensures var g := Guarded(a, check);
            var push, loop := [PUSH_I32] + PutU32(count), [LOOP] + PutU32(-(|g| + 10));
            UpToBlock(a, greedy, check, count) == ((push + ([SplitOp(greedy)] + PutU32(|g| + 5) + g)) + loop) + [DROP]
  {
    hide PutU32, Guarded;
  }

  lemma ScansExact(a: seq<byte>, ops: seq<byte>, n: nat, count: int) returns (r: seq<byte>)
    requires Scans(a, ops, Shape(0, 0, n))
    ensures Scans(ExactBlock(a, count), r, Shape(0, 0, n + 1))
    ensures LOOP in r
  {
    hide Scans;
    var push, loop := [PUSH_I32] + PutU32(count), [LOOP] + PutU32(-(|a| + 5));
    ScansOp32(PUSH_I32, count);
    ScansOp32(LOOP, -(|a| + 5));
    ScansOp(DROP);
    ScansConcat(push, [PUSH_I32], Plain(PUSH_I32), a, ops, Shape(0, 0, n));
    ScansConcat(push + a, [PUSH_I32] + ops, Shape(1, 0, n + 1), loop, [LOOP], Neutral);
    ScansConcat((push + a) + loop, ([PUSH_I32] + ops) + [LOOP], Shape(1, 0, n + 1), [DROP], [DROP], Plain(DROP));
    r := (([PUSH_I32] + ops) + [LOOP]) + [DROP];
    assert r[|[PUSH_I32] + ops|] == LOOP;
    assert ExactBlock(a, count) == ((push + a) + loop) + [DROP];
  }

  lemma ScansPlus(a: seq<byte>, ops: seq<byte>, n: nat, greedy: bool) returns (r: seq<byte>)
    requires Scans(a, ops, Shape(0, 0, n))
    ensures Scans(PlusBlock(a, greedy), r, Shape(0, 0, n))
    ensures SplitOp(!greedy) in r
  {
    hide Scans;
    ScansOp32(SplitOp(!greedy), -(|a| + 5));
    ScansConcat(a, ops, Shape(0, 0, n), [SplitOp(!greedy)] + PutU32(-(|a| + 5)), [SplitOp(!greedy)], Neutral);
    r := ops + [SplitOp(!greedy)];
    assert r[|ops|] == SplitOp(!greedy);
    assert PlusBlock(a, greedy) == a + ([SplitOp(!greedy)] + PutU32(-(|a| + 5)));
  }

  lemma ScansSimple(a: seq<byte>, ops: seq<byte>, n: nat, min: int, max: int, length: int) returns (r: seq<byte>)
    requires Scans(a, ops, Shape(0, 0, n))
    ensures Scans(SimpleBlock(a, min, max, length), r, Shape(0, 0, n))
    ensures |r| > 0 && r[0] == SIMPLE_GREEDY_QUANT
  {
    hide Scans;
    var head := [SIMPLE_GREEDY_QUANT] + PutU32(|a| + 1) + PutU32(min) + PutU32(max) + PutU32(length);
    OneOp(head);
    assert Scans(head, [SIMPLE_GREEDY_QUANT], Neutral) by { assert head[0]
                                                           == SIMPLE_GREEDY_QUANT; ScansIs(head, SIMPLE_GREEDY_QUANT); }
    ScansOp(MATCH);
    ScansConcat(a, ops, Shape(0, 0, n), [MATCH], [MATCH], Neutral);
    ScansConcat(head, [SIMPLE_GREEDY_QUANT], Neutral, a + [MATCH], ops + [MATCH], Shape(0, 0, n));
    r := [SIMPLE_GREEDY_QUANT] + (ops + [MATCH]);
  }

  lemma ScansIs(code: seq<byte>, op: byte)
    requires |code| > 0 && code[0] == op && OpSize(code, 0) == |code|
    ensures Scans(code, [op], Plain(op))
  {
    OneOp(code);
  }

  lemma ScansReset(first: int, end: int) returns (r: seq<byte>)
    ensures Scans(ResetCode(first, end), r, Neutral)
    ensures r == if first != end then [SAVE_RESET] else []
  {
    if first != end {
      ScansIs(ResetCode(first, end), SAVE_RESET);
      r := [SAVE_RESET];
    } else {
      NoOps();
      r := [];
    }
  }

  lemma ScansChar(c: int)
    ensures Scans(CharCode(c), [CharCode(c)[0]], Neutral) && IsCharOp(CharCode(c)[0])
  {
    ScansIs(CharCode(c), CharCode(c)[0]);
  }

  lemma ScansRange(p: Points)
    requires Canonical(p) && |p| <= 2 * RegexpClass.MAX_INTERVALS
    ensures Scans(RegexpClass.RangeCode(p), [RegexpClass.RangeCode(p)[0]], Neutral)
            && IsCharOp(RegexpClass.RangeCode(p)[0])
  {
    hide Scans, RegexpClass.RangeCode, RegexpClass.Narrow;
    RangeSize(p);
    ScansIs(RegexpClass.RangeCode(p), RegexpClass.RangeCode(p)[0]);
  }

  lemma RangeSize(p: Points)
    requires Canonical(p) && |p| <= 2 * RegexpClass.MAX_INTERVALS
    ensures var code := RegexpClass.RangeCode(p);
            |code| > 0 && OpSize(code, 0) == |code| && (code[0] == CHAR32 || code[0] == RANGE || code[0] == RANGE32)
  {
    hide Canonical, RegexpClass.RangeCode, RegexpClass.Narrow, At, OpSize;
    var code := RegexpClass.RangeCode(p);
    RegexpClass.CanonicalEven(p);
    if |p| < 2 {
      EmptyRangeSize(p);
    } else {
      AtSelf(code);
      RegexpClass.EmittedHeader(code, 0, p);
      ClassOpSize(code);
    }
  }

  lemma EmptyRangeSize(p: Points)
    requires |p| < 2
    ensures var code := RegexpClass.RangeCode(p); |code| > 0 && OpSize(code, 0) == |code| && code[0] == CHAR32
  {
    hide PutU32;
  }

  lemma AtSelf(code: seq<byte>)
    ensures At(code, 0, code)
  {
  }

  lemma ClassOpSize(code: seq<byte>)
    requires |code| >= 3 && (code[0] == RANGE || code[0] == RANGE32)
    ensures OpSize(code, 0) == 3 + RegexpClass.Span(code[0] == RANGE32, GetU16(code, 1))
  {
    hide GetU16;
  }
}
