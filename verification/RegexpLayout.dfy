/** Where the parts of the emitted blocks lie. */
module RegexpLayout {
  import opened Bytes
  import opened RegexpOpcodes
  import opened RegexpCode
  import opened RegexpSteps

  lemma AtSplit3(b: seq<byte>, p: int, x: seq<byte>, y: seq<byte>, z: seq<byte>)
    requires At(b, p, x + y + z)
    ensures At(b, p, x) && At(b, p + |x|, y) && At(b, p + |x| + |y|, z)
  {
    AtSplit(b, p, x + y, z);
    AtSplit(b, p, x, y);
  }

  lemma GuardedLayout(b: seq<byte>, p: int, a: seq<byte>)
    requires At(b, p, Guarded(a, true))
    ensures At(b, p, [PUSH_CHAR_POS]) && At(b, p + 1, a) && At(b, p + 1 + |a|, [CHECK_ADVANCE])
  {
    AtSplit3(b, p, [PUSH_CHAR_POS], a, [CHECK_ADVANCE]);
  }

  lemma OptionLayout(b: seq<byte>, p: int, a: seq<byte>, greedy: bool, check: bool)
    requires At(b, p, OptionBlock(a, greedy, check)) && |b| < TWO31
    ensures var g := Guarded(a, check);
            && At(b, p, [SplitOp(greedy)] + PutU32(|g|)) && At(b, p + 5, g) && Int32(|g|)
            && |OptionBlock(a, greedy, check)| == |g| + 5
  {
    var g := Guarded(a, check);
    AtSplit(b, p, [SplitOp(greedy)] + PutU32(|g|), g);
  }

  lemma StarLayout(b: seq<byte>, p: int, a: seq<byte>, greedy: bool, check: bool)
    requires At(b, p, StarBlock(a, greedy, check)) && |b| < TWO31
    ensures var g := Guarded(a, check);
            && At(b, p, [SplitOp(greedy)] + PutU32(|g| + 5)) && At(b, p + 5, g)
            && At(b, p + 5 + |g|, [GOTO] + PutU32(-(|g| + 10)))
            && Int32(|g| + 5) && Int32(-(|g| + 10)) && |StarBlock(a, greedy, check)| == |g| + 10
  {
    var g := Guarded(a, check);
    var head, goto := [SplitOp(greedy)] + PutU32(|g| + 5), [GOTO] + PutU32(-(|g| + 10));
    assert StarBlock(a, greedy, check) == head + g + goto;
    AtSplit3(b, p, head, g, goto);
  }

  lemma UpToLayout(b: seq<byte>, p: int, a: seq<byte>, greedy: bool, check: bool, n: int)
    requires At(b, p, UpToBlock(a, greedy, check, n)) && |b| < TWO31
    ensures var g := Guarded(a, check);
            && At(b, p, [PUSH_I32] + PutU32(n)) && At(b, p + 5, [SplitOp(greedy)] + PutU32(|g| + 5)) && At(b, p + 10, g)
            && At(b, p + 10 + |g|, [LOOP] + PutU32(-(|g| + 10))) && At(b, p + 15 + |g|, [DROP])
            && Int32(|g| + 5) && Int32(-(|g| + 10)) && |UpToBlock(a, greedy, check, n)| == |g| + 16
  {
    var g := Guarded(a, check);
    var push, head, loop := [PUSH_I32] + PutU32(n), [SplitOp(greedy)] + PutU32(|g| + 5), [LOOP] + PutU32(-(|g| + 10));
    assert UpToBlock(a, greedy, check, n) == (push + head + g) + loop + [DROP];
    AtSplit3(b, p, push + head + g, loop, [DROP]);
    AtSplit3(b, p, push, head, g);
  }

  lemma ExactLayout(b: seq<byte>, p: int, a: seq<byte>, n: int)
    requires At(b, p, ExactBlock(a, n)) && |b| < TWO31
    ensures && At(b, p, [PUSH_I32] + PutU32(n)) && At(b, p + 5, a)
            && At(b, p + 5 + |a|, [LOOP] + PutU32(-(|a| + 5))) && At(b, p + 10 + |a|, [DROP])
            && Int32(-(|a| + 5)) && |ExactBlock(a, n)| == |a| + 11
  {
    var push, loop := [PUSH_I32] + PutU32(n), [LOOP] + PutU32(-(|a| + 5));
    assert ExactBlock(a, n) == (push + a) + loop + [DROP];
    AtSplit3(b, p, push + a, loop, [DROP]);
    AtSplit(b, p, push, a);
  }

  lemma PlusLayout(b: seq<byte>, p: int, a: seq<byte>, greedy: bool)
    requires At(b, p, PlusBlock(a, greedy)) && |b| < TWO31
    ensures At(b, p, a) && At(b, p + |a|, [SplitOp(!greedy)] + PutU32(-(|a| + 5))) && Int32(-(|a| + 5))
    ensures |PlusBlock(a, greedy)| == |a| + 5
  {
    assert PlusBlock(a, greedy) == a + ([SplitOp(!greedy)] + PutU32(-(|a| + 5)));
    AtSplit(b, p, a, [SplitOp(!greedy)] + PutU32(-(|a| + 5)));
  }

  lemma LookLayout(b: seq<byte>, p: int, negated: bool, body: seq<byte>)
    requires At(b, p, LookCode(negated, body)) && |b| < TWO31
    ensures At(b, p, [LookOp(negated)] + PutU32(|body| + 1)) && At(b, p + 5, body) && At(b, p + 5 + |body|, [MATCH])
    ensures Int32(|body| + 1) && |LookCode(negated, body)| == |body| + 6
  {
    AtSplit3(b, p, [LookOp(negated)] + PutU32(|body| + 1), body, [MATCH]);
  }

  lemma CaptureLayout(b: seq<byte>, p: int, back: bool, cap: int, body: seq<byte>)
    requires At(b, p, CaptureCode(back, cap, body))
    ensures At(b, p, [SaveOp(back), cap % 256]) && At(b, p + 2, body)
            && At(b, p + 2 + |body|, [SaveOp(!back), cap % 256])
    ensures |CaptureCode(back, cap, body)| == |body| + 4
  {
    AtSplit3(b, p, [SaveOp(back), cap % 256], body, [SaveOp(!back), cap % 256]);
  }

  lemma EitherLayout(b: seq<byte>, p: int, left: seq<byte>, right: seq<byte>)
    requires At(b, p, EitherCode(left, right)) && |b| < TWO31
    ensures At(b, p, [SPLIT_NEXT_FIRST] + PutU32(|left| + 5)) && At(b, p + 5, left)
    ensures At(b, p + 5 + |left|, [GOTO] + PutU32(|right|)) && At(b, p + 10 + |left|, right)
    ensures Int32(|left| + 5) && Int32(|right|) && |EitherCode(left, right)| == |left| + |right| + 10
  {
    var head, goto := [SPLIT_NEXT_FIRST] + PutU32(|left| + 5), [GOTO] + PutU32(|right|);
    assert EitherCode(left, right) == (head + left) + goto + right;
    AtSplit3(b, p, head + left, goto, right);
    AtSplit(b, p, head, left);
  }

  lemma SimpleLayout(b: seq<byte>, p: int, a: seq<byte>, min: int, max: int, length: int)
    requires At(b, p, SimpleBlock(a, min, max, length)) && |b| < TWO31
    requires 0 <= min < TWO31 && 0 <= max < TWO31 && 0 <= length < TWO31
    ensures p + 17 <= |b| && b[p] == SIMPLE_GREEDY_QUANT && GetI32(b, p + 1) == |a| + 1
    ensures GetU32(b, p + 5) == min && GetU32(b, p + 9) == max && GetU32(b, p + 13) == length
    ensures At(b, p + 17, a) && At(b, p + 17 + |a|, [MATCH]) && |SimpleBlock(a, min, max, length)| == |a| + 18
  {
    var op, next, lo, hi, len := [SIMPLE_GREEDY_QUANT], PutU32(|a| + 1), PutU32(min), PutU32(max), PutU32(length);
    AtSplit(b, p, op + next + lo + hi + len, a + [MATCH]);
    AtSplit3(b, p, op + next + lo, hi, len);
    AtSplit3(b, p, op, next, lo);
    AtSplit(b, p + 17, a, [MATCH]);
    AtByte(b, p, SIMPLE_GREEDY_QUANT);
    U32RoundTrip(b, p + 1, |a| + 1);
    U32RoundTrip(b, p + 5, min);
    U32RoundTrip(b, p + 9, max);
    U32RoundTrip(b, p + 13, length);
    Wrap32(min);
    Wrap32(max);
    Wrap32(length);
  }
}
