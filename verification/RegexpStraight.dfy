/** What the linear scans imply about the terms they look at. */
module RegexpStraight {
  import opened Bytes
  import opened RegexpOpcodes
  import opened RegexpSyntax
  import opened RegexpAnalysis
  import opened RegexpCode
  import opened RegexpShape

  ghost predicate Scanned(a: seq<byte>) {
    Scans(a, Ops(a, 0), Shape(0, 0, Need(a)))
  }

  lemma ScannedBy(a: seq<byte>, ops: seq<byte>, n: nat)
    requires Scans(a, ops, Shape(0, 0, n))
    ensures Scanned(a) && Ops(a, 0) == ops && Need(a) == n
  {
  }

  lemma ScannedConcat(a: seq<byte>, b: seq<byte>)
    requires Scanned(a) && Scanned(b)
    ensures Scanned(a + b) && Ops(a + b, 0) == Ops(a, 0) + Ops(b, 0) && Need(a + b) == Max(Need(a), Need(b))
  {
    hide Scans, Ops, Need;
    ScansConcat(a, Ops(a, 0), Shape(0, 0, Need(a)), b, Ops(b, 0), Shape(0, 0, Need(b)));
    ScannedBy(a + b, Ops(a, 0) + Ops(b, 0), Max(Need(a), Need(b)));
  }

  lemma ScannedStepping(back: bool, a: seq<byte>, op: byte)
    requires Scans(a, [op], Neutral)
    ensures Scanned(Stepping(back, a)) && Need(Stepping(back, a)) == 0
    ensures Ops(Stepping(back, a), 0) == if back then [PREV, op, PREV] else [op]
  {
    ScannedBy(a, [op], 0);
    if back {
      ScansOp(PREV);
      ScannedBy([PREV], [PREV], 0);
      ScannedConcat([PREV], a);
      ScannedConcat([PREV] + a, [PREV]);
    }
  }

  lemma ScannedCapture(back: bool, cap: int, body: seq<byte>)
    requires Scanned(body)
    ensures Scanned(CaptureCode(back, cap, body)) && Need(CaptureCode(back, cap, body)) == Need(body)
    ensures Ops(CaptureCode(back, cap, body), 0) == [SaveOp(back)] + Ops(body, 0) + [SaveOp(!back)]
  {
    ScansOp8(SaveOp(back), cap % 256);
    ScansOp8(SaveOp(!back), cap % 256);
    ScannedBy([SaveOp(back), cap % 256], [SaveOp(back)], 0);
    ScannedBy([SaveOp(!back), cap % 256], [SaveOp(!back)], 0);
    hide Scanned, Ops;
    ScannedConcat([SaveOp(back), cap % 256], body);
    ScannedConcat([SaveOp(back), cap % 256] + body, [SaveOp(!back), cap % 256]);
  }

  lemma ScannedLook(negated: bool, body: seq<byte>)
    requires Scanned(body)
    ensures Scanned(LookCode(negated, body)) && Need(LookCode(negated, body)) == Need(body)
    ensures |Ops(LookCode(negated, body), 0)| > 0 && Ops(LookCode(negated, body), 0)[0] == LookOp(negated)
  {
    var head := [LookOp(negated)] + PutU32(|body| + 1);
    ScansOp32(LookOp(negated), |body| + 1);
    ScansOp(MATCH);
    ScannedBy(head, [LookOp(negated)], 0);
    ScannedBy([MATCH], [MATCH], 0);
    hide Scanned, Ops;
    ScannedConcat(head, body);
    ScannedConcat(head + body, [MATCH]);
  }

  lemma ScannedEither(left: seq<byte>, right: seq<byte>)
    requires Scanned(left) && Scanned(right)
    ensures Scanned(EitherCode(left, right)) && Need(EitherCode(left, right)) == Max(Need(left), Need(right))
    ensures |Ops(EitherCode(left, right), 0)| > 0 && Ops(EitherCode(left, right), 0)[0] == SPLIT_NEXT_FIRST
  {
    var head, goto := [SPLIT_NEXT_FIRST] + PutU32(|left| + 5), [GOTO] + PutU32(|right|);
    ScansOp32(SPLIT_NEXT_FIRST, |left| + 5);
    ScansOp32(GOTO, |right|);
    ScannedBy(head, [SPLIT_NEXT_FIRST], 0);
    ScannedBy(goto, [GOTO], 0);
    hide Scanned, Ops;
    ScannedConcat(head, left);
    ScannedConcat(head + left, goto);
    ScannedConcat(head + left + goto, right);
    assert EitherCode(left, right) == ((head + left) + goto) + right;
  }

  /** The opcodes contain a jump, a call or a lookaround. */
  ghost predicate Branches(ops: seq<byte>) {
    exists i :: 0 <= i < |ops| && !IsCharOp(ops[i]) && !IsPassiveOp(ops[i])
  }

  lemma BranchesConcat(a: seq<byte>, b: seq<byte>)
    requires Branches(a) || Branches(b)
    ensures Branches(a + b)
  {
    if Branches(a) {
      var i :| 0 <= i < |a| && !IsCharOp(a[i]) && !IsPassiveOp(a[i]);
      assert (a + b)[i] == a[i];
    } else {
      var i :| 0 <= i < |b| && !IsCharOp(b[i]) && !IsPassiveOp(b[i]);
      assert (a + b)[|a| + i] == b[i];
    }
  }

  lemma ScannedStar(a: seq<byte>, greedy: bool, check: bool)
    requires Scanned(a)
    ensures Scanned(StarBlock(a, greedy, check)) && Branches(Ops(StarBlock(a, greedy, check), 0))
    ensures Need(StarBlock(a, greedy, check)) == Need(a) + if check then 1 else 0
  {
    var r := ScansStar(a, Ops(a, 0), Need(a), greedy, check);
    ScannedBy(StarBlock(a, greedy, check), r, if check then Need(a) + 1 else Need(a));
  }

  lemma ScannedOption(a: seq<byte>, greedy: bool, check: bool)
    requires Scanned(a)
    ensures Scanned(OptionBlock(a, greedy, check)) && Branches(Ops(OptionBlock(a, greedy, check), 0))
    ensures Need(OptionBlock(a, greedy, check)) == Need(a) + if check then 1 else 0
  {
    var r := ScansOption(a, Ops(a, 0), Need(a), greedy, check);
    ScannedBy(OptionBlock(a, greedy, check), r, if check then Need(a) + 1 else Need(a));
  }

  lemma ScannedUpTo(a: seq<byte>, greedy: bool, check: bool, n: int)
    requires Scanned(a)
    ensures Scanned(UpToBlock(a, greedy, check, n)) && Branches(Ops(UpToBlock(a, greedy, check, n), 0))
    ensures Need(UpToBlock(a, greedy, check, n)) == Need(a) + if check then 2 else 1
  {
    var r := ScansUpTo(a, Ops(a, 0), Need(a), greedy, check, n);
    ScannedBy(UpToBlock(a, greedy, check, n), r, if check then Need(a) + 2 else Need(a) + 1);
  }

  lemma ScannedExact(a: seq<byte>, n: int)
    requires Scanned(a)
    ensures Scanned(ExactBlock(a, n)) && Branches(Ops(ExactBlock(a, n), 0)) && Need(ExactBlock(a, n)) == Need(a) + 1
  {
    var r := ScansExact(a, Ops(a, 0), Need(a), n);
    ScannedBy(ExactBlock(a, n), r, Need(a) + 1);
    var i :| 0 <= i < |r| && r[i] == LOOP;
  }

  lemma ScannedPlus(a: seq<byte>, greedy: bool)
    requires Scanned(a)
    ensures Scanned(PlusBlock(a, greedy)) && Branches(Ops(PlusBlock(a, greedy), 0))
            && Need(PlusBlock(a, greedy)) == Need(a)
  {
    var r := ScansPlus(a, Ops(a, 0), Need(a), greedy);
    ScannedBy(PlusBlock(a, greedy), r, Need(a));
    var i :| 0 <= i < |r| && r[i] == SplitOp(!greedy);
  }

  lemma ScannedSimple(a: seq<byte>, min: int, max: int, length: int)
    requires Scanned(a)
    ensures Scanned(SimpleBlock(a, min, max, length)) && Branches(Ops(SimpleBlock(a, min, max, length), 0))
    ensures Need(SimpleBlock(a, min, max, length)) == Need(a)
  {
    var r := ScansSimple(a, Ops(a, 0), Need(a), min, max, length);
    ScannedBy(SimpleBlock(a, min, max, length), r, Need(a));
  }

  lemma ScannedEmpty()
    ensures Scanned([]) && Need([]) == 0 && Ops([], 0) == []
  {
    NoOps();
  }

  lemma ScannedReset(first: int, end: int)
    ensures Scanned(ResetCode(first, end)) && Need(ResetCode(first, end)) == 0
    ensures Ops(ResetCode(first, end), 0) == if first != end then [SAVE_RESET] else []
  {
    var r := ScansReset(first, end);
    ScannedBy(ResetCode(first, end), r, 0);
  }

  /** The part of a general quantifier that does the first min iterations, and the rest. */
  ghost function GeneralHead(a: seq<byte>, min: int, max: int, first: int, end: int): seq<byte> {
    if min == 0 then ResetCode(first, end) else if min == 1 then a else ExactBlock(a, min)
  }

  ghost function GeneralTail(a: seq<byte>, min: int, max: int, greedy: bool): seq<byte> {
    var check := NeedCheck(a);
    if min == 0 && max == 1 then OptionBlock(a, greedy, check)
    else if max == INFINITE then StarBlock(a, greedy, check)
    else if max > min then UpToBlock(a, greedy, check, max - min)
    else []
  }

  lemma GeneralParts(a: seq<byte>, min: int, max: int, greedy: bool, first: int, end: int)
    requires 0 <= min <= max <= INFINITE
    ensures GeneralCode(a, min, max, greedy, first, end) ==
            if min == 1 && max == INFINITE && !NeedCheck(a) then PlusBlock(a, greedy)
            else GeneralHead(a, min, max, first, end) + GeneralTail(a, min, max, greedy)
  {
    hide OptionBlock, StarBlock, UpToBlock, ExactBlock, PlusBlock, NeedCheck, ResetCode;
  }

  lemma ScannedTail(a: seq<byte>, min: int, max: int, greedy: bool)
    requires Scanned(a) && 0 <= min <= max <= INFINITE
    ensures Scanned(GeneralTail(a, min, max, greedy))
    ensures min < max || max == INFINITE ==> Branches(Ops(GeneralTail(a, min, max, greedy), 0))
    ensures min == max < INFINITE ==> GeneralTail(a, min, max, greedy) == []
  {
    var check := NeedCheck(a);
    hide OptionBlock, StarBlock, UpToBlock, Scanned, Branches;
    if min == 0 && max == 1 { ScannedOption(a, greedy, check); }
    else if max == INFINITE { ScannedStar(a, greedy, check); }
    else if max > min { ScannedUpTo(a, greedy, check, max - min); }
    else { ScannedEmpty(); }
  }

  lemma ScannedHead(a: seq<byte>, min: int, max: int, first: int, end: int)
    requires Scanned(a) && 0 <= min
    ensures Scanned(GeneralHead(a, min, max, first, end))
    ensures min > 1 ==> Branches(Ops(GeneralHead(a, min, max, first, end), 0))
  {
    hide ExactBlock, Scanned, Branches;
    if min == 0 { ScannedReset(first, end); }
    else if min > 1 { ScannedExact(a, min); }
  }

  /**
   * A quantifier that is predictable to the scans is {0}, which emits at most a reset, or {1}, which emits the atom.
   */
  lemma ScannedQuantifier(a: seq<byte>, min: int, max: int, greedy: bool, first: int, end: int)
    requires Scanned(a) && 0 <= min <= max <= INFINITE
    ensures Scanned(QuantifierCode(a, min, max, greedy, first, end))
    ensures var code := QuantifierCode(a, min, max, greedy, first, end);
            || Branches(Ops(code, 0))
            || (min == 0 && max == 0 && code == ResetCode(first, end))
            || (min == 1 && max == 1 && code == a)
  {
    hide ExactBlock, Scanned, Branches, SimpleBlock, PlusBlock, GeneralCode, GeneralTail, GeneralHead, ResetCode;
    if UsesSimpleBlock(a, max, greedy) {
      ScannedSimple(a, min, max, SimpleLength(a));
    } else {
      GeneralParts(a, min, max, greedy, first, end);
      if min == 1 && max == INFINITE && !NeedCheck(a) {
        ScannedPlus(a, greedy);
      } else {
        GeneralQuantifier(a, min, max, greedy, first, end);
      }
    }
  }

  lemma GeneralQuantifier(a: seq<byte>, min: int, max: int, greedy: bool, first: int, end: int)
    requires Scanned(a) && 0 <= min <= max <= INFINITE
    ensures var code := GeneralHead(a, min, max, first, end) + GeneralTail(a, min, max, greedy);
            && Scanned(code)
            && (|| Branches(Ops(code, 0))
                || (min == 0 && max == 0 && code == ResetCode(first, end))
                || (min == 1 && max == 1 && code == a))
  {
    var head, tail := GeneralHead(a, min, max, first, end), GeneralTail(a, min, max, greedy);
    ScannedHead(a, min, max, first, end);
    ScannedTail(a, min, max, greedy);
    ScannedConcat(head, tail);
    hide Scanned, Branches, GeneralTail, ResetCode, ExactBlock, Ops;
    if min > 1 || min < max || max == INFINITE {
      BranchesConcat(Ops(head, 0), Ops(tail, 0));
    } else {
      assert head + tail == head;
    }
  }
}
