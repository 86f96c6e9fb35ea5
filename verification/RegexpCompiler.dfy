/**
 * The one-pass compiler: it appends bytecode to a buffer, and inserts into, copies and reorders what is already there.
 */
module RegexpCompiler {
  import opened Bytes
  import opened CharSets
  import opened RegexpOpcodes
  import opened RegexpSyntax
  import opened RegexpAnalysis
  import opened RegexpCode
  import RegexpClass

  class ParseState {
    var byteCode: seq<byte>
    var captureCount: nat
    const opts: Options

    constructor (opts: Options)
      ensures byteCode == [] && captureCount == 1 && this.opts == opts
    {
      this.opts := opts;
      byteCode := [];
      captureCount := 1;
    }

    // ----- DynBuf operations -----

    /** dbuf_insert: opens a gap of len bytes at pos. */
    method Insert(pos: nat, len: nat)
      requires pos <= |byteCode|
      modifies this`byteCode
      ensures |byteCode| == |old(byteCode)| + len
      ensures byteCode[..pos] == old(byteCode)[..pos] && byteCode[pos + len..] == old(byteCode)[pos..]
    {
      byteCode := byteCode[..pos] + seq(len, i => 0) + byteCode[pos..];
    }

    method PutByteAt(pos: nat, v: int)
      requires pos < |byteCode| && 0 <= v < 256
      modifies this`byteCode
      ensures byteCode == old(byteCode)[pos := v]
    {
      byteCode := byteCode[pos := v];
    }

    method PutU32At(pos: nat, v: int)
      requires pos + 4 <= |byteCode|
      modifies this`byteCode
      ensures byteCode == old(byteCode)[..pos] + PutU32(v) + old(byteCode)[pos + 4..]
    {
      byteCode := byteCode[..pos] + PutU32(v) + byteCode[pos + 4..];
    }

    method EmitOp(op: byte)
      modifies this`byteCode
      ensures byteCode == old(byteCode) + [op]
    {
      byteCode := byteCode + [op];
    }

    method EmitOpU8(op: byte, v: int)
      modifies this`byteCode
      ensures byteCode == old(byteCode) + [op, v % 256]
    {
      byteCode := byteCode + [op, v % 256];
    }

    method EmitOpU16(op: byte, v: int)
      modifies this`byteCode
      ensures byteCode == old(byteCode) + ([op] + PutU16(v))
    {
      byteCode := byteCode + ([op] + PutU16(v));
    }

    /** Returns the offset of the operand. */
    method EmitOpU32(op: byte, v: int) returns (pos: nat)
      modifies this`byteCode
      ensures byteCode == old(byteCode) + ([op] + PutU32(v))
      ensures pos == |old(byteCode)| + 1
    {
      pos := |byteCode| + 1;
      byteCode := byteCode + ([op] + PutU32(v));
    }

    /** Emits a jump to the offset target. */
    method EmitGoto(op: byte, target: int)
      modifies this`byteCode
      ensures byteCode == old(byteCode) + ([op] + PutU32(target - (|old(byteCode)| + 5)))
    {
      var pos := |byteCode| + 1;
      byteCode := byteCode + ([op] + PutU32(target - (pos + 4)));
    }

    /** dbuf_put_self: appends a copy of part of the buffer. */
    method PutSelf(offset: nat, len: nat)
      requires offset + len <= |byteCode|
      modifies this`byteCode
      ensures byteCode == old(byteCode) + old(byteCode)[offset..offset + len]
    {
      byteCode := byteCode + byteCode[offset..offset + len];
    }

    // ----- characters and classes -----

    method EmitChar(c: int)
      modifies this`byteCode
      ensures byteCode == old(byteCode) + CharCode(c)
    {
      if c <= 0x7f {
        EmitOpU8(CHAR8, c);
      } else if c <= 0xffff {
        EmitOpU16(CHAR16, c);
      } else {
        var _ := EmitOpU32(CHAR32, c);
      }
    }

    static method StoredHigh(v: int) returns (high: int)
      ensures high == RegexpClass.High16(v)
    {
      high := v - 1;
      if high == UINT32_MAX - 1 {
        high := 0xffff;
      }
    }

    method EmitPairs16(p: Points)
      requires |p| % 2 == 0
      modifies this`byteCode
      ensures byteCode == old(byteCode) + RegexpClass.Pairs16(p)
    {
      hide PutU16, RegexpClass.Pairs16, RegexpClass.High16;
      ghost var base := byteCode;
      PairsNone(p);
      var i := 0;
      while i < |p|
        invariant 0 <= i <= |p| && i % 2 == 0
        invariant byteCode == base + RegexpClass.Pairs16(p[..i])
      {
        PairsStep(p, i);
        var high := StoredHigh(p[i + 1]);
        byteCode := byteCode + PutU16(p[i]);
        byteCode := byteCode + PutU16(high);
        i := i + 2;
      }
      assert p[..i] == p;
    }

    method EmitPairs32(p: Points)
      requires |p| % 2 == 0
      modifies this`byteCode
      ensures byteCode == old(byteCode) + RegexpClass.Pairs32(p)
    {
      hide PutU32, RegexpClass.Pairs32;
      ghost var base := byteCode;
      PairsNone(p);
      var i := 0;
      while i < |p|
        invariant 0 <= i <= |p| && i % 2 == 0
        invariant byteCode == base + RegexpClass.Pairs32(p[..i])
      {
        PairsStep(p, i);
        byteCode := byteCode + PutU32(p[i]);
        byteCode := byteCode + PutU32(p[i + 1] - 1);
        i := i + 2;
      }
      assert p[..i] == p;
    }

    /** Emits the test of a class; fails when the set has too many intervals. */
    method EmitRange(p: Points) returns (ok: bool)
      requires |p| % 2 == 0
      modifies this`byteCode
      ensures ok == (|p| <= 2 * RegexpClass.MAX_INTERVALS)
      ensures ok ==> byteCode == old(byteCode) + RegexpClass.RangeCode(p)
    {
      hide PutU16, PutU32, RegexpClass.Pairs16, RegexpClass.Pairs32, RegexpClass.RangeCode;
      RangeCodeIs(p);
      var len := |p| / 2;
      if len >= 65535 {
        return false;
      }
      if len == 0 {
        var _ := EmitOpU32(CHAR32, -1);
      } else {
        var high := p[|p| - 1];
        if high == UINT32_MAX {
          high := p[|p| - 2];
        }
        if high <= 0xffff {
          EmitOpU16(RANGE, len);
          EmitPairs16(p);
        } else {
          EmitOpU16(RANGE32, len);
          EmitPairs32(p);
        }
      }
      return true;
    }

    // ----- quantifiers -----

    /** Opens a gap in front of the code at pos and stores the bytes `code` there. */
    method InsertCode(pos: nat, code: seq<byte>)
      requires pos <= |byteCode|
      modifies this`byteCode
      ensures byteCode == old(byteCode)[..pos] + code + old(byteCode)[pos..]
    {
      ghost var pre, rest := byteCode[..pos], byteCode[pos..];
      Insert(pos, |code|);
      assert byteCode == pre + byteCode[pos..pos + |code|] + rest;
      byteCode := byteCode[..pos] + code + byteCode[pos + |code|..];
    }

    /** A quantifier with minimum 0, other than {0}, on the atom that lies between start and the end of the buffer. */
    method EmitOptional(start: nat, max: int, greedy: bool, check: bool)
      requires start <= |byteCode| && 0 < max
      modifies this`byteCode
      ensures byteCode == old(byteCode)[..start] + OptionalBlock(old(byteCode)[start..], max, greedy, check)
    {
      hide OptionBlock, StarBlock, UpToBlock, PutU32;
      ghost var pre, a := byteCode[..start], byteCode[start..];
      var len := |byteCode| - start;
      var z := if check then 1 else 0;
      var guard := if check then [PUSH_CHAR_POS] else [];
      GuardedParts(a, check);
      BlockParts(pre, a, greedy, check, max);
      if max == 1 || max == INFINITE {
        var hasGoto := max == INFINITE;
        InsertCode(start, [SplitOp(greedy)] + PutU32(len + (if hasGoto then 5 else 0) + z * 2) + guard);
        if check {
          EmitOp(CHECK_ADVANCE);
        }
        if hasGoto {
          EmitGoto(GOTO, start);
        }
      } else {
        InsertCode(start, [PUSH_I32] + PutU32(max) + [SplitOp(greedy)] + PutU32(len + 5 + z * 2) + guard);
        if check {
          EmitOp(CHECK_ADVANCE);
        }
        EmitGoto(LOOP, start + 5);
        EmitOp(DROP);
      }
    }

    /** Appends the optional iterations of a quantifier with a positive minimum, with a copy of the atom at start. */
    method EmitMore(start: nat, len: nat, n: int, greedy: bool, check: bool)
      requires start + len <= |byteCode| && 0 < n
      modifies this`byteCode
      ensures byteCode == old(byteCode) + MoreBlock(old(byteCode)[start..start + len], n, greedy, check)
    {
      hide StarBlock, UpToBlock, PutU32, LoopStart, Guarded, Front;
      ghost var pre, a := byteCode, byteCode[start..start + len];
      GuardedParts(a, check);
      MoreParts(pre, a, greedy, check, n);
      var pos := EmitLoopStart(len, n, greedy, check);
      CopyUnchanged(pre, LoopStart(len, n, greedy, check), start, len);
      PutSelf(start, len);
      ghost var copied := byteCode;
      if check {
        EmitOp(CHECK_ADVANCE);
      }
      assert byteCode == copied + Tail(check);
      EmitLoopEnd(pos, n);
    }

    /** Emits what follows the copy of the atom. */
    method EmitLoopEnd(pos: nat, n: int)
      modifies this`byteCode
      ensures var jump := PutU32(pos - (|old(byteCode)| + 5));
              byteCode == if n == INFINITE then old(byteCode) + ([GOTO] + jump)
                else old(byteCode) + ([LOOP] + jump) + [DROP]
    {
      if n == INFINITE {
        EmitGoto(GOTO, pos);
      } else {
        EmitGoto(LOOP, pos);
        EmitOp(DROP);
      }
    }

    /** Emits what precedes the copy of the atom; returns the offset of the split. */
    method EmitLoopStart(len: nat, n: int, greedy: bool, check: bool) returns (pos: nat)
      modifies this`byteCode
      ensures byteCode == old(byteCode) + LoopStart(len, n, greedy, check)
      ensures pos == |old(byteCode)| + if n == INFINITE then 0 else 5
    {
      var z := if check then 1 else 0;
      if n != INFINITE {
        var _ := EmitOpU32(PUSH_I32, n);
      }
      pos := |byteCode|;
      var _ := EmitOpU32(SplitOp(greedy), len + 5 + z * 2);
      if check {
        EmitOp(PUSH_CHAR_POS);
      }
    }

    /**
     * The optimised form: the atom between start and the end of the buffer becomes a subroutine that ends in a match.
     */
    method EmitSimple(start: nat, min: int, max: int, length: int)
      requires start <= |byteCode|
      modifies this`byteCode
      ensures byteCode == old(byteCode)[..start] + SimpleBlock(old(byteCode)[start..], min, max, length)
    {
      hide PutU32;
      ghost var pre, a := byteCode[..start], byteCode[start..];
      EmitOp(MATCH);
      assert byteCode == pre + (a + [MATCH]);
      InsertCode(start, [SIMPLE_GREEDY_QUANT] + PutU32(|byteCode| - start) + PutU32(min) + PutU32(max)
                 + PutU32(length));
    }

    /** Repeats the atom between start and the end of the buffer n times. */
    method EmitExact(start: nat, n: int)
      requires start <= |byteCode|
      modifies this`byteCode
      ensures byteCode == old(byteCode)[..start] + ExactBlock(old(byteCode)[start..], n)
    {
      hide PutU32;
      ghost var pre, a := byteCode[..start], byteCode[start..];
      InsertCode(start, [PUSH_I32] + PutU32(n));
      EmitGoto(LOOP, start + 5);
      EmitOp(DROP);
    }

    /** The minimum 0: the captures of the atom are reset first. */
    method EmitFromZero(start: nat, firstCapture: nat, max: int, greedy: bool, check: bool)
      requires start <= |byteCode| && 0 <= max
      modifies this`byteCode
      ensures byteCode == old(byteCode)[..start] + ResetCode(firstCapture, captureCount)
                          + if max == 0 then [] else OptionalBlock(old(byteCode)[start..], max, greedy, check)
    {
      hide OptionalBlock;
      ghost var pre, a := byteCode[..start], byteCode[start..];
      var last := start;
      if firstCapture != captureCount {
        InsertCode(last, [SAVE_RESET, firstCapture % 256, (captureCount - 1) % 256]);
        last := last + 3;
      }
      assert byteCode[..last] == pre + ResetCode(firstCapture, captureCount) && byteCode[last..] == a;
      if max == 0 {
        byteCode := byteCode[..last];
      } else {
        EmitOptional(last, max, greedy, check);
      }
    }

    /** A positive minimum: the first iterations, then a copy of the atom for the others. */
    method EmitFromOne(start: nat, min: int, max: int, greedy: bool, check: bool)
      requires start <= |byteCode| && 1 <= min <= max
      modifies this`byteCode
      ensures var a := old(byteCode)[start..];
              byteCode == old(byteCode)[..start] + (if min == 1 then a else ExactBlock(a, min))
                          + if max == INFINITE then MoreBlock(a, INFINITE, greedy, check)
                            else if max > min then MoreBlock(a, max - min, greedy, check)
                            else []
    {
      hide MoreBlock, PutU32;
      ghost var pre, a := byteCode[..start], byteCode[start..];
      var len := |byteCode| - start;
      var last := start;
      if min != 1 {
        EmitExact(last, min);
        last := last + 5;
        AtomOfExact(pre, a, min);
      }
      assert byteCode[last..last + len] == a;
      if max == INFINITE {
        EmitMore(last, len, INFINITE, greedy, check);
      } else if max > min {
        EmitMore(last, len, max - min, greedy, check);
      }
    }

    /** The quantifier part of re_parse_term, for the atom between start and the end of the buffer. */
    method EmitQuantifier(start: nat, firstCapture: nat, min: int, max: int, greedy: bool)
      requires start <= |byteCode| && 0 <= min <= max <= INFINITE
      modifies this`byteCode
      ensures byteCode == old(byteCode)[..start]
              + QuantifierCode(old(byteCode)[start..], min, max, greedy, firstCapture, captureCount)
    {
      hide PutU32, NeedCheck, SimpleLength, SimpleBlock, OptionBlock, StarBlock, UpToBlock, ExactBlock, ResetCode;
      ghost var pre, a := byteCode[..start], byteCode[start..];
      if greedy && max > 0 {
        var length := IsSimpleQuantifier(byteCode[start..]);
        if length > 0 {
          EmitSimple(start, min, max, length);
          return;
        }
      }
      var check := NeedCheckAdvance(byteCode[start..]);
      if min == 0 {
        EmitFromZero(start, firstCapture, max, greedy, check);
      } else if min == 1 && max == INFINITE && !check {
        EmitGoto(SplitOp(!greedy), start);
        assert byteCode == pre + PlusBlock(a, greedy);
      } else {
        EmitFromOne(start, min, max, greedy, check);
      }
    }

    // ----- terms, alternatives and disjunctions -----

    /** What the code generator can handle, in its present state. */
    ghost predicate Fits(wellFormed: bool, captures: nat)
      reads this
    {
      wellFormed && captureCount + captures <= CAPTURE_COUNT_MAX
    }

    method EmitOneChar(t: Term, back: bool) returns (ok: bool)
      requires Parsed(t) && (t.Dot? || t.Char? || t.Class?)
      modifies this`byteCode
      ensures ok <==> WellFormed(t)
      ensures ok ==> byteCode == old(byteCode) + TermCode(opts, t, back, captureCount)
    {
      hide PutU16, PutU32, RegexpClass.RangeCode, CharCode;
      ok := true;
      if back {
        EmitOp(PREV);
      }
      match t {
        case Dot => EmitOp(if opts.dotAll then ANY else DOT);
        case Char(c) => EmitChar(Fold(opts, c));
        case Class(p) => ok := EmitRange(p);
      }
      if back {
        EmitOp(PREV);
      }
    }

    /**
     * re_parse_term, on a term that has been read: fails on too many captures or on a class with too many intervals.
     */
    method EmitTerm(t: Term, back: bool) returns (ok: bool)
      requires Parsed(t) && captureCount <= CAPTURE_COUNT_MAX
      modifies this
      ensures ok <==> old(Fits(WellFormed(t), Captures(t)))
      ensures ok ==> byteCode == old(byteCode) + TermCode(opts, t, back, old(captureCount))
      ensures ok ==> captureCount == old(captureCount) + Captures(t)
      decreases t, 0
    {
      hide PutU32, QuantifierCode;
      ok := true;
      match t {
        case LineStart => EmitOp(LINE_START);
        case LineEnd => EmitOp(LINE_END);
        case WordBoundary(negated) => EmitOp(if negated then NOT_WORD_BOUNDARY else WORD_BOUNDARY);
        case BackReference(i) => EmitOpU8(BackReferenceOp(back), i);
        case Group(d) => ok := EmitDisjunction(d, back);
        case Capture(d) => ok := EmitCapture(d, back);
        case Look(negated, behind, d) => ok := EmitLook(negated, behind, d);
        case Quantified(a, min, max, greedy) =>
          var start, firstCapture := |byteCode|, captureCount;
          ghost var pre := byteCode;
          ok := EmitTerm(a, back);
          if ok {
            assert byteCode[..start] == pre && byteCode[start..] == TermCode(opts, a, back, firstCapture);
            EmitQuantifier(start, firstCapture, min, max, greedy);
          }
        case _ => ok := EmitOneChar(t, back);
      }
    }

    method EmitCapture(d: Disjunction, back: bool) returns (ok: bool)
      requires DisjunctionParsed(d) && captureCount <= CAPTURE_COUNT_MAX
      modifies this
      ensures ok <==> old(Fits(DisjunctionWellFormed(d), 1 + DisjunctionCaptures(d)))
      ensures ok ==> byteCode
                     == old(byteCode)
                        + CaptureCode(back, old(captureCount), DisjunctionCode(opts, d, back, old(captureCount) + 1))
      ensures ok ==> captureCount == old(captureCount) + 1 + DisjunctionCaptures(d)
      decreases d, 1
    {
      hide DisjunctionCode;
      if captureCount >= CAPTURE_COUNT_MAX {
        return false;
      }
      var captureIndex := captureCount;
      captureCount := captureCount + 1;
      EmitOpU8(SaveOp(back), captureIndex);
      ok := EmitDisjunction(d, back);
      EmitOpU8(SaveOp(!back), captureIndex);
    }

    method EmitLook(negated: bool, behind: bool, d: Disjunction) returns (ok: bool)
      requires DisjunctionParsed(d) && captureCount <= CAPTURE_COUNT_MAX
      modifies this
      ensures ok <==> old(Fits(DisjunctionWellFormed(d), DisjunctionCaptures(d)))
      ensures ok ==> byteCode == old(byteCode) + LookCode(negated, DisjunctionCode(opts, d, behind, old(captureCount)))
      ensures ok ==> captureCount == old(captureCount) + DisjunctionCaptures(d)
      decreases d, 1
    {
      hide DisjunctionCode, PutU32;
      ghost var pre := byteCode;
      var pos := EmitOpU32(LookOp(negated), 0);
      ok := EmitDisjunction(d, behind);
      if ok {
        EmitOp(MATCH);
        ghost var body := DisjunctionCode(opts, d, behind, old(captureCount));
        PatchOperand(pre, [LookOp(negated)], PutU32(0), body + [MATCH], byteCode, pos);
        // jump after the match when the lookahead has succeeded
        PutU32At(pos, |byteCode| - (pos + 4));
        assert byteCode == pre + [LookOp(negated)] + PutU32(|body| + 1) + (body + [MATCH]);
      }
    }

    /** re_parse_alternative: in the backward direction each term is moved in front of those emitted before it. */
    method EmitAlternative(ts: seq<Term>, back: bool) returns (ok: bool)
      requires SequenceParsed(ts) && captureCount <= CAPTURE_COUNT_MAX
      modifies this
      ensures ok <==> old(Fits(SequenceWellFormed(ts), SequenceCaptures(ts)))
      ensures ok ==> byteCode == old(byteCode) + SequenceCode(opts, ts, back, old(captureCount))
      ensures ok ==> captureCount == old(captureCount) + SequenceCaptures(ts)
      decreases ts, 1
    {
      hide TermCode, SequenceCode, SequenceCaptures, SequenceWellFormed, Captures, WellFormed;
      var start := |byteCode|;
      ghost var pre, cap := byteCode, captureCount;
      var i := 0;
      NoTerms(opts, ts, back, cap);
      while i < |ts|
        invariant 0 <= i <= |ts| && SequenceWellFormed(ts[..i])
        invariant captureCount == cap + SequenceCaptures(ts[..i]) <= CAPTURE_COUNT_MAX
        invariant byteCode == pre + SequenceCode(opts, ts[..i], back, cap)
      {
        ghost var done := SequenceCode(opts, ts[..i], back, cap);
        var termStart := |byteCode|;
        SequenceStep(opts, ts, i, back, cap);
        SequencePrefix(ts, i + 1);
        ok := EmitTerm(ts[i], back);
        if !ok {
          return false;
        }
        if back {
          var end := |byteCode|;
          var termSize := end - termStart;
          ghost var term := byteCode[termStart..];
          MoveToFront(start, end, termSize, pre, done, term);
        }
        i := i + 1;
      }
      assert ts[..i] == ts;
      return true;
    }

    /** Moves the last termSize bytes of the buffer to start, by way of a copy behind its end. */
    method MoveToFront(start: nat, end: nat, termSize: nat, ghost pre: seq<byte>, ghost done: seq<byte>,
                       ghost term: seq<byte>)
      requires byteCode == pre + done + term && start == |pre| && end == |byteCode| && termSize == |term|
      modifies this`byteCode
      ensures byteCode == pre + (term + done)
    {
      var gap := seq(termSize, i => 0);
      MovedToFront(byteCode, pre, done, term, gap);
      var room := byteCode[..start] + gap + byteCode[start..]; // memmove by termSize
      room := room[..start] + room[end..end + termSize] + room[start + termSize..]; // memcpy to start
      byteCode := room[..end];
    }

    method EmitNextAlternative(start: nat, ts: seq<Term>, back: bool, ghost pre: seq<byte>, ghost left: seq<byte>)
      returns (ok: bool)
      requires SequenceParsed(ts) && captureCount <= CAPTURE_COUNT_MAX && byteCode == pre + left && start == |pre|
      modifies this
      ensures ok <==> old(Fits(SequenceWellFormed(ts), SequenceCaptures(ts)))
      ensures ok ==> byteCode == pre + EitherCode(left, SequenceCode(opts, ts, back, old(captureCount)))
      ensures ok ==> captureCount == old(captureCount) + SequenceCaptures(ts)
      decreases ts, 2
    {
      hide SequenceCode, PutU32, SequenceWellFormed, SequenceCaptures;
      var len := |byteCode| - start;
      InsertCode(start, [SPLIT_NEXT_FIRST] + PutU32(len + 5));
      var pos := EmitOpU32(GOTO, 0);
      ghost var before := pre + ([SPLIT_NEXT_FIRST] + PutU32(|left| + 5)) + left;
      ghost var right := SequenceCode(opts, ts, back, captureCount);
      ok := EmitAlternative(ts, back);
      if ok {
        PatchOperand(before, [GOTO], PutU32(0), right, byteCode, pos);
        len := |byteCode| - (pos + 4);
        PutU32At(pos, len);
        assert byteCode == before + [GOTO] + PutU32(|right|) + right;
        EitherParts(pre, left, right);
      }
    }

    /**
     * re_parse_disjunction: a split is inserted before the alternatives so far and a jump over the next one is
     * appended.
     */
    method EmitDisjunction(d: Disjunction, back: bool) returns (ok: bool)
      requires DisjunctionParsed(d) && captureCount <= CAPTURE_COUNT_MAX
      modifies this
      ensures ok <==> old(Fits(DisjunctionWellFormed(d), DisjunctionCaptures(d)))
      ensures ok ==> byteCode == old(byteCode) + DisjunctionCode(opts, d, back, old(captureCount))
      ensures ok ==> captureCount == old(captureCount) + DisjunctionCaptures(d)
      decreases d, 0
    {
      hide SequenceCode, DisjunctionCode, PutU32, SequenceCaptures, SequenceWellFormed, DisjunctionCaptures,
        DisjunctionWellFormed, EitherCode;
      var start := |byteCode|;
      ghost var pre, cap := byteCode, captureCount;
      DisjunctionStep(opts, d, 0, back, cap);
      DisjunctionPrefix(d, 1);
      ok := EmitAlternative(d[0].terms, back);
      if !ok {
        return false;
      }
      var i := 1;
      while i < |d|
        invariant 1 <= i <= |d| && DisjunctionWellFormed(d[..i])
        invariant captureCount == cap + DisjunctionCaptures(d[..i]) <= CAPTURE_COUNT_MAX
        invariant byteCode == pre + DisjunctionCode(opts, d[..i], back, cap)
      {
        ghost var left := DisjunctionCode(opts, d[..i], back, cap);
        DisjunctionStep(opts, d, i, back, cap);
        DisjunctionPrefix(d, i + 1);
        ok := EmitNextAlternative(start, d[i].terms, back, pre, left);
        if !ok {
          return false;
        }
        i := i + 1;
      }
      assert d[..i] == d;
      return true;
    }
  }

  /** Where an operand that is patched later lies. */
  lemma PatchOperand(pre: seq<byte>, op: seq<byte>, operand: seq<byte>, rest: seq<byte>, code: seq<byte>, pos: int)
    requires code == pre + (op + operand) + rest && pos == |pre| + |op| && |operand| == 4
    ensures code[..pos] == pre + op && code[pos + 4..] == rest
  {
  }

  lemma EitherParts(pre: seq<byte>, left: seq<byte>, right: seq<byte>)
    ensures pre + EitherCode(left, right)
            == pre + ([SPLIT_NEXT_FIRST] + PutU32(|left| + 5)) + left + [GOTO] + PutU32(|right|) + right
  {
    hide PutU32;
  }

  lemma NoTerms(o: Options, ts: seq<Term>, back: bool, cap: int)
    ensures SequenceCode(o, ts[..0], back, cap) == [] && SequenceCaptures(ts[..0]) == 0 && SequenceWellFormed(ts[..0])
  {
    assert ts[..0] == [];
  }

  lemma SequenceStep(o: Options, ts: seq<Term>, i: nat, back: bool, cap: int)
    requires i < |ts|
    ensures var init := ts[..i];
            var head, tail := SequenceCode(o, init, back, cap), TermCode(o, ts[i], back, cap + SequenceCaptures(init));
            SequenceCode(o, ts[..i + 1], back, cap) == if back then tail + head else head + tail
    ensures SequenceCaptures(ts[..i + 1]) == SequenceCaptures(ts[..i]) + Captures(ts[i])
    ensures SequenceWellFormed(ts[..i + 1]) <==> SequenceWellFormed(ts[..i]) && WellFormed(ts[i])
  {
    hide TermCode, Captures, WellFormed;
    assert ts[..i + 1][..i] == ts[..i];
  }

  lemma DisjunctionStep(o: Options, d: Disjunction, i: nat, back: bool, cap: int)
    requires i < |d|
    ensures var init := d[..i];
            var right := SequenceCode(o, d[i].terms, back, cap + DisjunctionCaptures(init));
            DisjunctionCode(o, d[..i + 1], back, cap) == if i == 0 then right
              else EitherCode(DisjunctionCode(o, init, back, cap), right)
    ensures DisjunctionCaptures(d[..i + 1]) == DisjunctionCaptures(d[..i]) + SequenceCaptures(d[i].terms)
    ensures DisjunctionWellFormed(d[..i + 1]) <==> DisjunctionWellFormed(d[..i]) && SequenceWellFormed(d[i].terms)
    ensures i == 0 ==> DisjunctionCaptures(d[..i]) == 0 && DisjunctionWellFormed(d[..i])
  {
    hide SequenceCode, SequenceCaptures, SequenceWellFormed, EitherCode;
    assert d[..i + 1][..i] == d[..i];
  }

  function LoopStart(len: nat, n: int, greedy: bool, check: bool): (b: seq<byte>)
    ensures |b| == (if n == INFINITE then 5 else 10) + if check then 1 else 0
  {
    (if n == INFINITE then [] else [PUSH_I32] + PutU32(n))
      + ([SplitOp(greedy)] + PutU32(len + 5 + if check then 2 else 0)) + Front(check)
  }

  lemma AtomOfExact(pre: seq<byte>, a: seq<byte>, n: int)
    ensures |ExactBlock(a, n)| == |a| + 11
    ensures (pre + ExactBlock(a, n))[|pre| + 5..|pre| + 5 + |a|] == a
  {
    hide PutU32;
  }

  lemma MovedToFront(b: seq<byte>, pre: seq<byte>, done: seq<byte>, term: seq<byte>, gap: seq<byte>)
    requires b == pre + done + term && |gap| == |term|
    ensures var room := b[..|pre|] + gap + b[|pre|..];
            && |room| == |b| + |term|
            && (room[..|pre|] + room[|b|..|b| + |term|] + room[|pre| + |term|..])[..|b|] == pre + (term + done)
  {
    assert b[..|pre|] == pre && b[|pre|..] == done + term;
    var room := (pre + gap + done) + term;
    assert b[..|pre|] + gap + b[|pre|..] == room;
    assert room[|b|..|b| + |term|] == term && room[..|pre|] == pre && room[|pre| + |term|..] == done + term;
    assert pre + term + (done + term) == (pre + (term + done)) + term;
  }

  lemma RangeCodeIs(p: Points)
    ensures |p| < 2 ==> RegexpClass.RangeCode(p) == [CHAR32] + PutU32(-1)
    ensures |p| >= 2 ==>
              RegexpClass.RangeCode(p) ==
              if (if p[|p| - 1] == UINT32_MAX then p[|p| - 2] else p[|p| - 1]) <= 0xffff then
                [RANGE] + PutU16(|p| / 2) + RegexpClass.Pairs16(p)
              else [RANGE32] + PutU16(|p| / 2) + RegexpClass.Pairs32(p)
  {
    hide PutU16, PutU32, RegexpClass.Pairs16, RegexpClass.Pairs32;
  }

  lemma PairsNone(p: Points)
    ensures RegexpClass.Pairs16(p[..0]) == [] && RegexpClass.Pairs32(p[..0]) == []
  {
  }

  lemma PairsStep(p: Points, i: nat)
    requires i + 1 < |p|
    ensures RegexpClass.Pairs16(p[..i + 2])
            == RegexpClass.Pairs16(p[..i]) + PutU16(p[i]) + PutU16(RegexpClass.High16(p[i + 1]))
    ensures RegexpClass.Pairs32(p[..i + 2]) == RegexpClass.Pairs32(p[..i]) + PutU32(p[i]) + PutU32(p[i + 1] - 1)
  {
    assert p[..i + 2][..i] == p[..i];
  }

  function OptionalBlock(a: seq<byte>, max: int, greedy: bool, check: bool): seq<byte> {
    if max == 1 then OptionBlock(a, greedy, check)
    else if max == INFINITE then StarBlock(a, greedy, check)
    else UpToBlock(a, greedy, check, max)
  }

  function MoreBlock(a: seq<byte>, n: int, greedy: bool, check: bool): seq<byte> {
    if n == INFINITE then StarBlock(a, greedy, check) else UpToBlock(a, greedy, check, n)
  }

  lemma CopyUnchanged(pre: seq<byte>, more: seq<byte>, start: nat, len: nat)
    requires start + len <= |pre|
    ensures (pre + more)[start..start + len] == pre[start..start + len]
  {
  }

  function Tail(check: bool): seq<byte> { if check then [CHECK_ADVANCE] else [] }

  function Front(check: bool): seq<byte> { if check then [PUSH_CHAR_POS] else [] }

  lemma GuardedParts(a: seq<byte>, check: bool)
    ensures Guarded(a, check) == Front(check) + a + Tail(check)
    ensures |Guarded(a, check)| == |a| + if check then 2 else 0
  {
  }

  /** Appending left to right or as one block makes no difference. */
  lemma Assemble(pre: seq<byte>, x: seq<byte>, f: seq<byte>, a: seq<byte>, t: seq<byte>, y: seq<byte>)
    ensures pre + (x + f) + a + t + y == pre + (x + (f + a + t) + y)
  {
  }

  lemma BlockParts(pre: seq<byte>, a: seq<byte>, greedy: bool, check: bool, max: int)
    ensures var g := Guarded(a, check);
            && pre + OptionBlock(a, greedy, check)
              == pre + ([SplitOp(greedy)] + PutU32(|g|) + Front(check)) + a + Tail(check)
            && pre + StarBlock(a, greedy, check) ==
               pre + ([SplitOp(greedy)] + PutU32(|g| + 5) + Front(check)) + a + Tail(check)
                 + ([GOTO] + PutU32(-(|g| + 10)))
            && pre + UpToBlock(a, greedy, check, max) ==
               pre + ([PUSH_I32] + PutU32(max) + [SplitOp(greedy)] + PutU32(|g| + 5) + Front(check)) + a + Tail(check)
               + ([LOOP] + PutU32(-(|g| + 10))) + [DROP]
  {
    hide PutU32, Guarded;
    var g := Guarded(a, check);
    GuardedParts(a, check);
    var head, star, upTo := [SplitOp(greedy)] + PutU32(|g|), [SplitOp(greedy)] + PutU32(|g| + 5),
                            [PUSH_I32] + PutU32(max) + [SplitOp(greedy)] + PutU32(|g| + 5);
    var goto, loop := [GOTO] + PutU32(-(|g| + 10)), [LOOP] + PutU32(-(|g| + 10));
    Assemble(pre, head, Front(check), a, Tail(check), []);
    Assemble(pre, star, Front(check), a, Tail(check), goto);
    Assemble(pre, upTo, Front(check), a, Tail(check), loop);
    assert pre + OptionBlock(a, greedy, check) == pre + (head + g + []);
    assert pre + StarBlock(a, greedy, check) == pre + (star + g + goto);
    assert pre + UpToBlock(a, greedy, check, max) == pre + (upTo + g + loop) + [DROP];
  }

  lemma MoreParts(pre: seq<byte>, a: seq<byte>, greedy: bool, check: bool, n: int)
    ensures var g, b := Guarded(a, check), pre + LoopStart(|a|, n, greedy, check) + a + Tail(check);
            && (n == INFINITE ==> pre + StarBlock(a, greedy, check) == b + ([GOTO] + PutU32(-(|g| + 10))))
            && (n != INFINITE ==> pre + UpToBlock(a, greedy, check, n) == b + ([LOOP] + PutU32(-(|g| + 10))) + [DROP])
  {
    hide PutU32, Guarded, StarBlock, UpToBlock;
    BlockParts(pre, a, greedy, check, n);
    GuardedParts(a, check);
    var g := Guarded(a, check);
    var star, push := [SplitOp(greedy)] + PutU32(|g| + 5), [PUSH_I32] + PutU32(n);
    if n == INFINITE {
      assert star + Front(check) == LoopStart(|a|, n, greedy, check);
    } else {
      assert push + [SplitOp(greedy)] + PutU32(|g| + 5) + Front(check) == LoopStart(|a|, n, greedy, check);
    }
  }
}
