/** Steps at the instructions that read the input; they behave alike inside and outside of calls. */
module RegexpCharSteps {
  import opened Bytes
  import opened CharSets
  import opened RegexpOpcodes
  import opened RegexpSyntax
  import opened RegexpAnalysis
  import opened RegexpCode
  import opened RegexpSemantics
  import opened RegexpMachine
  import RegexpClass

  function In(p: int, x: MatchState, stack: seq<int>, k: seq<State>, f: seq<Frame>): Config {
    Run(Thread(p, x.pos, stack, x.captures, k, f))
  }

  function Reject(x: MatchState, stack: seq<int>, k: seq<State>, f: seq<Frame>): Config {
    if |f| == 0 then Unwind(k) else Return0(stack, x.captures, k, f)
  }

  /** The code of a one-character term, without the steps back of the backward direction. */
  function OneCharCode(o: Options, t: Term): (code: seq<byte>)
    requires IsOneChar(t)
  {
    match t
    case Dot => [if o.dotAll then ANY else DOT]
    case Char(c) => CharCode(Fold(o, c))
    case Class(p) => RegexpClass.RangeCode(p)
  }

  lemma LiteralTest(m: Machine, p: int, c: int, d: int)
    requires 0 <= c <= MAX_CODE_POINT && At(m.code, p, CharCode(c))
    ensures IsCharOp(m.code[p]) && OpSize(m.code, p) == |CharCode(c)| && !EmptyRange(m, p)
    ensures TestChar(m, p, d) <==> c == Fold(m.subject.opts, d)
  {
    var code := CharCode(c);
    assert m.code[p] == code[0];
    if c <= 0x7f {
      assert m.code[p + 1] == code[1];
    } else if c <= 0xffff {
      AtSplit(m.code, p, [CHAR16], PutU16(c));
      U16RoundTrip(m.code, p + 1, c);
      Wrap16(c);
    } else {
      AtSplit(m.code, p, [CHAR32], PutU32(c));
      U32RoundTrip(m.code, p + 1, c);
      Wrap32(c);
    }
  }

  lemma EmptyClassTest(m: Machine, p: int, d: int)
    requires At(m.code, p, [CHAR32] + PutU32(-1)) && 0 <= Fold(m.subject.opts, d) <= MAX_CODE_POINT
    ensures IsCharOp(m.code[p]) && OpSize(m.code, p) == 5 && !EmptyRange(m, p)
    ensures !TestChar(m, p, d)
  {
    AtSplit(m.code, p, [CHAR32], PutU32(-1));
    AtByte(m.code, p, CHAR32);
    U32RoundTrip(m.code, p + 1, -1);
    Wrap32(-1);
  }

  lemma ClassTest(m: Machine, p: int, points: Points, d: int)
    requires Canonical(points) && 2 <= |points| <= 2 * RegexpClass.MAX_INTERVALS
             && At(m.code, p, RegexpClass.RangeCode(points))
    requires 0 <= Fold(m.subject.opts, d) <= MAX_CODE_POINT
    ensures IsCharOp(m.code[p]) && OpSize(m.code, p) == |RegexpClass.RangeCode(points)| && !EmptyRange(m, p)
    ensures p + OpSize(m.code, p) <= |m.code|
    ensures TestChar(m, p, d) <==> Member(points, Fold(m.subject.opts, d))
  {
    RegexpClass.EmittedHeader(m.code, p, points);
    RegexpClass.ClassTestIsMembership(m.code, p, points, Fold(m.subject.opts, d));
  }

  /** The test made by the instruction is the one the term stands for. */
  lemma OneCharTest(m: Machine, p: int, t: Term, d: int)
    requires IsOneChar(t) && WellFormed(t) && OptionsOk(m.subject.opts) && At(m.code, p, OneCharCode(m.subject.opts, t))
    requires 0 <= d <= MAX_CODE_POINT
    ensures p < |m.code| && IsCharOp(m.code[p]) && OpSize(m.code, p) == |OneCharCode(m.subject.opts, t)|
            && !EmptyRange(m, p)
    ensures TestChar(m, p, d) <==> MatchesChar(m.subject.opts, t, d)
  {
    var o := m.subject.opts;
    match t {
      case Dot =>
        AtByte(m.code, p, if o.dotAll then ANY else DOT);
      case Char(c) =>
        LiteralTest(m, p, Fold(o, c), d);
      case Class(points) =>
        if |points| < 2 {
          EmptyClassTest(m, p, d);
          assert forall k :: !InInterval(points, k, Fold(o, d));
        } else {
          ClassTest(m, p, points, Fold(o, d));
          ClassTest(m, p, points, d);
        }
    }
  }

  lemma CharStep(m: Machine, p: int, t: Term, x: MatchState, s: seq<int>, k: seq<State>, f: seq<Frame>)
    requires IsOneChar(t) && WellFormed(t) && SubjectOk(m.subject) && Valid(m.subject, x)
    requires At(m.code, p, OneCharCode(m.subject.opts, t))
    ensures Step(m, In(p, x, s, k, f)) ==
            if x.pos < |m.subject.input| && MatchesChar(m.subject.opts, t, m.subject.input[x.pos])
            then In(p + |OneCharCode(m.subject.opts, t)|, x.(pos := x.pos + 1), s, k, f)
            else Reject(x, s, k, f)
  {
    OneCharTest(m, p, t, if x.pos < |m.subject.input| then m.subject.input[x.pos] else 0);
    hide TestChar, OpSize, EmptyRange, MatchesChar;
  }

  lemma PrevStep(m: Machine, p: int, x: MatchState, s: seq<int>, k: seq<State>, f: seq<Frame>)
    requires At(m.code, p, [PREV]) && Valid(m.subject, x)
    ensures Step(m, In(p, x, s, k, f)) ==
            if x.pos > 0 then In(p + 1, x.(pos := x.pos - 1), s, k, f) else Reject(x, s, k, f)
  {
    AtByte(m.code, p, PREV);
  }

  function AssertionOp(t: Term): byte {
    match t
    case LineStart => LINE_START
    case LineEnd => LINE_END
    case WordBoundary(negated) => if negated then NOT_WORD_BOUNDARY else WORD_BOUNDARY
    case _ => 0
  }

  lemma AssertionStep(m: Machine, p: int, t: Term, x: MatchState, s: seq<int>, k: seq<State>, f: seq<Frame>)
    requires t.LineStart? || t.LineEnd? || t.WordBoundary?
    requires At(m.code, p, [AssertionOp(t)]) && Valid(m.subject, x)
    ensures Step(m, In(p, x, s, k, f)) ==
            if AssertionHolds(m.subject, t, x.pos) then In(p + 1, x, s, k, f) else Reject(x, s, k, f)
  {
    AtByte(m.code, p, AssertionOp(t));
  }

  // ----- back references -----

  lemma {:induction false} CompareForwardMeans(s: Subject, p: int, end: int, q: int)
    requires 0 <= p <= end <= |s.input| && 0 <= q <= |s.input|
    ensures CompareForward(s, p, end, q) ==
            if q + (end - p) <= |s.input| && SameText(s, p, q, end - p) then q + (end - p) else -1
    decreases end - p
  {
    if p < end && q < |s.input| {
      assert Fold(s.opts, s.input[p]) == Fold(s.opts, s.input[q]) <==> SameAt(s, p, q, 0);
      if Fold(s.opts, s.input[p]) == Fold(s.opts, s.input[q]) {
        CompareForwardMeans(s, p + 1, end, q + 1);
        if q + (end - p) <= |s.input| {
          SameTextTail(s, p, q, end - p);
        }
      }
    }
  }

  lemma SameTextTail(s: Subject, p: int, q: int, n: int)
    requires 0 <= p && 0 <= q && p + n <= |s.input| && q + n <= |s.input| && n >= 1 && SameAt(s, p, q, 0)
    ensures SameText(s, p, q, n) <==> SameText(s, p + 1, q + 1, n - 1)
  {
    if SameText(s, p, q, n) {
      var p1, q1 := p + 1, q + 1;
      forall i | 0 <= i < n - 1 ensures SameAt(s, p1, q1, i) { assert SameAt(s, p, q, i + 1); }
    }
    if SameText(s, p + 1, q + 1, n - 1) {
      forall i | 0 <= i < n ensures SameAt(s, p, q, i) {
        if i > 0 { assert SameAt(s, p + 1, q + 1, i - 1); }
      }
    }
  }

  lemma {:induction false} CompareBackwardMeans(s: Subject, p: int, start: int, q: int)
    requires 0 <= start <= p <= |s.input| && 0 <= q <= |s.input|
    ensures CompareBackward(s, p, start, q) ==
            if q - (p - start) >= 0 && SameText(s, start, q - (p - start), p - start) then q - (p - start) else -1
    decreases p - start
  {
    if p > start && q > 0 {
      var n := p - start;
      if q - n >= 0 {
        assert Fold(s.opts, s.input[p - 1]) == Fold(s.opts, s.input[q - 1]) <==> SameAt(s, start, q - n, n - 1);
      }
      if Fold(s.opts, s.input[p - 1]) == Fold(s.opts, s.input[q - 1]) {
        CompareBackwardMeans(s, p - 1, start, q - 1);
      }
    }
  }

  lemma BackReferenceStep(m: Machine, p: int, index: int, back: bool, x: MatchState, s: seq<int>, k: seq<State>,
                          f: seq<Frame>)
    requires 0 <= index < 256 && At(m.code, p, [BackReferenceOp(back), index % 256]) && Valid(m.subject, x)
    ensures var ys := MatchBackReference(m.subject, index, back, x);
            Step(m, In(p, x, s, k, f)) == if |ys| == 0 then Reject(x, s, k, f) else In(p + 2, ys[0], s, k, f)
  {
    var part := [BackReferenceOp(back), index % 256];
    assert part[0] == m.code[p] && part[1] == index == m.code[p + 1];
    if index < m.subject.captureCount {
      var start, end := x.captures[2 * index], x.captures[2 * index + 1];
      if start != UNSET && end != UNSET && start <= end {
        if back {
          CompareBackwardMeans(m.subject, end, start, x.pos);
        } else {
          CompareForwardMeans(m.subject, start, end, x.pos);
        }
      }
    }
  }
}
