/**
 * Terms that the compiler takes for simple: they match at most one way, consume a fixed number of characters, and their
 * code runs straight through without saving states.
 */
module RegexpSimple {
  import opened Bytes
  import opened RegexpOpcodes
  import opened RegexpSyntax
  import opened RegexpAnalysis
  import opened RegexpCode
  import opened RegexpSemantics
  import opened RegexpMachine
  import opened RegexpCharSteps
  import opened RegexpShape
  import opened RegexpStraight
  import opened RegexpPrediction

  ghost predicate IsSimple(code: seq<byte>) { SimpleLength(code) >= 0 }

  lemma SimpleConcat(a: seq<byte>, b: seq<byte>)
    requires Scanned(a) && Scanned(b)
    ensures IsSimple(a + b) <==> IsSimple(a) && IsSimple(b)
    ensures IsSimple(a + b) ==> SimpleLength(a + b) == SimpleLength(a) + SimpleLength(b)
  {
    ScannedConcat(a, b);
    PredictableParts(Ops(a, 0), Ops(b, 0));
    ScanConcat(Ops(a, 0), Ops(b, 0));
  }

  lemma OneOpSimple(code: seq<byte>, op: byte)
    requires Ops(code, 0) == [op]
    ensures IsSimple(code) <==> IsCharOp(op) || IsAssertionOp(op)
    ensures IsSimple(code) ==> SimpleLength(code) == if IsCharOp(op) then 1 else 0
  {
    assert [op][..0] == [];
    assert CharCount([]) == 0;
    assert AllSimple([op]) <==> IsCharOp(op) || IsAssertionOp(op) by {
      if AllSimple([op]) { assert [op][0] == op; }
    }
  }

  /** The result of a simple term of the given length. */
  ghost predicate OneWay(ys: seq<MatchState>, x: MatchState, length: int) {
    |ys| == 0 || ys == [x.(pos := x.pos + length)]
  }

  lemma OneCharSimple(s: Subject, t: Term, back: bool, cap: nat, x: MatchState)
    requires IsOneChar(t) && WellFormed(t) && Valid(s, x) && cap <= s.captureCount
    ensures var code := TermCode(s.opts, t, back, cap);
            (IsSimple(code) <==> !back) && (!back ==> SimpleLength(code) == 1)
    ensures !back ==> OneWay(Match(s, t, back, cap, x), x, 1)
  {
    var one := OneCharCode(s.opts, t);
    OneCharScanned(s.opts, t);
    ScannedStepping(back, one, one[0]);
    var code := TermCode(s.opts, t, back, cap);
    if back {
      assert Ops(code, 0)[0] == PREV;
    } else {
      OneOpSimple(code, one[0]);
    }
  }

  /** A simple term is a fixed number of one-character matches and assertions, and has no capture groups. */
  lemma {:induction false} TermSimple(s: Subject, t: Term, back: bool, cap: nat, x: MatchState)
    requires WellFormed(t) && Valid(s, x) && cap + Captures(t) <= s.captureCount
    ensures var code := TermCode(s.opts, t, back, cap);
            IsSimple(code) ==> Captures(t) == 0 && OneWay(Match(s, t, back, cap, x), x, SimpleLength(code))
    decreases t, 0, 0
  {
    hide IsSimple, SimpleLength, Scanned, Scans, LookCode, CaptureCode, QuantifierCode;
    hide DisjunctionCode, MatchDisjunction, MatchUpToAll, MatchExactly, MatchBackReference, MatchOneChar,
      AssertionHolds;
    var code := TermCode(s.opts, t, back, cap);
    match t {
      case Group(d) => DisjunctionSimple(s, d, back, cap, x);
      case Capture(d) => CaptureNotSimple(s, d, back, cap);
      case Look(negated, behind, d) =>
        DisjunctionScanned(s.opts, d, behind, cap);
        ScannedLook(negated, DisjunctionCode(s.opts, d, behind, cap));
        NotSimple(code);
      case Quantified(a, min, max, greedy) => QuantifiedSimple(s, a, min, max, greedy, back, cap, x);
      case _ => LeafSimple(s, t, back, cap, x);
    }
  }

  lemma LeafSimple(s: Subject, t: Term, back: bool, cap: nat, x: MatchState)
    requires WellFormed(t) && Valid(s, x) && cap <= s.captureCount
    requires !t.Group? && !t.Capture? && !t.Look? && !t.Quantified?
    ensures var code := TermCode(s.opts, t, back, cap);
            IsSimple(code) ==> OneWay(Match(s, t, back, cap, x), x, SimpleLength(code))
  {
    hide IsSimple, SimpleLength, Scanned, Scans, MatchBackReference, MatchOneChar, AssertionHolds;
    var code := TermCode(s.opts, t, back, cap);
    if IsOneChar(t) {
      OneCharSimple(s, t, back, cap, x);
    } else if t.BackReference? {
      ScansOp8(BackReferenceOp(back), t.index % 256);
      ScannedBy(code, [BackReferenceOp(back)], 0);
      OneOpSimple(code, BackReferenceOp(back));
    } else {
      ScansOp(code[0]);
      ScannedBy(code, [code[0]], 0);
      OneOpSimple(code, code[0]);
    }
  }

  lemma NotSimple(code: seq<byte>)
    requires Branches(Ops(code, 0))
    ensures !IsSimple(code)
  {
    BranchesIsUnpredictable(Ops(code, 0));
  }

  lemma CaptureNotSimple(s: Subject, d: Disjunction, back: bool, cap: nat)
    requires DisjunctionWellFormed(d)
    ensures !IsSimple(TermCode(s.opts, Capture(d), back, cap))
  {
    var body := DisjunctionCode(s.opts, d, back, cap + 1);
    DisjunctionScanned(s.opts, d, back, cap + 1);
    ScannedCapture(back, cap, body);
    var ops := Ops(CaptureCode(back, cap, body), 0);
    assert ops[0] == SaveOp(back);
    assert !AllSimple(ops);
  }

  lemma SimpleQuantifier(atom: seq<byte>, min: int, max: int, greedy: bool, first: int, end: int)
    requires Scanned(atom) && 0 <= min <= max <= INFINITE
    ensures var code := QuantifierCode(atom, min, max, greedy, first, end);
            IsSimple(code) ==> (min == 1 && max == 1 && code == atom)
                               || (min == 0 && max == 0 && first == end && SimpleLength(code) == 0 && code == [])
  {
    hide QuantifierCode, IsSimple, SimpleLength, Scanned, Branches;
    var code := QuantifierCode(atom, min, max, greedy, first, end);
    ScannedQuantifier(atom, min, max, greedy, first, end);
    ResetSimple(first, end);
    if Branches(Ops(code, 0)) {
      NotSimple(code);
    }
  }

  lemma ResetSimple(first: int, end: int)
    ensures IsSimple(ResetCode(first, end)) ==> first == end && SimpleLength(ResetCode(first, end)) == 0
  {
    ScannedReset(first, end);
    if first != end { OneOpSimple(ResetCode(first, end), SAVE_RESET); }
  }

  lemma {:induction false} QuantifiedSimple(s: Subject, a: Term, min: int, max: int, greedy: bool, back: bool,
                                            cap: nat, x: MatchState)
    requires WellFormed(a) && 0 <= min <= max <= INFINITE && Valid(s, x) && cap + Captures(a) <= s.captureCount
    ensures var code := QuantifierCode(TermCode(s.opts, a, back, cap), min, max, greedy, cap, cap + Captures(a));
            IsSimple(code)
            ==> Captures(a) == 0 && OneWay(MatchQuantifier(s, a, min, max, greedy, back, cap, x), x, SimpleLength(code))
    decreases a, 1, 0
  {
    hide TermCode, QuantifierCode, IsSimple, SimpleLength, Match, Captures, WellFormed, Scanned, Valid;
    var atom := TermCode(s.opts, a, back, cap);
    TermScanned(s.opts, a, back, cap);
    SimpleQuantifier(atom, min, max, greedy, cap, cap + Captures(a));
    var code := QuantifierCode(atom, min, max, greedy, cap, cap + Captures(a));
    if IsSimple(code) {
      if min == 1 {
        TermSimple(s, a, back, cap, x);
        OneIsAtom(s, a, greedy, back, cap, x);
      } else {
        ZeroIsEmpty(s, a, greedy, back, cap, x);
      }
    }
  }

  /** The quantifier {0} on an atom without groups matches the empty string. */
  lemma ZeroIsEmpty(s: Subject, a: Term, greedy: bool, back: bool, cap: nat, x: MatchState)
    requires WellFormed(a) && Valid(s, x) && cap <= s.captureCount && Captures(a) == 0
    ensures Match(s, Quantified(a, 0, 0, greedy), back, cap, x) == [x]
  {
    assert x.captures == ResetCaptures(x.captures, cap, cap);
    var one := MatchExactly(s, a, back, cap, 0, x);
    assert one == [x] && one[1..] == [];
    assert MatchUpToAll(s, a, back, cap, 0, greedy, x, []) == [];
    assert MatchUpTo(s, a, back, cap, 0, greedy, x) == [x];
    assert MatchUpToAll(s, a, back, cap, 0, greedy, x, one) == [x] + [];
  }

  lemma {:induction false} SequenceSimple(s: Subject, ts: seq<Term>, back: bool, cap: nat, x: MatchState)
    requires SequenceWellFormed(ts) && Valid(s, x) && cap + SequenceCaptures(ts) <= s.captureCount
    ensures var code := SequenceCode(s.opts, ts, back, cap);
            IsSimple(code)
            ==> SequenceCaptures(ts) == 0 && OneWay(MatchSequence(s, ts, back, cap, x), x, SimpleLength(code))
    decreases ts, 0, 0
  {
    hide IsSimple, SimpleLength, Scanned, TermCode, SequenceCode, Match, MatchSequence, MatchAll, MatchSequenceAll;
    hide Captures, SequenceCaptures, WellFormed, SequenceWellFormed;
    if |ts| > 0 {
      var init, last := ts[..|ts| - 1], ts[|ts| - 1];
      SequenceParts(s, ts, back, cap, x);
      var mid := cap + SequenceCaptures(init);
      var head := SequenceCode(s.opts, init, back, cap);
      var tail := TermCode(s.opts, last, back, mid);
      SequenceScanned(s.opts, init, back, cap);
      TermScanned(s.opts, last, back, mid);
      SimpleConcat(head, tail);
      SimpleConcat(tail, head);
      if back && IsSimple(tail + head) {
        var ys := Match(s, last, back, mid, x);
        TermSimple(s, last, back, mid, x);
        SequenceSimple(s, init, back, cap, if |ys| > 0 then ys[0] else x);
        OneSequence(s, init, back, cap, x, ys);
      } else if !back && IsSimple(head + tail) {
        var ys := MatchSequence(s, init, back, cap, x);
        SequenceSimple(s, init, back, cap, x);
        TermSimple(s, last, back, mid, if |ys| > 0 then ys[0] else x);
        OneTerm(s, last, back, mid, x, ys);
      }
    } else {
      EmptySequence(s, back, cap, x);
      EmptySimple();
    }
  }

  lemma EmptySimple()
    ensures IsSimple([]) && SimpleLength([]) == 0
  {
    NoOps();
  }

  lemma OneTerm(s: Subject, t: Term, back: bool, cap: nat, x: MatchState, ys: seq<MatchState>)
    requires WellFormed(t) && AllFrom(s, back, x, ys) && cap + Captures(t) <= s.captureCount && |ys| <= 1
    ensures MatchAll(s, t, back, cap, x, ys) == if |ys| == 0 then [] else Match(s, t, back, cap, ys[0])
  {
    if |ys| == 1 {
      assert MatchAll(s, t, back, cap, x, ys[1..]) == [];
    }
  }

  lemma OneSequence(s: Subject, ts: seq<Term>, back: bool, cap: nat, x: MatchState, ys: seq<MatchState>)
    requires SequenceWellFormed(ts) && AllFrom(s, back, x, ys) && cap + SequenceCaptures(ts) <= s.captureCount
             && |ys| <= 1
    ensures MatchSequenceAll(s, ts, back, cap, x, ys) == if |ys| == 0 then []
            else MatchSequence(s, ts, back, cap, ys[0])
  {
    if |ys| == 1 {
      assert MatchSequenceAll(s, ts, back, cap, x, ys[1..]) == [];
    }
  }

  lemma {:induction false} DisjunctionSimple(s: Subject, d: Disjunction, back: bool, cap: nat, x: MatchState)
    requires DisjunctionWellFormed(d) && Valid(s, x) && cap + DisjunctionCaptures(d) <= s.captureCount
    ensures var code := DisjunctionCode(s.opts, d, back, cap);
            IsSimple(code)
            ==> DisjunctionCaptures(d) == 0 && OneWay(MatchDisjunction(s, d, back, cap, x), x, SimpleLength(code))
    decreases d, 0, 0
  {
    if |d| == 0 {
      EmptySimple();
    } else if |d| == 1 {
      assert d[..0] == [];
      SequenceSimple(s, d[0].terms, back, cap, x);
    } else {
      EitherNotSimple(s, d, back, cap);
    }
  }

  lemma EitherParts(s: Subject, d: Disjunction, back: bool, cap: nat)
    requires DisjunctionWellFormed(d) && |d| > 1
    ensures var init := d[..|d| - 1];
            && DisjunctionWellFormed(init) && SequenceWellFormed(d[|d| - 1].terms)
            && DisjunctionCode(s.opts, d, back, cap)
               == EitherCode(DisjunctionCode(s.opts, init, back, cap),
                             SequenceCode(s.opts, d[|d| - 1].terms, back, cap + DisjunctionCaptures(init)))
  {
    hide SequenceCode, SequenceWellFormed, DisjunctionCaptures, EitherCode;
  }

  lemma EitherNotSimple(s: Subject, d: Disjunction, back: bool, cap: nat)
    requires DisjunctionWellFormed(d) && |d| > 1
    ensures !IsSimple(DisjunctionCode(s.opts, d, back, cap)) && Branches(Ops(DisjunctionCode(s.opts, d, back, cap), 0))
  {
    hide SequenceCode, DisjunctionWellFormed, DisjunctionCaptures, SequenceWellFormed, SequenceCaptures, EitherCode,
      IsSimple, Scanned;
    var init := d[..|d| - 1];
    EitherParts(s, d, back, cap);
    SequenceScanned(s.opts, d[|d| - 1].terms, back, cap + DisjunctionCaptures(init));
    DisjunctionScanned(s.opts, init, back, cap);
    ScannedEither(DisjunctionCode(s.opts, init, back, cap),
                  SequenceCode(s.opts, d[|d| - 1].terms, back, cap + DisjunctionCaptures(init)));
    NotSimple(DisjunctionCode(s.opts, d, back, cap));
  }

  // ----- running simple code -----

  /** Where straight-line code starting in x ends: after it in the only result, or in a failure. */
  function Outcome(ys: seq<MatchState>, q: int, x: MatchState, s: seq<int>, k: seq<State>, f: seq<Frame>): Config {
    if |ys| == 0 then Reject(x, s, k, f) else In(q, ys[0], s, k, f)
  }

  ghost predicate RunsStraight(m: Machine, p: int, code: seq<byte>, x: MatchState, ys: seq<MatchState>, s: seq<int>,
                               k: seq<State>, f: seq<Frame>) {
    Reaches(m, In(p, x, s, k, f), Outcome(ys, p + |code|, x, s, k, f))
  }

  lemma {:induction false} TermRunsStraight(m: Machine, p: int, t: Term, back: bool, cap: nat, x: MatchState,
                                            s: seq<int>,
                                            k: seq<State>, f: seq<Frame>)
    requires SubjectOk(m.subject) && WellFormed(t) && Valid(m.subject, x) && cap + Captures(t) <= m.subject.captureCount
    requires At(m.code, p, TermCode(m.subject.opts, t, back, cap)) && IsSimple(TermCode(m.subject.opts, t, back, cap))
    ensures RunsStraight(m, p, TermCode(m.subject.opts, t, back, cap), x, Match(m.subject, t, back, cap, x), s, k, f)
    decreases t, 0, 0
  {
    hide IsSimple, Step, RunsStraight, At, LookCode, CaptureCode, QuantifierCode, DisjunctionCode, MatchDisjunction,
      MatchUpToAll, MatchExactly;
    hide AssertionHolds, MatchBackReference, MatchOneChar, Valid, SubjectOk;
    var code := TermCode(m.subject.opts, t, back, cap);
    match t {
      case Group(d) => DisjunctionRunsStraight(m, p, d, back, cap, x, s, k, f);
      case Quantified(a, min, max, greedy) => QuantifiedRunsStraight(m, p, a, min, max, greedy, back, cap, x, s, k, f);
      case LineStart => AssertionStep(m, p, t, x, s, k, f); OneStep(m, p, code, x, Match(m.subject, t, back, cap, x),
                                                                    s, k, f);
      case LineEnd => AssertionStep(m, p, t, x, s, k, f); OneStep(m, p, code, x, Match(m.subject, t, back, cap, x), s,
                                                                  k, f);
      case WordBoundary(_) => AssertionStep(m, p, t, x, s, k, f); OneStep(m, p, code, x,
                                                                          Match(m.subject, t, back, cap, x), s, k, f);
      case Dot => CharRunsStraight(m, p, t, back, cap, x, s, k, f);
      case Char(_) => CharRunsStraight(m, p, t, back, cap, x, s, k, f);
      case Class(_) => CharRunsStraight(m, p, t, back, cap, x, s, k, f);
      case _ => assert false by { OtherNotSimple(m.subject, t, back, cap); }
    }
  }

  lemma OneStep(m: Machine, p: int, code: seq<byte>, x: MatchState, ys: seq<MatchState>, s: seq<int>, k: seq<State>,
                f: seq<Frame>)
    requires Step(m, In(p, x, s, k, f)) == Outcome(ys, p + |code|, x, s, k, f)
    ensures RunsStraight(m, p, code, x, ys, s, k, f)
  {
    hide Step;
    ReachSelf(m, Outcome(ys, p + |code|, x, s, k, f));
    ReachStep(m, In(p, x, s, k, f), Outcome(ys, p + |code|, x, s, k, f));
  }

  lemma CharRunsStraight(m: Machine, p: int, t: Term, back: bool, cap: nat, x: MatchState, s: seq<int>, k: seq<State>,
                         f: seq<Frame>)
    requires SubjectOk(m.subject) && IsOneChar(t) && WellFormed(t) && Valid(m.subject, x)
    requires At(m.code, p, TermCode(m.subject.opts, t, back, cap)) && IsSimple(TermCode(m.subject.opts, t, back, cap))
    requires cap <= m.subject.captureCount
    ensures RunsStraight(m, p, TermCode(m.subject.opts, t, back, cap), x, Match(m.subject, t, back, cap, x), s, k, f)
  {
    OneCharSimple(m.subject, t, back, cap, x);
    hide IsSimple;
    CharStep(m, p, t, x, s, k, f);
    OneStep(m, p, TermCode(m.subject.opts, t, back, cap), x, Match(m.subject, t, back, cap, x), s, k, f);
  }

  lemma OtherNotSimple(s: Subject, t: Term, back: bool, cap: nat)
    requires WellFormed(t) && (t.Capture? || t.Look? || t.BackReference?)
    ensures !IsSimple(TermCode(s.opts, t, back, cap))
  {
    hide IsSimple, Scanned, Scans, LookCode, CaptureCode, DisjunctionCode, QuantifierCode;
    match t {
      case Capture(d) => CaptureNotSimple(s, d, back, cap);
      case Look(negated, behind, d) =>
        DisjunctionScanned(s.opts, d, behind, cap);
        ScannedLook(negated, DisjunctionCode(s.opts, d, behind, cap));
        NotSimple(TermCode(s.opts, t, back, cap));
      case BackReference(i) =>
        var code := TermCode(s.opts, t, back, cap);
        ScansOp8(BackReferenceOp(back), i % 256);
        ScannedBy(code, [BackReferenceOp(back)], 0);
        OneOpSimple(code, BackReferenceOp(back));
    }
  }

  lemma {:induction false} QuantifiedRunsStraight(m: Machine, p: int, a: Term, min: int, max: int, greedy: bool,
                                                  back: bool, cap: nat,
                                                  x: MatchState, s: seq<int>, k: seq<State>, f: seq<Frame>)
    requires SubjectOk(m.subject) && WellFormed(a) && 0 <= min <= max <= INFINITE && Valid(m.subject, x)
    requires cap + Captures(a) <= m.subject.captureCount
    requires var code := QuantifierCode(TermCode(m.subject.opts, a, back, cap), min, max, greedy, cap,
                                        cap + Captures(a));
             At(m.code, p, code) && IsSimple(code)
    ensures var code := QuantifierCode(TermCode(m.subject.opts, a, back, cap), min, max, greedy, cap,
                                       cap + Captures(a));
            RunsStraight(m, p, code, x, MatchQuantifier(m.subject, a, min, max, greedy, back, cap, x), s, k, f)
    decreases a, 1, 0
  {
    hide IsSimple, SimpleLength, QuantifierCode, TermCode, Match, Captures, WellFormed, Scanned, Valid, At;
    var o := m.subject.opts;
    var atom := TermCode(o, a, back, cap);
    TermScanned(o, a, back, cap);
    SimpleQuantifier(atom, min, max, greedy, cap, cap + Captures(a));
    if min == 1 && max == 1 {
      OneIsAtom(m.subject, a, greedy, back, cap, x);
      TermRunsStraight(m, p, a, back, cap, x, s, k, f);
    } else {
      ZeroIsEmpty(m.subject, a, greedy, back, cap, x);
      ReachSelf(m, In(p, x, s, k, f));
    }
  }

  lemma {:induction false} SequenceRunsStraight(m: Machine, p: int, ts: seq<Term>, back: bool, cap: nat, x: MatchState,
                                                s: seq<int>,
                                                k: seq<State>, f: seq<Frame>)
    requires SubjectOk(m.subject) && SequenceWellFormed(ts) && Valid(m.subject, x)
    requires cap + SequenceCaptures(ts) <= m.subject.captureCount
    requires At(m.code, p, SequenceCode(m.subject.opts, ts, back, cap))
             && IsSimple(SequenceCode(m.subject.opts, ts, back, cap))
    ensures RunsStraight(m, p, SequenceCode(m.subject.opts, ts, back, cap), x,
                         MatchSequence(m.subject, ts, back, cap, x), s, k, f)
    decreases ts, 0, 0
  {
    hide IsSimple, SimpleLength, Scanned, TermCode, SequenceCode, Match, MatchSequence, MatchAll, MatchSequenceAll;
    hide Captures, SequenceCaptures, WellFormed, SequenceWellFormed, RunsStraight, At;
    if |ts| == 0 {
      EmptySequence(m.subject, back, cap, x);
      EmptyRunsStraight(m, p, x, s, k, f);
    } else {
      SequenceParts(m.subject, ts, back, cap, x);
      var o := m.subject.opts;
      var init, last := ts[..|ts| - 1], ts[|ts| - 1];
      var mid := cap + SequenceCaptures(init);
      var head, tail := SequenceCode(o, init, back, cap), TermCode(o, last, back, mid);
      SequenceScanned(o, init, back, cap);
      TermScanned(o, last, back, mid);
      if back {
        SimpleConcat(tail, head);
        AtSplit(m.code, p, tail, head);
        var ys := Match(m.subject, last, back, mid, x);
        TermSimple(m.subject, last, back, mid, x);
        TermRunsStraight(m, p, last, back, mid, x, s, k, f);
        OneSequence(m.subject, init, back, cap, x, ys);
        if |ys| > 0 { SequenceRunsStraight(m, p + |tail|, init, back, cap, ys[0], s, k, f); }
        ThenStraight(m, p, tail, head, x, ys, MatchSequenceAll(m.subject, init, back, cap, x, ys), s, k, f);
      } else {
        SimpleConcat(head, tail);
        AtSplit(m.code, p, head, tail);
        var ys := MatchSequence(m.subject, init, back, cap, x);
        SequenceSimple(m.subject, init, back, cap, x);
        SequenceRunsStraight(m, p, init, back, cap, x, s, k, f);
        OneTerm(m.subject, last, back, mid, x, ys);
        if |ys| > 0 { TermRunsStraight(m, p + |head|, last, back, mid, ys[0], s, k, f); }
        ThenStraight(m, p, head, tail, x, ys, MatchAll(m.subject, last, back, mid, x, ys), s, k, f);
      }
    }
  }

  lemma EmptyRunsStraight(m: Machine, p: int, x: MatchState, s: seq<int>, k: seq<State>, f: seq<Frame>)
    ensures RunsStraight(m, p, [], x, [x], s, k, f)
  {
    ReachSelf(m, In(p, x, s, k, f));
  }

  lemma ThenStraight(m: Machine, p: int, a: seq<byte>, b: seq<byte>, x: MatchState, ys: seq<MatchState>,
                     zs: seq<MatchState>,
                     s: seq<int>, k: seq<State>, f: seq<Frame>)
    requires RunsStraight(m, p, a, x, ys, s, k, f)
    requires if |ys| == 0 then zs == []
             else ys[0].captures == x.captures && RunsStraight(m, p + |a|, b, ys[0], zs, s, k, f)
    ensures RunsStraight(m, p, a + b, x, zs, s, k, f)
  {
    if |ys| > 0 {
      ReachTrans(m, In(p, x, s, k, f), In(p + |a|, ys[0], s, k, f), Outcome(zs, p + |a| + |b|, ys[0], s, k, f));
    }
  }

  lemma {:induction false} DisjunctionRunsStraight(m: Machine, p: int, d: Disjunction, back: bool, cap: nat,
                                                   x: MatchState, s: seq<int>,
                                                   k: seq<State>, f: seq<Frame>)
    requires SubjectOk(m.subject) && DisjunctionWellFormed(d) && Valid(m.subject, x)
    requires cap + DisjunctionCaptures(d) <= m.subject.captureCount
    requires At(m.code, p, DisjunctionCode(m.subject.opts, d, back, cap))
             && IsSimple(DisjunctionCode(m.subject.opts, d, back, cap))
    ensures RunsStraight(m, p, DisjunctionCode(m.subject.opts, d, back, cap), x,
                         MatchDisjunction(m.subject, d, back, cap, x), s, k, f)
    decreases d, 0, 0
  {
    if |d| == 0 {
      ReachSelf(m, In(p, x, s, k, f));
    } else if |d| == 1 {
      assert d[..0] == [];
      SequenceRunsStraight(m, p, d[0].terms, back, cap, x, s, k, f);
    } else {
      assert false by { EitherNotSimple(m.subject, d, back, cap); }
    }
  }
}
