/** The compiler's predictions about terms, read off their code, are right. */
module RegexpPrediction {
  import opened Bytes
  import opened RegexpOpcodes
  import opened RegexpSyntax
  import opened RegexpAnalysis
  import opened RegexpCode
  import opened RegexpSemantics
  import opened RegexpCharSteps
  import opened RegexpShape
  import opened RegexpStraight

  lemma OneCharScanned(o: Options, t: Term)
    requires IsOneChar(t) && WellFormed(t)
    ensures Scans(OneCharCode(o, t), [OneCharCode(o, t)[0]], Neutral) && IsCharOp(OneCharCode(o, t)[0])
  {
    match t {
      case Dot => ScansOp(if o.dotAll then ANY else DOT);
      case Char(c) => ScansChar(Fold(o, c));
      case Class(p) => ScansRange(p);
    }
  }

  /** All code of terms is scanned cleanly and leaves the operand stack as it was. */
  lemma {:induction false} TermScanned(o: Options, t: Term, back: bool, cap: int)
    requires WellFormed(t)
    ensures Scanned(TermCode(o, t, back, cap))
    decreases t
  {
    hide Scanned, Scans, QuantifierCode;
    match t {
      case LineStart => ScansOp(LINE_START); ScannedBy([LINE_START], [LINE_START], 0);
      case LineEnd => ScansOp(LINE_END); ScannedBy([LINE_END], [LINE_END], 0);
      case WordBoundary(negated) =>
        var op := if negated then NOT_WORD_BOUNDARY else WORD_BOUNDARY;
        ScansOp(op);
        ScannedBy([op], [op], 0);
      case BackReference(i) =>
        ScansOp8(BackReferenceOp(back), i % 256);
        ScannedBy([BackReferenceOp(back), i % 256], [BackReferenceOp(back)], 0);
      case Group(d) => DisjunctionScanned(o, d, back, cap);
      case Capture(d) =>
        DisjunctionScanned(o, d, back, cap + 1);
        ScannedCapture(back, cap, DisjunctionCode(o, d, back, cap + 1));
      case Look(negated, behind, d) =>
        DisjunctionScanned(o, d, behind, cap);
        ScannedLook(negated, DisjunctionCode(o, d, behind, cap));
      case Quantified(a, min, max, greedy) =>
        TermScanned(o, a, back, cap);
        ScannedQuantifier(TermCode(o, a, back, cap), min, max, greedy, cap, cap + Captures(a));
      case _ =>
        OneCharScanned(o, t);
        ScannedStepping(back, OneCharCode(o, t), OneCharCode(o, t)[0]);
    }
  }

  lemma {:induction false} SequenceScanned(o: Options, ts: seq<Term>, back: bool, cap: int)
    requires SequenceWellFormed(ts)
    ensures Scanned(SequenceCode(o, ts, back, cap))
    decreases ts
  {
    hide Scanned, TermCode;
    if |ts| == 0 {
      ScannedEmpty();
    } else {
      var init := ts[..|ts| - 1];
      var head := SequenceCode(o, init, back, cap);
      var tail := TermCode(o, ts[|ts| - 1], back, cap + SequenceCaptures(init));
      SequenceScanned(o, init, back, cap);
      TermScanned(o, ts[|ts| - 1], back, cap + SequenceCaptures(init));
      ScannedConcat(head, tail);
      ScannedConcat(tail, head);
    }
  }

  lemma {:induction false} DisjunctionScanned(o: Options, d: Disjunction, back: bool, cap: int)
    requires DisjunctionWellFormed(d)
    ensures Scanned(DisjunctionCode(o, d, back, cap))
    decreases d
  {
    hide Scanned, SequenceCode, EitherCode;
    if |d| == 0 {
      ScannedEmpty();
    } else {
      var init := d[..|d| - 1];
      SequenceScanned(o, d[|d| - 1].terms, back, cap + DisjunctionCaptures(init));
      if |d| > 1 {
        DisjunctionScanned(o, init, back, cap);
        ScannedEither(DisjunctionCode(o, init, back, cap),
                      SequenceCode(o, d[|d| - 1].terms, back, cap + DisjunctionCaptures(init)));
      }
    }
  }

  /** The last term of a sequence, apart from those before it: in the code and in the matches. */
  lemma SequenceParts(s: Subject, ts: seq<Term>, back: bool, cap: nat, x: MatchState)
    requires |ts| > 0 && SequenceWellFormed(ts) && Valid(s, x) && cap + SequenceCaptures(ts) <= s.captureCount
    ensures var init, last := ts[..|ts| - 1], ts[|ts| - 1];
            var mid := cap + SequenceCaptures(init);
            var head, tail := SequenceCode(s.opts, init, back, cap), TermCode(s.opts, last, back, mid);
            && SequenceWellFormed(init) && WellFormed(last) && mid + Captures(last) <= s.captureCount
            && SequenceCaptures(ts) == SequenceCaptures(init) + Captures(last)
            && SequenceCode(s.opts, ts, back, cap) == (if back then tail + head else head + tail)
            && MatchSequence(s, ts, back, cap, x)
               == if back then MatchSequenceAll(s, init, back, cap, x, Match(s, last, back, mid, x))
                  else MatchAll(s, last, back, mid, x, MatchSequence(s, init, back, cap, x))
  {
    hide WellFormed, Captures, TermCode, Match, MatchAll, MatchSequenceAll, Valid;
  }

  /** The last of several alternatives, apart from those before it. */
  lemma DisjunctionParts(s: Subject, d: Disjunction, back: bool, cap: nat, x: MatchState)
    requires |d| > 0 && DisjunctionWellFormed(d) && Valid(s, x) && cap + DisjunctionCaptures(d) <= s.captureCount
    ensures var init, last := d[..|d| - 1], d[|d| - 1].terms;
            var mid := cap + DisjunctionCaptures(init);
            var left, right := DisjunctionCode(s.opts, init, back, cap), SequenceCode(s.opts, last, back, mid);
            && DisjunctionWellFormed(init) && SequenceWellFormed(last) && mid + SequenceCaptures(last) <= s.captureCount
            && DisjunctionCaptures(d) == DisjunctionCaptures(init) + SequenceCaptures(last)
            && DisjunctionCode(s.opts, d, back, cap) == (if |d| == 1 then right else EitherCode(left, right))
            && (|d| == 1 ==> mid == cap)
            && MatchDisjunction(s, d, back, cap, x)
               == if |d| == 1 then MatchSequence(s, last, back, mid, x)
                  else MatchDisjunction(s, init, back, cap, x) + MatchSequence(s, last, back, mid, x)
  {
    hide SequenceWellFormed, SequenceCaptures, SequenceCode, MatchSequence, EitherCode, Valid;
  }

  // ----- predictable code moves whenever it contains a character -----

  ghost predicate AllMoved(x: MatchState, ys: seq<MatchState>) {
    forall i :: 0 <= i < |ys| ==> ys[i].pos != x.pos
  }

  lemma BranchesIsUnpredictable(ops: seq<byte>)
    requires Branches(ops)
    ensures !AllPredictable(ops) && !AllSimple(ops)
  {
  }

  lemma PredictableParts(a: seq<byte>, b: seq<byte>)
    ensures AllPredictable(a + b) <==> AllPredictable(a) && AllPredictable(b)
    ensures HasCharOp(a + b) <==> HasCharOp(a) || HasCharOp(b)
    ensures AllSimple(a + b) <==> AllSimple(a) && AllSimple(b)
  {
    var ab := a + b;
    forall i | 0 <= i < |a| ensures ab[i] == a[i] {}
    forall i | 0 <= i < |b| ensures ab[|a| + i] == b[i] {}
    if AllPredictable(ab) {
      forall i | 0 <= i < |a| ensures IsCharOp(a[i]) || IsPassiveOp(a[i]) { assert ab[i] == a[i]; }
      forall i | 0 <= i < |b| ensures IsCharOp(b[i]) || IsPassiveOp(b[i]) { assert ab[|a| + i] == b[i]; }
    }
    if AllSimple(ab) {
      forall i | 0 <= i < |a| ensures IsCharOp(a[i]) || IsAssertionOp(a[i]) { assert ab[i] == a[i]; }
      forall i | 0 <= i < |b| ensures IsCharOp(b[i]) || IsAssertionOp(b[i]) { assert ab[|a| + i] == b[i]; }
    }
    if i :| 0 <= i < |a| && IsCharOp(a[i]) { assert IsCharOp(ab[i]); }
    if i :| 0 <= i < |b| && IsCharOp(b[i]) { assert IsCharOp(ab[|a| + i]); }
  }

  ghost predicate Predictable(code: seq<byte>) { AllPredictable(Ops(code, 0)) }

  ghost predicate HasChar(code: seq<byte>) { HasCharOp(Ops(code, 0)) }

  lemma BranchingCode(code: seq<byte>)
    requires Branches(Ops(code, 0))
    ensures !Predictable(code) && SimpleLength(code) == -1
  {
    BranchesIsUnpredictable(Ops(code, 0));
  }

  lemma PassiveCode(code: seq<byte>, op: byte)
    requires Ops(code, 0) == [op] && !IsCharOp(op)
    ensures !HasChar(code)
  {
  }

  lemma PredictableCode(a: seq<byte>, b: seq<byte>)
    requires Scanned(a) && Scanned(b)
    ensures Predictable(a + b) <==> Predictable(a) && Predictable(b)
    ensures HasChar(a + b) <==> HasChar(a) || HasChar(b)
  {
    ScannedConcat(a, b);
    PredictableParts(Ops(a, 0), Ops(b, 0));
  }

  /** Code for which no check_advance is emitted always moves. */
  lemma {:induction false} TermMoves(s: Subject, t: Term, back: bool, cap: nat, x: MatchState)
    requires WellFormed(t) && Valid(s, x) && cap + Captures(t) <= s.captureCount
    ensures var code := TermCode(s.opts, t, back, cap);
            Predictable(code) && HasChar(code) ==> AllMoved(x, Match(s, t, back, cap, x))
    decreases t, 0, 0
  {
    hide Predictable, HasChar, Scanned, Scans, LookCode, CaptureCode, QuantifierCode;
    hide DisjunctionCode, MatchDisjunction, MatchUpToAll, MatchExactly, MatchBackReference;
    var code := TermCode(s.opts, t, back, cap);
    match t {
      case Group(d) => DisjunctionMoves(s, d, back, cap, x);
      case Capture(d) => CaptureMoves(s, d, back, cap, x);
      case Look(negated, behind, d) =>
        DisjunctionScanned(s.opts, d, behind, cap);
        ScannedLook(negated, DisjunctionCode(s.opts, d, behind, cap));
        BranchingCode(code);
      case Quantified(a, min, max, greedy) => QuantifiedMoves(s, a, min, max, greedy, back, cap, x);
      case Dot =>
      case Char(_) =>
      case Class(_) =>
      case BackReference(i) =>
        ScansOp8(BackReferenceOp(back), i % 256);
        ScannedBy(code, [BackReferenceOp(back)], 0);
        PassiveCode(code, BackReferenceOp(back));
      case _ =>
        ScansOp(code[0]);
        ScannedBy(code, [code[0]], 0);
        PassiveCode(code, code[0]);
    }
  }

  lemma {:induction false} CaptureMoves(s: Subject, d: Disjunction, back: bool, cap: nat, x: MatchState)
    requires DisjunctionWellFormed(d) && Valid(s, x) && cap + 1 + DisjunctionCaptures(d) <= s.captureCount
    ensures var code := CaptureCode(back, cap, DisjunctionCode(s.opts, d, back, cap + 1));
            Predictable(code) && HasChar(code) ==> AllMoved(x, Match(s, Capture(d), back, cap, x))
    decreases d, 1, 0
  {
    hide Predictable, HasChar, CaptureCode, Scanned, DisjunctionCode, DisjunctionWellFormed, DisjunctionCaptures,
      MatchDisjunction, TermCode;
    var body := DisjunctionCode(s.opts, d, back, cap + 1);
    DisjunctionScanned(s.opts, d, back, cap + 1);
    CapturePredictable(back, cap, body);
    var x' := SetCapture(x, if back then 2 * cap + 1 else 2 * cap, x.pos);
    DisjunctionMoves(s, d, back, cap + 1, x');
  }

  lemma CapturePredictable(back: bool, cap: int, body: seq<byte>)
    requires Scanned(body)
    ensures Predictable(CaptureCode(back, cap, body)) <==> Predictable(body)
    ensures HasChar(CaptureCode(back, cap, body)) <==> HasChar(body)
  {
    ScannedCapture(back, cap, body);
    PredictableParts([SaveOp(back)] + Ops(body, 0), [SaveOp(!back)]);
    PredictableParts([SaveOp(back)], Ops(body, 0));
  }

  /** The matches of a quantified atom. */
  ghost function MatchQuantifier(s: Subject, a: Term, min: int, max: int, greedy: bool, back: bool, cap: nat,
                                 x: MatchState)
    : (r: seq<MatchState>)
    requires WellFormed(a) && 0 <= min <= max <= INFINITE && Valid(s, x) && cap + Captures(a) <= s.captureCount
  {
    Match(s, Quantified(a, min, max, greedy), back, cap, x)
  }

  lemma {:induction false} QuantifiedMoves(s: Subject, a: Term, min: int, max: int, greedy: bool, back: bool, cap: nat,
                                           x: MatchState)
    requires WellFormed(a) && 0 <= min <= max <= INFINITE && Valid(s, x) && cap + Captures(a) <= s.captureCount
    ensures var code := QuantifierCode(TermCode(s.opts, a, back, cap), min, max, greedy, cap, cap + Captures(a));
            Predictable(code) && HasChar(code) ==> AllMoved(x, MatchQuantifier(s, a, min, max, greedy, back, cap, x))
    decreases a, 1, 0
  {
    hide Match, TermCode, QuantifierCode, Predictable, HasChar, Scanned, Captures, WellFormed, Valid;
    var atom := TermCode(s.opts, a, back, cap);
    TermScanned(s.opts, a, back, cap);
    PredictableQuantifier(atom, min, max, greedy, cap, cap + Captures(a));
    TermMoves(s, a, back, cap, x);
    if min == 1 && max == 1 {
      OneIsAtom(s, a, greedy, back, cap, x);
    }
  }

  lemma PredictableQuantifier(atom: seq<byte>, min: int, max: int, greedy: bool, first: int, end: int)
    requires Scanned(atom) && 0 <= min <= max <= INFINITE
    ensures var code := QuantifierCode(atom, min, max, greedy, first, end);
            Predictable(code) && HasChar(code) ==> min == 1 && max == 1 && code == atom
  {
    hide QuantifierCode, Predictable, HasChar, Scanned, Branches;
    var code := QuantifierCode(atom, min, max, greedy, first, end);
    ScannedQuantifier(atom, min, max, greedy, first, end);
    ResetHasNoChar(first, end);
    if Branches(Ops(code, 0)) {
      BranchingCode(code);
    }
  }

  lemma ResetHasNoChar(first: int, end: int)
    ensures !HasChar(ResetCode(first, end))
  {
    ScannedReset(first, end);
  }

  /** The quantifier {1} adds nothing to its atom. */
  lemma OneIsAtom(s: Subject, a: Term, greedy: bool, back: bool, cap: nat, x: MatchState)
    requires WellFormed(a) && Valid(s, x) && cap + Captures(a) <= s.captureCount
    ensures Match(s, Quantified(a, 1, 1, greedy), back, cap, x) == Match(s, a, back, cap, x)
  {
    var ys := Match(s, a, back, cap, x);
    ExactlyOnce(s, a, back, cap, greedy, x, ys);
    assert MatchExactly(s, a, back, cap, 1, x) == ys;
    hide Match;
    assert Match(s, Quantified(a, 1, 1, greedy), back, cap, x)
           == MatchUpToAll(s, a, back, cap, Remaining(1, 1), greedy, x, MatchExactly(s, a, back, cap, 1, x)) by {
      MatchQuantified(s, a, 1, 1, greedy, back, cap, x);
    }
  }

  lemma MatchQuantified(s: Subject, a: Term, min: int, max: int, greedy: bool, back: bool, cap: nat, x: MatchState)
    requires WellFormed(a) && 1 <= min <= max <= INFINITE && Valid(s, x) && cap + Captures(a) <= s.captureCount
    ensures Match(s, Quantified(a, min, max, greedy), back, cap, x)
            == MatchUpToAll(s, a, back, cap, Remaining(min, max), greedy, x, MatchExactly(s, a, back, cap, min, x))
  {
  }

  lemma {:induction false} ExactlyOnce(s: Subject, a: Term, back: bool, cap: nat, greedy: bool, x: MatchState,
                                       ys: seq<MatchState>)
    requires WellFormed(a) && AllFrom(s, back, x, ys) && cap + Captures(a) <= s.captureCount
    ensures MatchExactlyAll(s, a, back, cap, 0, x, ys) == ys
    ensures MatchUpToAll(s, a, back, cap, 0, greedy, x, ys) == ys
    decreases |ys|
  {
    if |ys| > 0 {
      ExactlyOnce(s, a, back, cap, greedy, x, ys[1..]);
      assert [ys[0]] + ys[1..] == ys;
    }
  }

  lemma {:induction false} SequenceMoves(s: Subject, ts: seq<Term>, back: bool, cap: nat, x: MatchState)
    requires SequenceWellFormed(ts) && Valid(s, x) && cap + SequenceCaptures(ts) <= s.captureCount
    ensures var code := SequenceCode(s.opts, ts, back, cap);
            Predictable(code) && HasChar(code) ==> AllMoved(x, MatchSequence(s, ts, back, cap, x))
    decreases ts, 0, 0
  {
    hide Predictable, HasChar, TermCode, SequenceCode, Scanned, Match, MatchSequence, MatchAll, MatchSequenceAll;
    hide WellFormed, SequenceWellFormed, Captures, SequenceCaptures;
    if |ts| > 0 {
      var init, last := ts[..|ts| - 1], ts[|ts| - 1];
      SequenceParts(s, ts, back, cap, x);
      var head := SequenceCode(s.opts, init, back, cap);
      var tail := TermCode(s.opts, last, back, cap + SequenceCaptures(init));
      SequenceScanned(s.opts, init, back, cap);
      TermScanned(s.opts, last, back, cap + SequenceCaptures(init));
      PredictableCode(head, tail);
      PredictableCode(tail, head);
      if back {
        TermMoves(s, last, back, cap + SequenceCaptures(init), x);
        SequenceAllMoves(s, init, back, cap, x, Match(s, last, back, cap + SequenceCaptures(init), x));
      } else {
        SequenceMoves(s, init, back, cap, x);
        AllMoves(s, last, back, cap + SequenceCaptures(init), x, MatchSequence(s, init, back, cap, x));
      }
    } else {
      EmptySequence(s, back, cap, x);
    }
  }

  /** Nothing to match: no code, and one way to match it. */
  lemma EmptySequence(s: Subject, back: bool, cap: nat, x: MatchState)
    requires Valid(s, x) && cap <= s.captureCount
    ensures SequenceWellFormed([]) && SequenceCaptures([]) == 0
    ensures SequenceCode(s.opts, [], back, cap) == [] && MatchSequence(s, [], back, cap, x) == [x] && !HasChar([])
    ensures DisjunctionWellFormed([]) && DisjunctionCaptures([]) == 0
    ensures DisjunctionCode(s.opts, [], back, cap) == [] && MatchDisjunction(s, [], back, cap, x) == [x]
  {
    NoOps();
  }

  lemma {:induction false} AllMoves(s: Subject, t: Term, back: bool, cap: nat, x: MatchState, ys: seq<MatchState>)
    requires WellFormed(t) && AllFrom(s, back, x, ys) && cap + Captures(t) <= s.captureCount
    ensures var code := TermCode(s.opts, t, back, cap);
            Predictable(code) && (HasChar(code) || AllMoved(x, ys)) ==> AllMoved(x, MatchAll(s, t, back, cap, x, ys))
    decreases t, 1, |ys|
  {
    hide Predictable, HasChar, TermCode, Match;
    if |ys| > 0 {
      TermMoves(s, t, back, cap, ys[0]);
      AllMoves(s, t, back, cap, x, ys[1..]);
    }
  }

  lemma {:induction false} SequenceAllMoves(s: Subject, ts: seq<Term>, back: bool, cap: nat, x: MatchState,
                                            ys: seq<MatchState>)
    requires SequenceWellFormed(ts) && AllFrom(s, back, x, ys) && cap + SequenceCaptures(ts) <= s.captureCount
    ensures var code := SequenceCode(s.opts, ts, back, cap);
            (Predictable(code) && (HasChar(code) || AllMoved(x, ys)))
            ==> AllMoved(x, MatchSequenceAll(s, ts, back, cap, x, ys))
    decreases ts, 1, |ys|
  {
    hide Predictable, HasChar, SequenceCode, MatchSequence;
    if |ys| > 0 {
      SequenceMoves(s, ts, back, cap, ys[0]);
      SequenceAllMoves(s, ts, back, cap, x, ys[1..]);
    }
  }

  lemma {:induction false} DisjunctionMoves(s: Subject, d: Disjunction, back: bool, cap: nat, x: MatchState)
    requires DisjunctionWellFormed(d) && Valid(s, x) && cap + DisjunctionCaptures(d) <= s.captureCount
    ensures var code := DisjunctionCode(s.opts, d, back, cap);
            Predictable(code) && HasChar(code) ==> AllMoved(x, MatchDisjunction(s, d, back, cap, x))
    decreases d, 0, 0
  {
    hide Predictable, HasChar, SequenceCode, DisjunctionCode, EitherCode, Scanned, MatchSequence, MatchDisjunction, Ops;
    hide SequenceWellFormed, DisjunctionWellFormed, SequenceCaptures, DisjunctionCaptures;
    if |d| == 0 {
      EmptySequence(s, back, cap, x);
    } else {
      var init, last := d[..|d| - 1], d[|d| - 1].terms;
      DisjunctionParts(s, d, back, cap, x);
      if |d| == 1 {
        SequenceMoves(s, last, back, cap, x);
      } else {
        var mid := cap + DisjunctionCaptures(init);
        SequenceScanned(s.opts, last, back, mid);
        DisjunctionScanned(s.opts, init, back, cap);
        ScannedEither(DisjunctionCode(s.opts, init, back, cap), SequenceCode(s.opts, last, back, mid));
        BranchingCode(DisjunctionCode(s.opts, d, back, cap));
      }
    }
  }
}
