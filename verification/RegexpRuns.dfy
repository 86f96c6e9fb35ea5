/** Compiler correctness by induction on syntax trees, loops and distances from the end of the input. */
module RegexpRuns {
  import opened Bytes
  import opened RegexpOpcodes
  import opened RegexpSyntax
  import opened RegexpAnalysis
  import opened RegexpCode
  import opened RegexpSemantics
  import opened RegexpMachine
  import opened RegexpSteps
  import opened RegexpYields
  import opened RegexpLayout
  import opened RegexpShape
  import opened RegexpStraight
  import opened RegexpPrediction
  import opened RegexpLoops
  import opened RegexpGreedy
  import opened RegexpCorrect

  // ----- single turns of loops -----

  /** After an iteration of a loop that repeats an atom exactly n more times. */
  lemma ExactTurn(m: Machine, p: int, n: int, len: int, y: MatchState, s: seq<int>, k: seq<State>, zs: seq<MatchState>)
    requires At(m.code, p + len, [LOOP] + PutU32(-(len + 5))) && Int32(-(len + 5)) && At(m.code, p + len + 5, [DROP])
    requires Valid(m.subject, y) && n >= 1
    requires if n == 1 then zs == [y] else Yields(m, Go(p, y, s + [n - 1], k), p + len + 6, s, k, zs)
    ensures Yields(m, Go(p + len, y, s + [n], k), p + len + 6, s, k, zs)
  {
    hide Yields, Step, At;
    LoopStep(m, p + len, -(len + 5), n, y, s, k);
    if n == 1 {
      DropStep(m, p + len + 5, 0, y, s, k);
      StepYields(m, Go(p + len + 5, y, s + [0], k), p + len + 6, y, s, k, [y]);
    }
    YieldsStep(m, Go(p + len, y, s + [n], k), p + len + 6, s, k, zs);
  }

  /** After an iteration of a loop of at most n iterations whose guarded atom has length len. */
  lemma UpToTurn(m: Machine, p: int, n: int, len: int, y: MatchState, s: seq<int>, k: seq<State>, zs: seq<MatchState>)
    requires At(m.code, p + 5 + len, [LOOP] + PutU32(-(len + 10))) && Int32(-(len + 10))
             && At(m.code, p + 10 + len, [DROP])
    requires Valid(m.subject, y) && n >= 1
    requires if n == 1 then zs == [y] else Yields(m, Go(p, y, s + [n - 1], k), p + 11 + len, s, k, zs)
    ensures Yields(m, Go(p + 5 + len, y, s + [n], k), p + 11 + len, s, k, zs)
  {
    hide Yields, Step, At;
    LoopStep(m, p + 5 + len, -(len + 10), n, y, s, k);
    if n == 1 {
      DropStep(m, p + 10 + len, 0, y, s, k);
      StepYields(m, Go(p + 10 + len, y, s + [0], k), p + 11 + len, y, s, k, [y]);
    }
    YieldsStep(m, Go(p + 5 + len, y, s + [n], k), p + 11 + len, s, k, zs);
  }

  lemma StarTurn(m: Machine, p: int, len: int, y: MatchState, s: seq<int>, k: seq<State>, zs: seq<MatchState>)
    requires At(m.code, p + 5 + len, [GOTO] + PutU32(-(len + 10))) && Int32(-(len + 10)) && Valid(m.subject, y)
    requires Yields(m, Go(p, y, s, k), p + 10 + len, s, k, zs)
    ensures Yields(m, Go(p + 5 + len, y, s, k), p + 10 + len, s, k, zs)
  {
    hide Yields, Step, At;
    GotoStep(m, p + 5 + len, -(len + 10), y, s, k);
    YieldsStep(m, Go(p + 5 + len, y, s, k), p + 10 + len, s, k, zs);
  }

  function TailOf(k: seq<State>, greedy: bool, exit: int, x: MatchState, s: seq<int>): seq<State> {
    if greedy then Push(k, Choice(SplitState, exit, x, s)) else k
  }

  /** The choice at the start of a loop, between another iteration at p + 5 and leaving at exit. */
  lemma ChoiceYields(m: Machine, p: int, greedy: bool, exit: int, x: MatchState, stack: seq<int>, k: seq<State>,
                     q: int, s: seq<int>, more: seq<MatchState>)
    requires At(m.code, p, [SplitOp(greedy)] + PutU32(exit - p - 5)) && Int32(exit - p - 5) && Valid(m.subject, x)
    requires var k1 := TailOf(k, greedy, exit, x, stack); Yields(m, Go(p + 5, x, stack, k1), q, s, k1, more)
    requires var k2 := TailOf(k, !greedy, p + 5, x, stack); Yields(m, Go(exit, x, stack, k2), q, s, k2, [x])
    ensures Yields(m, Go(p, x, stack, k), q, s, k, if greedy then more + [x] else [x] + more)
  {
    hide Yields, Step, At;
    SplitYields(m, p, greedy, exit - p - 5, x, stack, k, q, s, if greedy then more else [x], if greedy then [x]
                else more);
  }

  // ----- the induction -----

  lemma {:induction false} TermRuns(m: Machine, p: int, t: Term, back: bool, cap: nat, x: MatchState, s: seq<int>,
                                    k: seq<State>)
    requires MachineOk(m) && TermOk(m, t, cap) && Valid(m.subject, x) && Loaded(m, p, TCode(m, t, back, cap), s)
    ensures Yields(m, Go(p, x, s, k), p + |TCode(m, t, back, cap)|, s, k, Match(m.subject, t, back, cap, x))
    decreases t, 0, 0, 0, 0
  {
    hide Yields, At, Need, CaptureCode, LookCode, QuantifierCode, DisjunctionCode, MatchDisjunction, MatchExactly,
      MatchUpToAll;
    hide MatchOneChar, MatchBackReference, CloseCapture;
    match t {
      case Group(d) => DisjunctionRuns(m, p, d, back, cap, x, s, k);
      case Capture(d) => CaptureRuns(m, p, d, back, cap, x, s, k);
      case Look(negated, behind, d) => LookaroundRuns(m, p, negated, behind, d, cap, x, s, k);
      case Quantified(a, min, max, greedy) => QuantifiedRuns(m, p, a, min, max, greedy, back, cap, x, s, k);
      case Dot => OneCharRuns(m, p, t, back, cap, x, s, k);
      case Char(_) => OneCharRuns(m, p, t, back, cap, x, s, k);
      case Class(_) => OneCharRuns(m, p, t, back, cap, x, s, k);
      case BackReference(i) => BackReferenceRuns(m, p, i, back, cap, x, s, k);
      case _ => AssertionRuns(m, p, t, back, cap, x, s, k);
    }
  }

  lemma {:induction false} CaptureRuns(m: Machine, p: int, d: Disjunction, back: bool, cap: nat, x: MatchState,
                                       s: seq<int>, k: seq<State>)
    requires MachineOk(m) && DisjunctionWellFormed(d) && cap + 1 + DisjunctionCaptures(d) <= m.subject.captureCount
             && Valid(m.subject, x)
    requires Loaded(m, p, CaptureCode(back, cap, DisjunctionCode(m.subject.opts, d, back, cap + 1)), s)
    ensures Yields(m, Go(p, x, s, k), p + |CaptureCode(back, cap, DisjunctionCode(m.subject.opts, d, back, cap + 1))|,
                   s, k,
                   Match(m.subject, Capture(d), back, cap, x))
    decreases d, 1, 0, 0, 0
  {
    hide Yields, At, Need, CaptureCode, DisjunctionCode, MatchDisjunction, Step, Scanned;
    var body := DisjunctionCode(m.subject.opts, d, back, cap + 1);
    CaptureLayout(m.code, p, back, cap, body);
    DisjunctionScanned(m.subject.opts, d, back, cap + 1);
    ScannedCapture(back, cap, body);
    var x' := SetCapture(x, if back then 2 * cap + 1 else 2 * cap, x.pos);
    SaveStep(m, p, back, cap, x, s, k);
    DisjunctionRuns(m, p + 2, d, back, cap + 1, x', s, k);
    var ys := MatchDisjunction(m.subject, d, back, cap + 1, x');
    CloseRuns(m, Go(p + 2, x', s, k), p + 2 + |body|, !back, cap, s, k, ys);
    YieldsStep(m, Go(p, x, s, k), p + 4 + |body|, s, k,
               CloseCapture(m.subject, if back then 2 * cap else 2 * cap + 1, ys));
  }

  lemma {:induction false} LookaroundRuns(m: Machine, p: int, negated: bool, behind: bool, d: Disjunction, cap: nat,
                                          x: MatchState,
                                          s: seq<int>, k: seq<State>)
    requires MachineOk(m) && DisjunctionWellFormed(d) && cap + DisjunctionCaptures(d) <= m.subject.captureCount
             && Valid(m.subject, x)
    requires Loaded(m, p, LookCode(negated, DisjunctionCode(m.subject.opts, d, behind, cap)), s)
    ensures Yields(m, Go(p, x, s, k), p + |LookCode(negated, DisjunctionCode(m.subject.opts, d, behind, cap))|, s, k,
                   LookResult(negated, x, MatchDisjunction(m.subject, d, behind, cap, x)))
    decreases d, 1, 0, 0, 0
  {
    hide Yields, At, Need, LookCode, DisjunctionCode, MatchDisjunction, Scanned, Step;
    var body := DisjunctionCode(m.subject.opts, d, behind, cap);
    LookLayout(m.code, p, negated, body);
    DisjunctionScanned(m.subject.opts, d, behind, cap);
    ScannedLook(negated, body);
    var kind := if negated then NegativeLookaheadState else LookaheadState;
    DisjunctionRuns(m, p + 5, d, behind, cap, x, s, Push(k, Choice(kind, p + 6 + |body|, x, s)));
    LookRuns(m, p, negated, body, x, s, k, MatchDisjunction(m.subject, d, behind, cap, x));
  }

  /** The atom with its guard produces the states that moved. */
  lemma {:induction false} GuardedRuns(m: Machine, p: int, a: Term, check: bool, back: bool, cap: nat, x: MatchState,
                                       s: seq<int>, k: seq<State>)
    requires MachineOk(m) && TermOk(m, a, cap) && Valid(m.subject, x)
    requires var atom := TCode(m, a, back, cap);
             At(m.code, p, Guarded(atom, check)) && |s| + Need(atom) + (if check then 1 else 0) <= m.stackMax
               && (check || !NeedCheck(atom))
    ensures Yields(m, Go(p, x, s, k), p + |Guarded(TCode(m, a, back, cap), check)|, s, k,
                   Moved(x, Match(m.subject, a, back, cap, x)))
    decreases a, 1, 0, 0, 0
  {
    hide Yields, At, Need, TermCode, Match, Step, Moved, NeedCheck, MachineOk, Valid, WellFormed, Captures;
    var atom := TCode(m, a, back, cap);
    var ys := Match(m.subject, a, back, cap, x);
    if check {
      GuardedLayout(m.code, p, atom);
      PushPosStep(m, p, x, s, k);
      TermRuns(m, p + 1, a, back, cap, x, s + [x.pos], k);
      GuardYields(m, Go(p + 1, x, s + [x.pos], k), p + 1 + |atom|, x, s, k, ys);
      YieldsStep(m, Go(p, x, s, k), p + 2 + |atom|, s, k, Moved(x, ys));
    } else {
      TermRuns(m, p, a, back, cap, x, s, k);
      UncheckedMoves(m.subject, a, back, cap, x);
    }
  }

  /** Without the check, every match moves. */
  lemma UncheckedMoves(s: Subject, a: Term, back: bool, cap: nat, x: MatchState)
    requires WellFormed(a) && Valid(s, x) && cap + Captures(a) <= s.captureCount
    requires !NeedCheck(TermCode(s.opts, a, back, cap))
    ensures Moved(x, Match(s, a, back, cap, x)) == Match(s, a, back, cap, x)
  {
    hide TermCode, Match, Moved;
    TermMoves(s, a, back, cap, x);
    MovedIsAll(x, Match(s, a, back, cap, x));
  }

  /** A loop that repeats the atom at p exactly n more times, with n on the operand stack. */
  lemma {:induction false} ExactRuns(m: Machine, p: int, a: Term, back: bool, cap: nat, n: nat, x: MatchState,
                                     s: seq<int>, k: seq<State>)
    requires MachineOk(m) && TermOk(m, a, cap) && Valid(m.subject, x) && n >= 1
    requires var atom := TCode(m, a, back, cap);
             At(m.code, p, atom) && |s| + 1 + Need(atom) <= m.stackMax && Int32(-(|atom| + 5))
             && At(m.code, p + |atom|, [LOOP] + PutU32(-(|atom| + 5))) && At(m.code, p + |atom| + 5, [DROP])
    ensures Yields(m, Go(p, x, s + [n], k), p + |TCode(m, a, back, cap)| + 6, s, k,
                   MatchExactly(m.subject, a, back, cap, n, x))
    decreases a, 2, n, 0, 0
  {
    hide Yields, At, Need, TermCode, Match, MatchExactlyAll;
    var atom := TCode(m, a, back, cap);
    TermRuns(m, p, a, back, cap, x, s + [n], k);
    ExactAllRuns(m, Go(p, x, s + [n], k), p, a, back, cap, n - 1, x, s, k, Match(m.subject, a, back, cap, x));
  }

  lemma {:induction false} ExactAllRuns(m: Machine, c: Config, p: int, a: Term, back: bool, cap: nat, n: nat,
                                        x: MatchState,
                                        s: seq<int>, k: seq<State>, ys: seq<MatchState>)
    requires MachineOk(m) && TermOk(m, a, cap) && AllFrom(m.subject, back, x, ys)
    requires var atom := TCode(m, a, back, cap);
             At(m.code, p, atom) && |s| + 1 + Need(atom) <= m.stackMax && Int32(-(|atom| + 5))
             && At(m.code, p + |atom|, [LOOP] + PutU32(-(|atom| + 5))) && At(m.code, p + |atom| + 5, [DROP])
    requires Yields(m, c, p + |TCode(m, a, back, cap)|, s + [n + 1], k, ys)
    ensures Yields(m, c, p + |TCode(m, a, back, cap)| + 6, s, k, MatchExactlyAll(m.subject, a, back, cap, n, x, ys))
    decreases a, 2, n, 1, |ys|
  {
    hide Yields, At, Need, TermCode, Match, NoLook, Reaches;
    var len := |TCode(m, a, back, cap)|;
    var q := p + len + 6;
    if |ys| == 0 {
      YieldsEmpty(m, c, p + len, s + [n + 1], q, s, k, ys);
    } else {
      var more := YieldsHead(m, c, p + len, s + [n + 1], k, ys);
      ExactAllRuns(m, Unwind(k + more), p, a, back, cap, n, x, s, k, ys[1..]);
      if n > 0 {
        ExactRuns(m, p, a, back, cap, n, ys[0], s, k + more);
      }
      var zs := MatchExactly(m.subject, a, back, cap, n, ys[0]);
      ExactTurn(m, p, n + 1, len, ys[0], s, k + more, zs);
      YieldsThen(m, c, p + len, ys[0], s + [n + 1], more, q, s, k, zs,
                 MatchExactlyAll(m.subject, a, back, cap, n, x, ys[1..]));
    }
  }

  /** The layout of a star block at p, with room for its operand stack needs. */
  ghost predicate StarAt(m: Machine, p: int, atom: seq<byte>, greedy: bool, s: seq<int>) {
    var check := NeedCheck(atom);
    var g := Guarded(atom, check);
    && At(m.code, p, [SplitOp(greedy)] + PutU32(|g| + 5)) && Int32(|g| + 5)
    && At(m.code, p + 5, g) && At(m.code, p + 5 + |g|, [GOTO] + PutU32(-(|g| + 10))) && Int32(-(|g| + 10))
    && |s| + Need(atom) + (if check then 1 else 0) <= m.stackMax
  }

  ghost function GuardedLength(atom: seq<byte>): int { |Guarded(atom, NeedCheck(atom))| }

  lemma {:induction false} StarRuns(m: Machine, p: int, a: Term, greedy: bool, back: bool, cap: nat, x: MatchState,
                                    s: seq<int>, k: seq<State>)
    requires MachineOk(m) && TermOk(m, a, cap) && Valid(m.subject, x) && StarAt(m, p, TCode(m, a, back, cap), greedy, s)
    ensures Yields(m, Go(p, x, s, k), p + 10 + GuardedLength(TCode(m, a, back, cap)), s, k,
                   MatchUpTo(m.subject, a, back, cap, INFINITE, greedy, x))
    decreases a, 2, Distance(m.subject, back, x), 1, 0
  {
    hide Yields, At, Need, TermCode, Match, MatchUpTo, MatchUpToAll, NeedCheck, Guarded, MatchMoved, Moved;
    var atom := TCode(m, a, back, cap);
    var len := GuardedLength(atom);
    var exit := p + 10 + len;
    var k1 := TailOf(k, greedy, exit, x, s);
    GuardedRuns(m, p + 5, a, NeedCheck(atom), back, cap, x, s, k1);
    var ys := MatchUpToUnfold(m.subject, a, back, cap, INFINITE, greedy, x);
    MovedCloser(m.subject, back, x, ys);
    StarAllRuns(m, Go(p + 5, x, s, k1), p, a, greedy, back, cap, x, Distance(m.subject, back, x), s, k1, ys);
    YieldsOne(m, exit, x, s, TailOf(k, !greedy, p + 5, x, s));
    ChoiceYields(m, p, greedy, exit, x, s, k, exit, s, MatchUpToAll(m.subject, a, back, cap, INFINITE, greedy, x, ys));
  }

  ghost predicate Closer(s: Subject, back: bool, d: int, ys: seq<MatchState>) {
    forall i :: 0 <= i < |ys| ==> Distance(s, back, ys[i]) < d
  }

  lemma MovedCloser(s: Subject, back: bool, x: MatchState, ys: seq<MatchState>)
    requires AllFrom(s, back, x, ys) && AllMoved(x, ys)
    ensures Closer(s, back, Distance(s, back, x), ys)
  {
  }

  /** From the end of an iteration, go round the loop again in each of the states ys. */
  lemma {:induction false} StarAllRuns(m: Machine, c: Config, p: int, a: Term, greedy: bool, back: bool, cap: nat,
                                       x: MatchState, d: int,
                                       s: seq<int>, k: seq<State>, ys: seq<MatchState>)
    requires MachineOk(m) && TermOk(m, a, cap) && AllFrom(m.subject, back, x, ys)
             && StarAt(m, p, TCode(m, a, back, cap), greedy, s)
    requires Closer(m.subject, back, d, ys)
    requires Yields(m, c, p + 5 + GuardedLength(TCode(m, a, back, cap)), s, k, ys)
    ensures Yields(m, c, p + 10 + GuardedLength(TCode(m, a, back, cap)), s, k,
                   MatchUpToAll(m.subject, a, back, cap, INFINITE, greedy, x, ys))
    decreases a, 2, d, 0, |ys|
  {
    hide Yields, At, Need, TermCode, Match, MatchUpTo, NeedCheck, Guarded, NoLook, Reaches;
    var len := GuardedLength(TCode(m, a, back, cap));
    if |ys| == 0 {
      YieldsEmpty(m, c, p + 5 + len, s, p + 10 + len, s, k, ys);
    } else {
      var more := YieldsHead(m, c, p + 5 + len, s, k, ys);
      StarAllRuns(m, Unwind(k + more), p, a, greedy, back, cap, x, d, s, k, ys[1..]);
      StarRuns(m, p, a, greedy, back, cap, ys[0], s, k + more);
      var zs := MatchUpTo(m.subject, a, back, cap, INFINITE, greedy, ys[0]);
      StarTurn(m, p, len, ys[0], s, k + more, zs);
      YieldsThen(m, c, p + 5 + len, ys[0], s, more, p + 10 + len, s, k, zs,
                 MatchUpToAll(m.subject, a, back, cap, INFINITE, greedy, x, ys[1..]));
    }
  }

  /** The layout of an up-to block at p (after its push instruction), with room for its operand stack needs. */
  ghost predicate UpToAt(m: Machine, p: int, atom: seq<byte>, greedy: bool, s: seq<int>) {
    var check := NeedCheck(atom);
    var g := Guarded(atom, check);
    && At(m.code, p, [SplitOp(greedy)] + PutU32(|g| + 5)) && Int32(|g| + 5)
    && At(m.code, p + 5, g) && At(m.code, p + 5 + |g|, [LOOP] + PutU32(-(|g| + 10))) && Int32(-(|g| + 10))
    && At(m.code, p + 10 + |g|, [DROP])
    && |s| + 1 + Need(atom) + (if check then 1 else 0) <= m.stackMax
  }

  /** A loop of at most n more iterations, with n on the operand stack. */
  lemma {:induction false} UpToRuns(m: Machine, p: int, a: Term, n: int, greedy: bool, back: bool, cap: nat,
                                    x: MatchState, s: seq<int>, k: seq<State>)
    requires MachineOk(m) && TermOk(m, a, cap) && Valid(m.subject, x) && UpToAt(m, p, TCode(m, a, back, cap), greedy, s)
    requires 1 <= n < INFINITE
    ensures Yields(m, Go(p, x, s + [n], k), p + 11 + GuardedLength(TCode(m, a, back, cap)), s, k,
                   MatchUpTo(m.subject, a, back, cap, n, greedy, x))
    decreases a, 3, Distance(m.subject, back, x), 1, 0
  {
    hide Yields, At, Need, TermCode, Match, MatchUpTo, MatchUpToAll, NeedCheck, Guarded, MatchMoved, Moved, Step;
    var atom := TCode(m, a, back, cap);
    var len := GuardedLength(atom);
    var exit := p + 10 + len;
    var stack := s + [n];
    var k1, k2 := TailOf(k, greedy, exit, x, stack), TailOf(k, !greedy, p + 5, x, stack);
    GuardedRuns(m, p + 5, a, NeedCheck(atom), back, cap, x, stack, k1);
    var ys := MatchUpToUnfold(m.subject, a, back, cap, n, greedy, x);
    MovedCloser(m.subject, back, x, ys);
    UpToAllRuns(m, Go(p + 5, x, stack, k1), p, a, n - 1, greedy, back, cap, x, Distance(m.subject, back, x), s, k1, ys);
    DropStep(m, exit, n, x, s, k2);
    StepYields(m, Go(exit, x, stack, k2), p + 11 + len, x, s, k2, [x]);
    ChoiceYields(m, p, greedy, exit, x, stack, k, p + 11 + len, s,
                 MatchUpToAll(m.subject, a, back, cap, n - 1, greedy, x, ys));
  }

  lemma {:induction false} UpToAllRuns(m: Machine, c: Config, p: int, a: Term, n: int, greedy: bool, back: bool,
                                       cap: nat, x: MatchState, d: int,
                                       s: seq<int>, k: seq<State>, ys: seq<MatchState>)
    requires MachineOk(m) && TermOk(m, a, cap) && AllFrom(m.subject, back, x, ys)
             && UpToAt(m, p, TCode(m, a, back, cap), greedy, s)
    requires 0 <= n < INFINITE - 1 && Closer(m.subject, back, d, ys)
    requires Yields(m, c, p + 5 + GuardedLength(TCode(m, a, back, cap)), s + [n + 1], k, ys)
    ensures Yields(m, c, p + 11 + GuardedLength(TCode(m, a, back, cap)), s, k,
                   MatchUpToAll(m.subject, a, back, cap, n, greedy, x, ys))
    decreases a, 3, d, 0, |ys|
  {
    hide Yields, At, Need, TermCode, Match, MatchUpTo, NeedCheck, Guarded, NoLook, Reaches;
    var len := GuardedLength(TCode(m, a, back, cap));
    if |ys| == 0 {
      YieldsEmpty(m, c, p + 5 + len, s + [n + 1], p + 11 + len, s, k, ys);
    } else {
      var more := YieldsHead(m, c, p + 5 + len, s + [n + 1], k, ys);
      UpToAllRuns(m, Unwind(k + more), p, a, n, greedy, back, cap, x, d, s, k, ys[1..]);
      if n == 0 {
        UpToNothing(m.subject, a, back, cap, greedy, ys[0]);
      } else {
        UpToRuns(m, p, a, n, greedy, back, cap, ys[0], s, k + more);
      }
      var zs := MatchUpTo(m.subject, a, back, cap, n, greedy, ys[0]);
      UpToTurn(m, p, n + 1, len, ys[0], s, k + more, zs);
      YieldsThen(m, c, p + 5 + len, ys[0], s + [n + 1], more, p + 11 + len, s, k, zs,
                 MatchUpToAll(m.subject, a, back, cap, n, greedy, x, ys[1..]));
    }
  }

  lemma UpToNothing(s: Subject, a: Term, back: bool, cap: nat, greedy: bool, x: MatchState)
    requires WellFormed(a) && Valid(s, x) && cap + Captures(a) <= s.captureCount
    ensures MatchUpTo(s, a, back, cap, 0, greedy, x) == [x]
  {
  }

  /** Zero or one iteration. */
  lemma {:induction false} OptionRuns(m: Machine, p: int, a: Term, greedy: bool, back: bool, cap: nat, x: MatchState,
                                      s: seq<int>, k: seq<State>)
    requires MachineOk(m) && TermOk(m, a, cap) && Valid(m.subject, x)
    requires var atom := TCode(m, a, back, cap); var check := NeedCheck(atom); var g := Guarded(atom, check);
             At(m.code, p, [SplitOp(greedy)] + PutU32(|g|)) && Int32(|g|) && At(m.code, p + 5, g)
             && |s| + Need(atom) + (if check then 1 else 0) <= m.stackMax
    ensures Yields(m, Go(p, x, s, k), p + 5 + GuardedLength(TCode(m, a, back, cap)), s, k,
                   MatchUpTo(m.subject, a, back, cap, 1, greedy, x))
    decreases a, 3, 0, 0, 0
  {
    hide Yields, At, Need, TermCode, Match, MatchUpTo, MatchUpToAll, NeedCheck, Guarded, MatchMoved, Moved, Valid,
      WellFormed, Captures, PutU32, Step;
    var atom := TCode(m, a, back, cap);
    var exit := p + 5 + GuardedLength(atom);
    var k1 := TailOf(k, greedy, exit, x, s);
    GuardedRuns(m, p + 5, a, NeedCheck(atom), back, cap, x, s, k1);
    var ys := MatchUpToUnfold(m.subject, a, back, cap, 1, greedy, x);
    ExactlyOnce(m.subject, a, back, cap, greedy, x, ys);
    YieldsOne(m, exit, x, s, TailOf(k, !greedy, p + 5, x, s));
    ChoiceYields(m, p, greedy, exit, x, s, k, exit, s, ys);
  }

  /** The layout of a plus block at p. */
  ghost predicate PlusAt(m: Machine, p: int, atom: seq<byte>, greedy: bool, s: seq<int>) {
    && At(m.code, p, atom) && At(m.code, p + |atom|, [SplitOp(!greedy)] + PutU32(-(|atom| + 5))) && Int32(-(|atom| + 5))
    && |s| + Need(atom) <= m.stackMax && !NeedCheck(atom)
  }

  /** From the end of an iteration of a plus block: iterate again or go on. */
  lemma {:induction false} PlusRuns(m: Machine, p: int, a: Term, greedy: bool, back: bool, cap: nat, x: MatchState,
                                    s: seq<int>, k: seq<State>)
    requires MachineOk(m) && TermOk(m, a, cap) && Valid(m.subject, x) && PlusAt(m, p, TCode(m, a, back, cap), greedy, s)
    ensures Yields(m, Go(p + |TCode(m, a, back, cap)|, x, s, k), p + |TCode(m, a, back, cap)| + 5, s, k,
                   MatchUpTo(m.subject, a, back, cap, INFINITE, greedy, x))
    decreases a, 4, Distance(m.subject, back, x), 1, 0
  {
    hide Yields, At, Need, TermCode, Match, MatchUpTo, MatchUpToAll, NeedCheck, MatchMoved, Moved;
    var atom := TCode(m, a, back, cap);
    var q, exit := p + |atom|, p + |atom| + 5;
    var k1 := TailOf(k, greedy, exit, x, s);
    GuardedRuns(m, p, a, false, back, cap, x, s, k1);
    var ys := MatchUpToUnfold(m.subject, a, back, cap, INFINITE, greedy, x);
    MovedCloser(m.subject, back, x, ys);
    PlusAllRuns(m, Go(p, x, s, k1), p, a, greedy, back, cap, x, Distance(m.subject, back, x), s, k1, ys);
    YieldsOne(m, exit, x, s, TailOf(k, !greedy, p, x, s));
    PlusChoice(m, p, greedy, |atom|, x, s, k, MatchUpToAll(m.subject, a, back, cap, INFINITE, greedy, x, ys));
  }

  lemma PlusChoice(m: Machine, p: int, greedy: bool, len: int, x: MatchState, s: seq<int>, k: seq<State>,
                   more: seq<MatchState>)
    requires At(m.code, p + len, [SplitOp(!greedy)] + PutU32(-(len + 5))) && Int32(-(len + 5)) && Valid(m.subject, x)
    requires var k1 := TailOf(k, greedy, p + len + 5, x, s); Yields(m, Go(p, x, s, k1), p + len + 5, s, k1, more)
    requires var k2 := TailOf(k, !greedy, p, x, s); Yields(m, Go(p + len + 5, x, s, k2), p + len + 5, s, k2, [x])
    ensures Yields(m, Go(p + len, x, s, k), p + len + 5, s, k, if greedy then more + [x] else [x] + more)
  {
    hide Yields, Step, At;
    SplitYields(m, p + len, !greedy, -(len + 5), x, s, k, p + len + 5, s, if greedy then more else [x], if greedy
                then [x] else more);
  }

  lemma {:induction false} PlusAllRuns(m: Machine, c: Config, p: int, a: Term, greedy: bool, back: bool, cap: nat,
                                       x: MatchState, d: int,
                                       s: seq<int>, k: seq<State>, ys: seq<MatchState>)
    requires MachineOk(m) && TermOk(m, a, cap) && AllFrom(m.subject, back, x, ys)
             && PlusAt(m, p, TCode(m, a, back, cap), greedy, s)
    requires Closer(m.subject, back, d, ys)
    requires Yields(m, c, p + |TCode(m, a, back, cap)|, s, k, ys)
    ensures Yields(m, c, p + |TCode(m, a, back, cap)| + 5, s, k,
                   MatchUpToAll(m.subject, a, back, cap, INFINITE, greedy, x, ys))
    decreases a, 4, d, 0, |ys|
  {
    hide Yields, At, Need, TermCode, Match, MatchUpTo, NeedCheck, NoLook, Reaches;
    var len := |TCode(m, a, back, cap)|;
    if |ys| == 0 {
      YieldsEmpty(m, c, p + len, s, p + len + 5, s, k, ys);
    } else {
      var more := YieldsHead(m, c, p + len, s, k, ys);
      PlusAllRuns(m, Unwind(k + more), p, a, greedy, back, cap, x, d, s, k, ys[1..]);
      PlusRuns(m, p, a, greedy, back, cap, ys[0], s, k + more);
      YieldsThen(m, c, p + len, ys[0], s, more, p + len + 5, s, k,
                 MatchUpTo(m.subject, a, back, cap, INFINITE, greedy, ys[0]),
                 MatchUpToAll(m.subject, a, back, cap, INFINITE, greedy, x, ys[1..]));
    }
  }

  lemma OneIteration(s: Subject, a: Term, back: bool, cap: nat, x: MatchState)
    requires WellFormed(a) && Valid(s, x) && cap + Captures(a) <= s.captureCount
    ensures MatchExactly(s, a, back, cap, 1, x) == Match(s, a, back, cap, x)
  {
    hide Match;
    ExactlyOnce(s, a, back, cap, true, x, Match(s, a, back, cap, x));
  }

  /** The state in which a quantifier starts its iterations: a minimum of 0 clears the captures of the atom. */
  function Entered(a: Term, min: int, cap: nat, x: MatchState): MatchState {
    if min == 0 then x.(captures := ResetCaptures(x.captures, cap, cap + Captures(a))) else x
  }

  lemma EnteredOk(s: Subject, a: Term, min: int, max: int, greedy: bool, back: bool, cap: nat, x: MatchState)
    requires WellFormed(a) && 0 <= min <= max <= INFINITE && Valid(s, x) && cap + Captures(a) <= s.captureCount
    ensures Valid(s, Entered(a, min, cap, x))
            && AllFrom(s, back, x, MatchExactly(s, a, back, cap, min, Entered(a, min, cap, x)))
    ensures Match(s, Quantified(a, min, max, greedy), back, cap, x)
            == MatchUpToAll(s, a, back, cap, Remaining(min, max), greedy, x,
                            MatchExactly(s, a, back, cap, min, Entered(a, min, cap, x)))
  {
    hide MatchUpToAll, MatchExactly;
  }

  lemma EnteredPlain(a: Term, cap: nat, x: MatchState)
    requires Captures(a) == 0
    ensures Entered(a, 0, cap, x) == x
  {
    assert ResetCaptures(x.captures, cap, cap + Captures(a)) == x.captures;
  }

  /** The first min iterations. */
  lemma {:induction false} HeadRuns(m: Machine, p: int, a: Term, min: int, max: int, back: bool, cap: nat,
                                    x: MatchState, s: seq<int>, k: seq<State>)
    requires MachineOk(m) && TermOk(m, a, cap) && Valid(m.subject, x) && 0 <= min <= INFINITE
    requires Loaded(m, p, GeneralHead(TCode(m, a, back, cap), min, max, cap, cap + Captures(a)), s)
    requires Scanned(TCode(m, a, back, cap)) && Valid(m.subject, Entered(a, min, cap, x))
    ensures Yields(m, Go(p, x, s, k), p + |GeneralHead(TCode(m, a, back, cap), min, max, cap, cap + Captures(a))|, s, k,
                   MatchExactly(m.subject, a, back, cap, min, Entered(a, min, cap, x)))
    decreases a, 5, 0, 0, 0
  {
    hide Yields, At, Need, TermCode, Match, ExactBlock, Step, Scanned, MatchExactly, Entered;
    var atom := TCode(m, a, back, cap);
    if min == 0 {
      ResetRuns(m, p, a, back, cap, x, s, k);
    } else if min == 1 {
      TermRuns(m, p, a, back, cap, x, s, k);
      OneIteration(m.subject, a, back, cap, x);
      EnteredSame(a, min, cap, x);
    } else {
      ExactLayout(m.code, p, atom, min);
      ScannedExact(atom, min);
      PushStep(m, p, min, x, s, k);
      ExactRuns(m, p + 5, a, back, cap, min, x, s, k);
      EnteredSame(a, min, cap, x);
      YieldsStep(m, Go(p, x, s, k), p + |atom| + 11, s, k, MatchExactly(m.subject, a, back, cap, min, x));
    }
  }

  lemma EnteredSame(a: Term, min: int, cap: nat, x: MatchState)
    requires min > 0
    ensures Entered(a, min, cap, x) == x
  {
  }

  lemma ResetRuns(m: Machine, p: int, a: Term, back: bool, cap: nat, x: MatchState, s: seq<int>, k: seq<State>)
    requires MachineOk(m) && TermOk(m, a, cap) && Valid(m.subject, x) && Valid(m.subject, Entered(a, 0, cap, x))
    requires At(m.code, p, ResetCode(cap, cap + Captures(a)))
    ensures Yields(m, Go(p, x, s, k), p + |ResetCode(cap, cap + Captures(a))|, s, k,
                   MatchExactly(m.subject, a, back, cap, 0, Entered(a, 0, cap, x)))
  {
    hide Yields, Step, At, Match;
    var x' := Entered(a, 0, cap, x);
    if Captures(a) == 0 {
      EnteredPlain(a, cap, x);
      YieldsOne(m, p, x, s, k);
    } else {
      ResetStep(m, p, cap, cap + Captures(a), x, s, k);
      StepYields(m, Go(p, x, s, k), p + 3, x, s, k, [x']);
    }
  }

  /** The push of the iteration count that begins a counted loop. */
  lemma UpToStarts(m: Machine, p: int, atom: seq<byte>, greedy: bool, n: int, x: MatchState, s: seq<int>, k: seq<State>)
    requires MachineOk(m) && Scanned(atom) && 1 <= n < INFINITE && Valid(m.subject, x)
    requires var block := UpToBlock(atom, greedy, NeedCheck(atom), n);
             At(m.code, p, block) && |s| + Need(block) <= m.stackMax
    ensures UpToAt(m, p + 5, atom, greedy, s)
            && |UpToBlock(atom, greedy, NeedCheck(atom), n)| == 16 + GuardedLength(atom)
    ensures Step(m, Go(p, x, s, k)) == Go(p + 5, x, s + [n], k)
  {
    hide At, Need, UpToBlock, Step, Scanned, NeedCheck, Guarded;
    var check := NeedCheck(atom);
    UpToLayout(m.code, p, atom, greedy, check, n);
    ScannedUpTo(atom, greedy, check, n);
    PushStep(m, p, n, x, s, k);
  }

  /** The iterations after the first min ones, from one state. */
  lemma {:induction false} TailRuns(m: Machine, p: int, a: Term, min: int, max: int, greedy: bool, back: bool,
                                    cap: nat, x: MatchState,
                                    s: seq<int>, k: seq<State>)
    requires MachineOk(m) && TermOk(m, a, cap) && Valid(m.subject, x) && 0 <= min <= max <= INFINITE
    requires Loaded(m, p, GeneralTail(TCode(m, a, back, cap), min, max, greedy), s) && Scanned(TCode(m, a, back, cap))
    ensures Yields(m, Go(p, x, s, k), p + |GeneralTail(TCode(m, a, back, cap), min, max, greedy)|, s, k,
                   MatchUpTo(m.subject, a, back, cap, Remaining(min, max), greedy, x))
    decreases a, 5, 0, 0, 0
  {
    hide Yields, At, Need, TermCode, OptionBlock, StarBlock, UpToBlock, Step, Scanned, MatchUpTo, NeedCheck, Guarded,
      Valid, WellFormed, Captures;
    hide UpToAt;
    var atom := TCode(m, a, back, cap);
    var check := NeedCheck(atom);
    if min == 0 && max == 1 {
      OptionLayout(m.code, p, atom, greedy, check);
      ScannedOption(atom, greedy, check);
      OptionRuns(m, p, a, greedy, back, cap, x, s, k);
    } else if max == INFINITE {
      StarLayout(m.code, p, atom, greedy, check);
      ScannedStar(atom, greedy, check);
      StarRuns(m, p, a, greedy, back, cap, x, s, k);
    } else if max > min {
      var n := max - min;
      UpToStarts(m, p, atom, greedy, n, x, s, k);
      UpToRuns(m, p + 5, a, n, greedy, back, cap, x, s, k);
      YieldsStep(m, Go(p, x, s, k), p + 16 + GuardedLength(atom), s, k,
                 MatchUpTo(m.subject, a, back, cap, n, greedy, x));
    } else {
      UpToNothing(m.subject, a, back, cap, greedy, x);
      YieldsOne(m, p, x, s, k);
    }
  }

  lemma {:induction false} TailAllRuns(m: Machine, c: Config, p: int, a: Term, min: int, max: int, greedy: bool,
                                       back: bool, cap: nat,
                                       x: MatchState, s: seq<int>, k: seq<State>, ys: seq<MatchState>)
    requires MachineOk(m) && TermOk(m, a, cap) && AllFrom(m.subject, back, x, ys) && 0 <= min <= max <= INFINITE
    requires Loaded(m, p, GeneralTail(TCode(m, a, back, cap), min, max, greedy), s) && Scanned(TCode(m, a, back, cap))
    requires Yields(m, c, p, s, k, ys)
    ensures Yields(m, c, p + |GeneralTail(TCode(m, a, back, cap), min, max, greedy)|, s, k,
                   MatchUpToAll(m.subject, a, back, cap, Remaining(min, max), greedy, x, ys))
    decreases a, 5, 0, 1, |ys|
  {
    hide Yields, At, Need, TermCode, GeneralTail, Scanned, MatchUpTo, NoLook, Reaches;
    var q := p + |GeneralTail(TCode(m, a, back, cap), min, max, greedy)|;
    var n := Remaining(min, max);
    if |ys| == 0 {
      YieldsEmpty(m, c, p, s, q, s, k, ys);
    } else {
      var more := YieldsHead(m, c, p, s, k, ys);
      TailAllRuns(m, Unwind(k + more), p, a, min, max, greedy, back, cap, x, s, k, ys[1..]);
      TailRuns(m, p, a, min, max, greedy, back, cap, ys[0], s, k + more);
      YieldsThen(m, c, p, ys[0], s, more, q, s, k, MatchUpTo(m.subject, a, back, cap, n, greedy, ys[0]),
                 MatchUpToAll(m.subject, a, back, cap, n, greedy, x, ys[1..]));
    }
  }

  lemma {:induction false} QuantifiedRuns(m: Machine, p: int, a: Term, min: int, max: int, greedy: bool, back: bool,
                                          cap: nat,
                                          x: MatchState, s: seq<int>, k: seq<State>)
    requires MachineOk(m) && TermOk(m, a, cap) && Valid(m.subject, x) && 0 <= min <= max <= INFINITE
    requires Loaded(m, p, QuantifierCode(TCode(m, a, back, cap), min, max, greedy, cap, cap + Captures(a)), s)
    ensures Yields(m, Go(p, x, s, k), p
                   + |QuantifierCode(TCode(m, a, back, cap), min, max, greedy, cap, cap + Captures(a))|, s, k,
                   MatchQuantifier(m.subject, a, min, max, greedy, back, cap, x))
    decreases a, 6, 0, 0, 0
  {
    hide Yields, At, Need, TermCode, Match, GeneralCode, SimpleBlock, SimpleLength, NeedCheck, PlusBlock, GeneralHead,
      GeneralTail, Scanned;
    var atom := TCode(m, a, back, cap);
    TermScanned(m.subject.opts, a, back, cap);
    if UsesSimpleBlock(atom, max, greedy) {
      SimpleLengthFits(m, p, atom, min, max);
      SimpleBlockRuns(m, p, a, back, cap, SimpleLength(atom), min, max, x, s, k);
    } else {
      GeneralCodeRuns(m, p, a, min, max, greedy, back, cap, x, s, k);
    }
  }

  /** The general translation of a quantifier, whatever its atom. */
  lemma {:induction false} GeneralCodeRuns(m: Machine, p: int, a: Term, min: int, max: int, greedy: bool, back: bool,
                                           cap: nat,
                                           x: MatchState, s: seq<int>, k: seq<State>)
    requires MachineOk(m) && TermOk(m, a, cap) && Valid(m.subject, x) && 0 <= min <= max <= INFINITE
    requires Loaded(m, p, GeneralCode(TCode(m, a, back, cap), min, max, greedy, cap, cap + Captures(a)), s)
    ensures Yields(m, Go(p, x, s, k), p
                   + |GeneralCode(TCode(m, a, back, cap), min, max, greedy, cap, cap + Captures(a))|, s, k,
                   MatchQuantifier(m.subject, a, min, max, greedy, back, cap, x))
    decreases a, 5, 2, 0, 0
  {
    hide Yields, At, Need, TermCode, MatchQuantifier, GeneralCode, NeedCheck, PlusBlock, GeneralHead, GeneralTail,
      Scanned, Valid;
    var atom := TCode(m, a, back, cap);
    TermScanned(m.subject.opts, a, back, cap);
    GeneralParts(atom, min, max, greedy, cap, cap + Captures(a));
    if min == 1 && max == INFINITE && !NeedCheck(atom) {
      PlusQuantifierRuns(m, p, a, greedy, back, cap, x, s, k);
    } else {
      GeneralRuns(m, p, a, min, max, greedy, back, cap, x, s, k);
    }
  }

  /**
   * The optimisation preserves meaning: for a greedy quantifier whose atom the compiler takes for simple, the block at
   * p and the general loop at q produce the same match states in the same order, from every state.
   */
  lemma SimpleAgreesWithGeneral(m: Machine, p: int, q: int, a: Term, min: int, max: int, back: bool, cap: nat,
                                x: MatchState,
                                s: seq<int>, k: seq<State>)
      returns (ys: seq<MatchState>)
    requires MachineOk(m) && TermOk(m, a, cap) && Valid(m.subject, x) && 0 <= min <= max <= INFINITE
    requires var atom := TCode(m, a, back, cap);
             && UsesSimpleBlock(atom, max, true)
             && Loaded(m, p, SimpleBlock(atom, min, max, SimpleLength(atom)), s)
             && Loaded(m, q, GeneralCode(atom, min, max, true, cap, cap + Captures(a)), s)
    ensures ys == MatchQuantifier(m.subject, a, min, max, true, back, cap, x)
    ensures var atom := TCode(m, a, back, cap);
            && Yields(m, Go(p, x, s, k), p + |SimpleBlock(atom, min, max, SimpleLength(atom))|, s, k, ys)
            && Yields(m, Go(q, x, s, k), q + |GeneralCode(atom, min, max, true, cap, cap + Captures(a))|, s, k, ys)
  {
    hide Yields, Loaded, TermCode, MatchQuantifier, GeneralCode, SimpleBlock, SimpleLength, Valid;
    var atom := TCode(m, a, back, cap);
    ys := MatchQuantifier(m.subject, a, min, max, true, back, cap, x);
    assert QuantifierCode(atom, min, max, true, cap, cap + Captures(a))
           == SimpleBlock(atom, min, max, SimpleLength(atom));
    QuantifiedRuns(m, p, a, min, max, true, back, cap, x, s, k);
    GeneralCodeRuns(m, q, a, min, max, true, back, cap, x, s, k);
  }

  lemma SimpleLengthFits(m: Machine, p: int, atom: seq<byte>, min: int, max: int)
    requires At(m.code, p, SimpleBlock(atom, min, max, SimpleLength(atom))) && |m.code| < TWO31
    ensures SimpleLength(atom) < TWO31 && 0 <= p
  {
    hide SimpleLength;
    SimpleLengthBound(atom);
  }

  lemma {:induction false} PlusQuantifierRuns(m: Machine, p: int, a: Term, greedy: bool, back: bool, cap: nat,
                                              x: MatchState,
                                              s: seq<int>, k: seq<State>)
    requires MachineOk(m) && TermOk(m, a, cap) && Valid(m.subject, x) && Scanned(TCode(m, a, back, cap))
             && !NeedCheck(TCode(m, a, back, cap))
    requires Loaded(m, p, PlusBlock(TCode(m, a, back, cap), greedy), s)
    ensures Yields(m, Go(p, x, s, k), p + |PlusBlock(TCode(m, a, back, cap), greedy)|, s, k,
                   MatchQuantifier(m.subject, a, 1, INFINITE, greedy, back, cap, x))
    decreases a, 5, 0, 0, 0
  {
    hide Yields, At, Need, TermCode, Match, PlusBlock, NeedCheck, Scanned, MatchExactly, MatchUpToAll;
    var atom := TCode(m, a, back, cap);
    PlusLayout(m.code, p, atom, greedy);
    ScannedPlus(atom, greedy);
    TermRuns(m, p, a, back, cap, x, s, k);
    OneIteration(m.subject, a, back, cap, x);
    EnteredOk(m.subject, a, 1, INFINITE, greedy, back, cap, x);
    AllClose(m.subject, back, x, Match(m.subject, a, back, cap, x));
    PlusAllRuns(m, Go(p, x, s, k), p, a, greedy, back, cap, x, |m.subject.input| + 1, s, k,
                Match(m.subject, a, back, cap, x));
  }

  lemma AllClose(s: Subject, back: bool, x: MatchState, ys: seq<MatchState>)
    requires AllFrom(s, back, x, ys)
    ensures Closer(s, back, |s.input| + 1, ys)
  {
  }

  lemma {:induction false} GeneralRuns(m: Machine, p: int, a: Term, min: int, max: int, greedy: bool, back: bool,
                                       cap: nat, x: MatchState,
                                       s: seq<int>, k: seq<State>)
    requires MachineOk(m) && TermOk(m, a, cap) && Valid(m.subject, x) && 0 <= min <= max <= INFINITE
             && Scanned(TCode(m, a, back, cap))
    requires Loaded(m, p, GeneralHead(TCode(m, a, back, cap), min, max, cap, cap + Captures(a))
                    + GeneralTail(TCode(m, a, back, cap), min, max, greedy), s)
    ensures Yields(m, Go(p, x, s, k),
                   p + |GeneralHead(TCode(m, a, back, cap), min, max, cap, cap + Captures(a))
                     + GeneralTail(TCode(m, a, back, cap), min, max, greedy)|,
                   s, k, MatchQuantifier(m.subject, a, min, max, greedy, back, cap, x))
    decreases a, 5, 1, 0, 0
  {
    hide Yields, At, Need, TermCode, Match, Scanned, MatchExactly, MatchUpToAll, GeneralHead, GeneralTail, Entered;
    var atom := TCode(m, a, back, cap);
    var head, tail := GeneralHead(atom, min, max, cap, cap + Captures(a)), GeneralTail(atom, min, max, greedy);
    AtSplit(m.code, p, head, tail);
    ScannedHead(atom, min, max, cap, cap + Captures(a));
    ScannedTail(atom, min, max, greedy);
    ScannedConcat(head, tail);
    EnteredOk(m.subject, a, min, max, greedy, back, cap, x);
    var ys := MatchExactly(m.subject, a, back, cap, min, Entered(a, min, cap, x));
    HeadRuns(m, p, a, min, max, back, cap, x, s, k);
    TailAllRuns(m, Go(p, x, s, k), p + |head|, a, min, max, greedy, back, cap, x, s, k, ys);
  }

  // ----- sequences and alternatives -----

  lemma {:induction false} TermAllRuns(m: Machine, c: Config, p: int, t: Term, back: bool, cap: nat, x: MatchState,
                                       s: seq<int>, k: seq<State>, ys: seq<MatchState>)
    requires MachineOk(m) && TermOk(m, t, cap) && AllFrom(m.subject, back, x, ys)
             && Loaded(m, p, TCode(m, t, back, cap), s)
    requires Yields(m, c, p, s, k, ys)
    ensures Yields(m, c, p + |TCode(m, t, back, cap)|, s, k, MatchAll(m.subject, t, back, cap, x, ys))
    decreases t, 1, 0, 0, |ys|
  {
    hide Yields, At, Need, TermCode, Match, NoLook, Reaches;
    var q := p + |TCode(m, t, back, cap)|;
    if |ys| == 0 {
      YieldsEmpty(m, c, p, s, q, s, k, ys);
    } else {
      var more := YieldsHead(m, c, p, s, k, ys);
      TermAllRuns(m, Unwind(k + more), p, t, back, cap, x, s, k, ys[1..]);
      TermRuns(m, p, t, back, cap, ys[0], s, k + more);
      YieldsThen(m, c, p, ys[0], s, more, q, s, k, Match(m.subject, t, back, cap, ys[0]),
                 MatchAll(m.subject, t, back, cap, x, ys[1..]));
    }
  }

  ghost predicate SequenceOk(m: Machine, ts: seq<Term>, cap: nat) {
    SequenceWellFormed(ts) && cap + SequenceCaptures(ts) <= m.subject.captureCount
  }

  ghost function SCode(m: Machine, ts: seq<Term>, back: bool, cap: int): seq<byte> {
    SequenceCode(m.subject.opts, ts, back, cap)
  }

  lemma {:induction false} SequenceAllRuns(m: Machine, c: Config, p: int, ts: seq<Term>, back: bool, cap: nat,
                                           x: MatchState,
                                           s: seq<int>, k: seq<State>, ys: seq<MatchState>)
    requires MachineOk(m) && SequenceOk(m, ts, cap) && AllFrom(m.subject, back, x, ys)
             && Loaded(m, p, SCode(m, ts, back, cap), s)
    requires Yields(m, c, p, s, k, ys)
    ensures Yields(m, c, p + |SCode(m, ts, back, cap)|, s, k, MatchSequenceAll(m.subject, ts, back, cap, x, ys))
    decreases ts, 1, 0, 0, |ys|
  {
    hide Yields, At, Need, SequenceCode, MatchSequence, NoLook, Reaches;
    var q := p + |SCode(m, ts, back, cap)|;
    if |ys| == 0 {
      YieldsEmpty(m, c, p, s, q, s, k, ys);
    } else {
      var more := YieldsHead(m, c, p, s, k, ys);
      SequenceAllRuns(m, Unwind(k + more), p, ts, back, cap, x, s, k, ys[1..]);
      SequenceRuns(m, p, ts, back, cap, ys[0], s, k + more);
      YieldsThen(m, c, p, ys[0], s, more, q, s, k, MatchSequence(m.subject, ts, back, cap, ys[0]),
                 MatchSequenceAll(m.subject, ts, back, cap, x, ys[1..]));
    }
  }

  /** The code of the last term lies after, or in the backward direction before, that of the others. */
  lemma SequenceLayout(m: Machine, p: int, head: seq<byte>, tail: seq<byte>, s: seq<int>)
    requires Scanned(head) && Scanned(tail) && Loaded(m, p, head + tail, s)
    ensures Loaded(m, p, head, s) && Loaded(m, p + |head|, tail, s)
  {
    hide At, Need, Scanned;
    AtSplit(m.code, p, head, tail);
    ScannedConcat(head, tail);
  }

  lemma {:induction false} SequenceRuns(m: Machine, p: int, ts: seq<Term>, back: bool, cap: nat, x: MatchState,
                                        s: seq<int>, k: seq<State>)
    requires MachineOk(m) && SequenceOk(m, ts, cap) && Valid(m.subject, x) && Loaded(m, p, SCode(m, ts, back, cap), s)
    ensures Yields(m, Go(p, x, s, k), p + |SCode(m, ts, back, cap)|, s, k, MatchSequence(m.subject, ts, back, cap, x))
    decreases ts, 0, 0, 0, 0
  {
    hide Yields, Loaded, MachineOk, TermCode, SequenceCode, Scanned, MatchSequence, MatchSequenceAll, MatchAll, Match,
      Valid;
    hide Captures, SequenceCaptures, WellFormed, SequenceWellFormed;
    if |ts| == 0 {
      EmptySequence(m.subject, back, cap, x);
      YieldsOne(m, p, x, s, k);
    } else {
      SequenceParts(m.subject, ts, back, cap, x);
      var init, last := ts[..|ts| - 1], ts[|ts| - 1];
      var mid := cap + SequenceCaptures(init);
      var head, tail := SCode(m, init, back, cap), TCode(m, last, back, mid);
      SequenceScanned(m.subject.opts, init, back, cap);
      TermScanned(m.subject.opts, last, back, mid);
      if back {
        SequenceLayout(m, p, tail, head, s);
        TermRuns(m, p, last, back, mid, x, s, k);
        SequenceAllRuns(m, Go(p, x, s, k), p + |tail|, init, back, cap, x, s, k, Match(m.subject, last, back, mid, x));
      } else {
        SequenceLayout(m, p, head, tail, s);
        SequenceRuns(m, p, init, back, cap, x, s, k);
        TermAllRuns(m, Go(p, x, s, k), p + |head|, last, back, mid, x, s, k,
                    MatchSequence(m.subject, init, back, cap, x));
      }
    }
  }

  ghost predicate DisjunctionOk(m: Machine, d: Disjunction, cap: nat) {
    DisjunctionWellFormed(d) && cap + DisjunctionCaptures(d) <= m.subject.captureCount
  }

  ghost function DCode(m: Machine, d: Disjunction, back: bool, cap: int): seq<byte> {
    DisjunctionCode(m.subject.opts, d, back, cap)
  }

  lemma {:induction false} DisjunctionRuns(m: Machine, p: int, d: Disjunction, back: bool, cap: nat, x: MatchState,
                                           s: seq<int>, k: seq<State>)
    requires MachineOk(m) && DisjunctionOk(m, d, cap) && Valid(m.subject, x) && Loaded(m, p, DCode(m, d, back, cap), s)
    ensures Yields(m, Go(p, x, s, k), p + |DCode(m, d, back, cap)|, s, k, MatchDisjunction(m.subject, d, back, cap, x))
    decreases d, 0, 0, 0, 0
  {
    hide Yields, At, Need, SequenceCode, DisjunctionCode, Scanned, MatchSequence, MatchDisjunction, EitherCode;
    hide SequenceCaptures, DisjunctionCaptures, SequenceWellFormed, DisjunctionWellFormed;
    if |d| == 0 {
      EmptySequence(m.subject, back, cap, x);
      YieldsOne(m, p, x, s, k);
    } else {
      var init, last := d[..|d| - 1], d[|d| - 1].terms;
      DisjunctionParts(m.subject, d, back, cap, x);
      var mid := cap + DisjunctionCaptures(init);
      if |d| == 1 {
        SequenceRuns(m, p, last, back, mid, x, s, k);
      } else {
        var left, right := DCode(m, init, back, cap), SCode(m, last, back, mid);
        EitherLayout(m.code, p, left, right);
        DisjunctionScanned(m.subject.opts, init, back, cap);
        SequenceScanned(m.subject.opts, last, back, mid);
        ScannedEither(left, right);
        var choice := Choice(SplitState, p + 10 + |left|, x, s);
        DisjunctionRuns(m, p + 5, init, back, cap, x, s, Push(k, choice));
        SequenceRuns(m, p + 10 + |left|, last, back, mid, x, s, k);
        EitherRuns(m, p, |left|, |right|, x, s, k, MatchDisjunction(m.subject, init, back, cap, x),
                   MatchSequence(m.subject, last, back, mid, x));
      }
    }
  }

  /** The states of the left alternative jump over the right one. */
  lemma EitherRuns(m: Machine, p: int, left: nat, right: nat, x: MatchState, s: seq<int>, k: seq<State>,
                   ys: seq<MatchState>, zs: seq<MatchState>)
    requires At(m.code, p, [SPLIT_NEXT_FIRST] + PutU32(left + 5)) && Int32(left + 5)
    requires At(m.code, p + 5 + left, [GOTO] + PutU32(right)) && Int32(right) && Valid(m.subject, x)
             && AllValid(m.subject, ys)
    requires var k1 := Push(k, Choice(SplitState, p + 10 + left, x, s)); Yields(m, Go(p + 5, x, s, k1), p + 5 + left,
                                                                                s, k1, ys)
    requires Yields(m, Go(p + 10 + left, x, s, k), p + 10 + left + right, s, k, zs)
    ensures Yields(m, Go(p, x, s, k), p + 10 + left + right, s, k, ys + zs)
  {
    hide Yields, At, Step;
    var k1 := Push(k, Choice(SplitState, p + 10 + left, x, s));
    JumpRuns(m, Go(p + 5, x, s, k1), p + 5 + left, right, s, k1, ys);
    SplitYields(m, p, true, left + 5, x, s, k, p + 10 + left + right, s, ys, zs);
  }

  lemma {:induction false} JumpRuns(m: Machine, c: Config, p: int, off: int, s: seq<int>, k: seq<State>,
                                    ys: seq<MatchState>)
    requires At(m.code, p, [GOTO] + PutU32(off)) && Int32(off) && AllValid(m.subject, ys) && Yields(m, c, p, s, k, ys)
    ensures Yields(m, c, p + 5 + off, s, k, ys)
    decreases |ys|
  {
    hide Yields, At, Step, NoLook, Reaches;
    if |ys| == 0 {
      YieldsEmpty(m, c, p, s, p + 5 + off, s, k, ys);
    } else {
      var more := YieldsHead(m, c, p, s, k, ys);
      JumpRuns(m, Unwind(k + more), p, off, s, k, ys[1..]);
      GotoStep(m, p, off, ys[0], s, k + more);
      StepYields(m, Go(p, ys[0], s, k + more), p + 5 + off, ys[0], s, k + more, [ys[0]]);
      YieldsThen(m, c, p, ys[0], s, more, p + 5 + off, s, k, [ys[0]], ys[1..]);
      assert [ys[0]] + ys[1..] == ys;
    }
  }
}
