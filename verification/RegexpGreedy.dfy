/**
 * The simple_greedy_quant instruction tries exactly the states that the general greedy loop would, in the same order.
 */
module RegexpGreedy {
  import opened Bytes
  import opened RegexpOpcodes
  import opened RegexpSyntax
  import opened RegexpAnalysis
  import opened RegexpCode
  import opened RegexpSemantics
  import opened RegexpMachine
  import opened RegexpSteps
  import opened RegexpCharSteps
  import opened RegexpYields
  import opened RegexpLayout
  import opened RegexpLoops
  import opened RegexpSimple

  /** The atom a is simple and consumes length characters. */
  ghost predicate SimpleAtom(s: Subject, a: Term, back: bool, cap: nat, length: int) {
    && SubjectOk(s) && WellFormed(a) && cap + Captures(a) <= s.captureCount
    && SimpleLength(TermCode(s.opts, a, back, cap)) == length && length > 0
  }

  lemma AtomOneWay(s: Subject, a: Term, back: bool, cap: nat, length: int, x: MatchState) returns (ys: seq<MatchState>)
    requires SimpleAtom(s, a, back, cap, length) && Valid(s, x)
    ensures ys == Match(s, a, back, cap, x) && Captures(a) == 0
    ensures |ys| == 0 || (ys == [x.(pos := x.pos + length)] && Valid(s, ys[0]))
  {
    hide Match, TermCode, SimpleLength, SubjectOk, WellFormed, Captures;
    TermSimple(s, a, back, cap, x);
    ys := Match(s, a, back, cap, x);
  }

  function Dec(n: int): int { if n == INFINITE then n else n - 1 }

  /** How often a simple atom matches in a row from x, at most limit times. */
  ghost function Chain(s: Subject, a: Term, back: bool, cap: nat, length: int, limit: int, x: MatchState): nat
    requires SimpleAtom(s, a, back, cap, length) && Valid(s, x)
    decreases |s.input| - x.pos
  {
    if limit <= 0 || |Match(s, a, back, cap, x)| == 0 then 0
    else
      var y := x.(pos := x.pos + length);
      if Valid(s, y) then 1 + Chain(s, a, back, cap, length, Dec(limit), y) else 0
  }

  lemma ChainUnfold(s: Subject, a: Term, back: bool, cap: nat, length: int, limit: int, x: MatchState)
    returns (ys: seq<MatchState>)
    requires SimpleAtom(s, a, back, cap, length) && Valid(s, x) && limit > 0
    ensures ys == Match(s, a, back, cap, x)
    ensures |ys| == 0 ==> Chain(s, a, back, cap, length, limit, x) == 0
    ensures |ys| > 0 ==> ys == [x.(pos := x.pos + length)] && Valid(s, ys[0]) && Ahead(back, x, ys[0])
                         && ys[0] == After(x, length, 1)
                         && Chain(s, a, back, cap, length, limit, x)
                           == 1 + Chain(s, a, back, cap, length, Dec(limit), ys[0])
  {
    hide Match;
    ys := AtomOneWay(s, a, back, cap, length, x);
    assert AllFrom(s, back, x, ys);
    AfterNext(x, length, 0);
  }

  /** x and the c states before it, one length apart, in the order of backtracking. */
  function Down(x: MatchState, length: int, c: nat): (r: seq<MatchState>)
    ensures |r| == c + 1
    decreases c
  {
    if c == 0 then [x] else [x] + Down(x.(pos := x.pos - length), length, c - 1)
  }

  lemma {:induction false} DownLast(x: MatchState, length: int, c: nat)
    ensures Down(x, length, c + 1) == Down(x, length, c) + [x.(pos := x.pos - (c + 1) * length)]
    decreases c
  {
    if c > 0 {
      var y := x.(pos := x.pos - length);
      DownLast(y, length, c - 1);
      assert y.pos - c * length == x.pos - (c + 1) * length;
      assert [x] + (Down(y, length, c - 1) + [y.(pos := y.pos - c * length)])
             == ([x] + Down(y, length, c - 1)) + [y.(pos := y.pos - c * length)];
    }
  }

  /** The state after c iterations. */
  function After(x: MatchState, length: int, c: int): MatchState {
    x.(pos := x.pos + c * length)
  }

  lemma AfterNext(x: MatchState, length: int, c: int)
    ensures After(After(x, length, 1), length, c) == After(x, length, c + 1)
    ensures After(x, length, 0) == x && After(x, length, 1) == x.(pos := x.pos + length)
  {
    assert x.pos + length + c * length == x.pos + (c + 1) * length;
  }

  // ----- what the reference matcher does on a simple atom -----

  /** Greedy optional iterations of a simple atom: as far as it goes, then back one at a time. */
  lemma {:induction false} UpToIsDown(s: Subject, a: Term, back: bool, cap: nat, length: int, n: int, x: MatchState)
    requires SimpleAtom(s, a, back, cap, length) && Valid(s, x) && n >= 0
    ensures var c := Chain(s, a, back, cap, length, n, x);
            MatchUpTo(s, a, back, cap, n, true, x) == Down(After(x, length, c), length, c)
    decreases |s.input| - x.pos
  {
    hide Match, MatchUpTo, Chain, SimpleLength, TermCode, SubjectOk, Down;
    if n == 0 {
      UpToZero(s, a, back, cap, length, x);
    } else {
      var ys := ChainUnfold(s, a, back, cap, length, n, x);
      UpToOfSimple(s, a, back, cap, length, n, x, ys);
      if |ys| > 0 {
        UpToIsDown(s, a, back, cap, length, Dec(n), ys[0]);
        var c := Chain(s, a, back, cap, length, Dec(n), ys[0]);
        AfterNext(x, length, c);
        DownLast(After(x, length, c + 1), length, c);
        Multiple(c + 1, length);
        assert After(x, length, c + 1).(pos := After(x, length, c + 1).pos - (c + 1) * length) == x;
      } else {
        AfterNext(x, length, 0);
        DownOne(x, length);
      }
    }
  }

  lemma DownOne(x: MatchState, length: int)
    ensures Down(x, length, 0) == [x]
  {
  }

  lemma UpToZero(s: Subject, a: Term, back: bool, cap: nat, length: int, x: MatchState)
    requires SimpleAtom(s, a, back, cap, length) && Valid(s, x)
    ensures MatchUpTo(s, a, back, cap, 0, true, x) == [x] && Chain(s, a, back, cap, length, 0, x) == 0
    ensures Down(After(x, length, 0), length, 0) == [x]
  {
    AfterNext(x, length, 0);
  }

  lemma UpToOfSimple(s: Subject, a: Term, back: bool, cap: nat, length: int, n: int, x: MatchState, ys: seq<MatchState>)
    requires SimpleAtom(s, a, back, cap, length) && Valid(s, x) && n > 0 && ys == Match(s, a, back, cap, x)
    requires |ys| == 0 || (ys == [x.(pos := x.pos + length)] && Valid(s, ys[0]))
    ensures MatchUpTo(s, a, back, cap, n, true, x) ==
            if |ys| == 0 then [x] else MatchUpTo(s, a, back, cap, Dec(n), true, ys[0]) + [x]
  {
    hide Match;
    var m := if n == INFINITE then n else n - 1;
    assert AllFrom(s, back, x, ys);
    assert MatchMoved(s, a, back, cap, m, true, x, []) == [];
    if |ys| > 0 {
      assert ys[1..] == [];
      assert MatchMoved(s, a, back, cap, m, true, x, ys) == MatchUpTo(s, a, back, cap, m, true, ys[0]);
    }
  }

  lemma ExactlyOfSimple(s: Subject, a: Term, back: bool, cap: nat, length: int, min: nat, x: MatchState,
                        ys: seq<MatchState>)
    requires SimpleAtom(s, a, back, cap, length) && Valid(s, x) && min > 0 && ys == Match(s, a, back, cap, x)
    requires |ys| == 0 || (ys == [x.(pos := x.pos + length)] && Valid(s, ys[0]))
    ensures MatchExactly(s, a, back, cap, min, x) == if |ys| == 0 then []
            else MatchExactly(s, a, back, cap, min - 1, ys[0])
  {
    hide Match;
    assert AllFrom(s, back, x, ys);
    if |ys| > 0 {
      assert ys[1..] == [];
      assert MatchExactlyAll(s, a, back, cap, min - 1, x, []) == [];
    }
  }

  function Limit(min: int, n: int): int { if n == INFINITE then n else min + n }

  /** min iterations and up to n more: the positions from the longest chain down to min iterations. */
  lemma {:induction false} QuantifiedIsDown(s: Subject, a: Term, back: bool, cap: nat, length: int, min: nat, n: int,
                                            x0: MatchState, x: MatchState)
    requires SimpleAtom(s, a, back, cap, length) && Valid(s, x0) && Valid(s, x) && Ahead(back, x0, x) && 0 <= n
             && Limit(min, n) <= INFINITE
    requires n != INFINITE ==> min + n < INFINITE
    ensures AllFrom(s, back, x0, MatchExactly(s, a, back, cap, min, x))
    ensures var c := Chain(s, a, back, cap, length, Limit(min, n), x);
            MatchUpToAll(s, a, back, cap, n, true, x0, MatchExactly(s, a, back, cap, min, x))
            == if c < min then [] else Down(After(x, length, c), length, c - min)
    decreases min
  {
    hide Match, MatchUpTo, MatchUpToAll, MatchExactly, Chain, SimpleLength, TermCode, SubjectOk, Down, Valid, AllFrom,
      After;
    FromEarlier(s, back, x0, x, MatchExactly(s, a, back, cap, min, x));
    if min == 0 {
      UpToIsDown(s, a, back, cap, length, n, x);
      OnlyOne(s, a, back, cap, n, x0, x);
    } else {
      var ys := ChainUnfold(s, a, back, cap, length, Limit(min, n), x);
      ExactlyOfSimple(s, a, back, cap, length, min, x, ys);
      if |ys| > 0 {
        QuantifiedIsDown(s, a, back, cap, length, min - 1, n, x0, ys[0]);
        AfterNext(x, length, Chain(s, a, back, cap, length, Limit(min - 1, n), ys[0]));
      } else {
        UpToNone(s, a, back, cap, n, x0);
      }
    }
  }

  lemma UpToNone(s: Subject, a: Term, back: bool, cap: nat, n: int, x0: MatchState)
    requires WellFormed(a) && cap + Captures(a) <= s.captureCount && 0 <= n
    ensures AllFrom(s, back, x0, []) && MatchUpToAll(s, a, back, cap, n, true, x0, []) == []
  {
  }

  lemma FromEarlier(s: Subject, back: bool, x0: MatchState, x: MatchState, ys: seq<MatchState>)
    requires AllFrom(s, back, x, ys) && Ahead(back, x0, x)
    ensures AllFrom(s, back, x0, ys)
  {
  }

  lemma OnlyOne(s: Subject, a: Term, back: bool, cap: nat, n: int, x0: MatchState, x: MatchState)
    requires WellFormed(a) && Valid(s, x0) && Valid(s, x) && Ahead(back, x0, x) && cap + Captures(a) <= s.captureCount
             && 0 <= n
    ensures MatchExactly(s, a, back, cap, 0, x) == [x]
    ensures MatchUpToAll(s, a, back, cap, n, true, x0, [x]) == MatchUpTo(s, a, back, cap, n, true, x)
  {
    hide MatchUpTo;
    assert [x][1..] == [];
    assert MatchUpToAll(s, a, back, cap, n, true, x0, []) == [];
  }

  // ----- what the machine does -----

  /**
   * The call made by the instruction at p, with an atom of size n, after q matches, in a context with operand stack s.
   */
  function CallFrame(p: int, n: int, min: int, max: int, q: int, cptr: int, s: seq<int>): Frame {
    Frame(p + 17, p + 17 + n + 1, min, max, q, cptr, |s|)
  }

  lemma IterateStep(m: Machine, p: int, n: int, min: int, max: int, q: int, cptr: int, y: MatchState, s: seq<int>,
                    k: seq<State>)
    requires At(m.code, p + 17 + n, [MATCH]) && Valid(m.subject, y)
    ensures var g := CallFrame(p, n, min, max, q + 1, y.pos, s);
            Step(m, In(p + 17 + n, y, s, k, [CallFrame(p, n, min, max, q, cptr, s)])) ==
            if q + 1 >= max && max != INFINITE then FinishQuant(g, s, y.captures, k, []) else In(p + 17, y, s, k, [g])
  {
    AtByte(m.code, p + 17 + n, MATCH);
    var f := CallFrame(p, n, min, max, q, cptr, s);
    assert [f][..0] == [] && s[..|s|] == s;
  }

  lemma CallFailsStep(m: Machine, f: Frame, x: MatchState, s: seq<int>, k: seq<State>)
    ensures Step(m, Reject(x, s, k, [f])) == FinishQuant(f, s, x.captures, k, [])
  {
    assert [f][..0] == [];
  }

  function Called(p: int, n: int, min: int, max: int, q: int, x: MatchState, s: seq<int>, k: seq<State>): Config {
    In(p + 17, x, s, k, [CallFrame(p, n, min, max, q, x.pos, s)])
  }

  function Finished(p: int, n: int, min: int, max: int, q: int, x: MatchState, s: seq<int>, k: seq<State>): Config {
    FinishQuant(CallFrame(p, n, min, max, q, x.pos, s), s, x.captures, k, [])
  }

  lemma CallOnce(m: Machine, p: int, a: Term, back: bool, cap: nat, min: int, max: int, q: nat,
                 x: MatchState, ys: seq<MatchState>, s: seq<int>, k: seq<State>)
    requires SubjectOk(m.subject) && WellFormed(a) && cap + Captures(a) <= m.subject.captureCount
             && Valid(m.subject, x) && 0 <= p
    requires var atom := TermCode(m.subject.opts, a, back, cap);
             At(m.code, p + 17, atom) && At(m.code, p + 17 + |atom|, [MATCH]) && SimpleLength(atom) >= 0
    requires ys == Match(m.subject, a, back, cap, x)
    ensures var n := |TermCode(m.subject.opts, a, back, cap)|;
            Reaches(m, Called(p, n, min, max, q, x, s, k),
                    if |ys| == 0 then Finished(p, n, min, max, q, x, s, k)
                    else if q + 1 >= max && max != INFINITE then Finished(p, n, min, max, q + 1, ys[0], s, k)
                    else Called(p, n, min, max, q + 1, ys[0], s, k))
  {
    hide Step, Match, FinishQuant, TermCode, At, SubjectOk, Reaches, SimpleLength;
    var n := |TermCode(m.subject.opts, a, back, cap)|;
    var f := CallFrame(p, n, min, max, q, x.pos, s);
    TermRunsStraight(m, p + 17, a, back, cap, x, s, k, [f]);
    if |ys| == 0 {
      CallFailsStep(m, f, x, s, k);
    } else {
      IterateStep(m, p, n, min, max, q, x.pos, ys[0], s, k);
    }
    CallEnds(m, Called(p, n, min, max, q, x, s, k), Outcome(ys, p + 17 + n, x, s, k, [f]));
  }

  /** The loop of the instruction: the atom is matched as often as it goes, then the loop ends. */
  lemma {:induction false} CallRuns(m: Machine, p: int, a: Term, back: bool, cap: nat, length: int, min: int, max: int,
                                    q: nat,
                                    x: MatchState, s: seq<int>, k: seq<State>)
    requires SimpleAtom(m.subject, a, back, cap, length) && Valid(m.subject, x) && 0 <= p
    requires var atom := TermCode(m.subject.opts, a, back, cap);
             At(m.code, p + 17, atom) && At(m.code, p + 17 + |atom|, [MATCH])
    requires max != INFINITE ==> q < max < INFINITE
    ensures var n, c := |TermCode(m.subject.opts, a, back, cap)|,
                        Chain(m.subject, a, back, cap, length, if max == INFINITE then max else max - q, x);
            Reaches(m, Called(p, n, min, max, q, x, s, k), Finished(p, n, min, max, q + c, After(x, length, c), s, k))
    decreases |m.subject.input| - x.pos
  {
    hide Match, Chain, FinishQuant, TermCode, At, Reaches, SimpleLength, SubjectOk, Called, Finished;
    var n, limit := |TermCode(m.subject.opts, a, back, cap)|, if max == INFINITE then max else max - q;
    var ys := ChainUnfold(m.subject, a, back, cap, length, limit, x);
    CallOnce(m, p, a, back, cap, min, max, q, x, ys, s, k);
    AfterNext(x, length, 0);
    if |ys| > 0 {
      var c := Chain(m.subject, a, back, cap, length, Dec(limit), ys[0]);
      AfterNext(x, length, c);
      if max != INFINITE && q + 1 >= max {
        ChainStops(m.subject, a, back, cap, length, Dec(limit), ys[0]);
      } else {
        CallRuns(m, p, a, back, cap, length, min, max, q + 1, ys[0], s, k);
        CallsChain(m, p, n, min, max, q, c, length, x, ys[0], s, k);
      }
    }
  }

  lemma ChainStops(s: Subject, a: Term, back: bool, cap: nat, length: int, limit: int, x: MatchState)
    requires SimpleAtom(s, a, back, cap, length) && Valid(s, x) && limit <= 0
    ensures Chain(s, a, back, cap, length, limit, x) == 0
  {
  }

  lemma CallsChain(m: Machine, p: int, n: int, min: int, max: int, q: int, c: int, length: int, x: MatchState,
                   y: MatchState,
                   s: seq<int>, k: seq<State>)
    requires Reaches(m, Called(p, n, min, max, q, x, s, k), Called(p, n, min, max, q + 1, y, s, k))
    requires Reaches(m, Called(p, n, min, max, q + 1, y, s, k),
                     Finished(p, n, min, max, q + 1 + c, After(y, length, c), s, k))
    requires After(y, length, c) == After(x, length, c + 1)
    ensures Reaches(m, Called(p, n, min, max, q, x, s, k),
                    Finished(p, n, min, max, q + (1 + c), After(x, length, 1 + c), s, k))
  {
    ReachTrans(m, Called(p, n, min, max, q, x, s, k), Called(p, n, min, max, q + 1, y, s, k),
               Finished(p, n, min, max, q + 1 + c, After(y, length, c), s, k));
  }

  lemma CallEnds(m: Machine, c: Config, d: Config)
    requires Reaches(m, c, d)
    ensures Reaches(m, c, Step(m, d))
  {
    ReachSelf(m, Step(m, d));
    ReachStep(m, d, Step(m, d));
    ReachTrans(m, c, d, Step(m, d));
  }

  /** The saved state of the quantifier at p: c more positions to try, each length characters further back. */
  function GreedyChoice(p: int, x: MatchState, s: seq<int>, c: int): State {
    State(GreedyState, p + 1, x.pos, x.captures, s, c)
  }

  lemma ResumeGreedyStep(m: Machine, p: int, n: int, length: int, x: MatchState, s: seq<int>, k: seq<State>, c: nat)
    requires 0 <= p && p + 17 <= |m.code| && GetI32(m.code, p + 1) == n + 1 && GetU32(m.code, p + 13) == length
    requires c > 0 && length <= x.pos
    ensures var y := x.(pos := x.pos - length);
            Step(m, Unwind(Push(k, GreedyChoice(p, x, s, c)))) ==
            Go(p + 18 + n, y, s, if c == 1 then k else Push(k, GreedyChoice(p, y, s, c - 1)))
  {
    assert Pop(Push(k, GreedyChoice(p, x, s, c))) == k;
  }

  lemma {:induction false} ResumesDown(m: Machine, p: int, n: int, length: int, x: MatchState, s: seq<int>,
                                       k: seq<State>, c: nat)
    requires 0 <= p && p + 17 <= |m.code| && GetI32(m.code, p + 1) == n + 1 && GetU32(m.code, p + 13) == length
    requires x.pos - c * length >= 0 && length > 0
    ensures Yields(m, Go(p + 18 + n, x, s, if c == 0 then k else Push(k, GreedyChoice(p, x, s, c))), p + 18 + n, s, k,
                   Down(x, length, c))
    decreases c
  {
    hide Yields, GetI32, GetU32;
    if c == 0 {
      YieldsOne(m, p + 18 + n, x, s, k);
    } else {
      var y := x.(pos := x.pos - length);
      assert x.pos - c * length == y.pos - (c - 1) * length;
      Multiple(c - 1, length);
      ResumeGreedyStep(m, p, n, length, x, s, k, c);
      ResumesDown(m, p, n, length, y, s, k, c - 1);
      GreedyCons(m, p, n, length, x, s, k, c);
    }
  }

  lemma GreedyCons(m: Machine, p: int, n: int, length: int, x: MatchState, s: seq<int>, k: seq<State>, c: nat)
    requires c > 0
    requires var y := x.(pos := x.pos - length);
             Yields(m, Step(m, Unwind(Push(k, GreedyChoice(p, x, s, c)))), p + 18 + n, s, k, Down(y, length, c - 1))
    ensures Yields(m, Go(p + 18 + n, x, s, Push(k, GreedyChoice(p, x, s, c))), p + 18 + n, s, k, Down(x, length, c))
  {
    var y := x.(pos := x.pos - length);
    var choice := GreedyChoice(p, x, s, c);
    hide Yields, Reaches, Step;
    YieldsStep(m, Unwind(Push(k, choice)), p + 18 + n, s, k, Down(y, length, c - 1));
    ReachSelf(m, Go(p + 18 + n, x, s, Push(k, choice)));
    YieldsCons(m, Go(p + 18 + n, x, s, Push(k, choice)), p + 18 + n, s, k, x, [choice], Down(y, length, c - 1));
  }

  lemma Multiple(c: nat, length: nat)
    ensures c * length >= 0
  {
  }

  lemma GreedyStep(m: Machine, p: int, n: int, min: int, max: int, x: MatchState, s: seq<int>, k: seq<State>)
    requires 0 <= p && p + 17 <= |m.code| && m.code[p] == SIMPLE_GREEDY_QUANT && Valid(m.subject, x)
    requires GetI32(m.code, p + 1) == n + 1 && GetU32(m.code, p + 5) == min && GetU32(m.code, p + 9) == max
    ensures Step(m, Go(p, x, s, k)) == Called(p, n, min, max, 0, x, s, k)
  {
  }

  lemma {:induction false} ChainFits(s: Subject, a: Term, back: bool, cap: nat, length: int, limit: int, x: MatchState)
    requires SimpleAtom(s, a, back, cap, length) && Valid(s, x)
    ensures var c := Chain(s, a, back, cap, length, limit, x); Valid(s, After(x, length, c))
    decreases |s.input| - x.pos
  {
    AfterNext(x, length, 0);
    if limit > 0 {
      var ys := ChainUnfold(s, a, back, cap, length, limit, x);
      hide Match, Chain, SimpleAtom;
      if |ys| > 0 {
        ChainFits(s, a, back, cap, length, Dec(limit), ys[0]);
        AfterNext(x, length, Chain(s, a, back, cap, length, Dec(limit), ys[0]));
      }
    }
  }

  /** After its loop, the instruction goes on with the longest chain and leaves the shorter ones as a choice. */
  lemma FinishYields(m: Machine, p: int, n: int, length: int, min: nat, max: int, c: nat, x: MatchState, s: seq<int>,
                     k: seq<State>)
    requires 0 <= p && p + 17 <= |m.code| && GetI32(m.code, p + 1) == n + 1 && GetU32(m.code, p + 13) == length
    requires length > 0 && Valid(m.subject, x)
    ensures Yields(m, Finished(p, n, min, max, c, After(x, length, c), s, k),
                   p + 18 + n, s, k, if c < min then [] else Down(After(x, length, c), length, c - min))
  {
    hide Yields, Finished, Down, After, GetI32, GetU32;
    var z := After(x, length, c);
    FinishedMeans(p, n, min, max, c, z, s, k);
    if c < min {
      UnwindYieldsNone(m, p + 18 + n, s, k);
    } else {
      AfterKeeps(x, length, min, c);
      ResumesDown(m, p, n, length, z, s, k, c - min);
    }
  }

  lemma FinishedMeans(p: int, n: int, min: int, max: int, c: int, z: MatchState, s: seq<int>, k: seq<State>)
    ensures Finished(p, n, min, max, c, z, s, k) ==
            if c < min then Unwind(k)
            else Go(p + 18 + n, z, s, if c - min == 0 then k else Push(k, GreedyChoice(p, z, s, c - min)))
  {
    assert s[..|s|] == s;
  }

  lemma AfterKeeps(x: MatchState, length: int, min: nat, c: nat)
    requires length > 0 && x.pos >= 0 && min <= c
    ensures After(x, length, c).pos - (c - min) * length >= 0
  {
    assert x.pos + c * length - (c - min) * length == x.pos + min * length;
    Multiple(min, length);
  }

  /** The optimised quantifier produces what the quantified term matches, in the same order. */
  lemma SimpleBlockRuns(m: Machine, p: int, a: Term, back: bool, cap: nat, length: int, min: int, max: int,
                        x: MatchState,
                        s: seq<int>, k: seq<State>)
    requires SimpleAtom(m.subject, a, back, cap, length) && Valid(m.subject, x) && |m.code| < TWO31
    requires 0 <= min <= max <= INFINITE && max > 0
    requires 0 <= p && At(m.code, p, SimpleBlock(TermCode(m.subject.opts, a, back, cap), min, max, length))
             && length < TWO31
    ensures Yields(m, Go(p, x, s, k), p + |SimpleBlock(TermCode(m.subject.opts, a, back, cap), min, max, length)|, s, k,
                   Match(m.subject, Quantified(a, min, max, true), back, cap, x))
  {
    hide Match, Yields, Reaches, Step, FinishQuant, At, TermCode, Chain, Down, Called, Finished, Valid, SimpleBlock,
      SimpleLength, SubjectOk;
    var atom := TermCode(m.subject.opts, a, back, cap);
    var c := Chain(m.subject, a, back, cap, length, max, x);
    SimpleLayout(m.code, p, atom, min, max, length);
    SimpleQuantifierMeans(m.subject, a, back, cap, length, min, max, x);
    GreedyStep(m, p, |atom|, min, max, x, s, k);
    CallRuns(m, p, a, back, cap, length, min, max, 0, x, s, k);
    FinishYields(m, p, |atom|, length, min, max, c, x, s, k);
    var zs := if c < min then [] else Down(After(x, length, c), length, c - min);
    YieldsReach(m, Called(p, |atom|, min, max, 0, x, s, k), Finished(p, |atom|, min, max, c, After(x, length, c), s, k),
                p + 18 + |atom|, s, k, zs);
    YieldsStep(m, Go(p, x, s, k), p + 18 + |atom|, s, k, zs);
  }

  lemma SimpleQuantifierMeans(s: Subject, a: Term, back: bool, cap: nat, length: int, min: int, max: int, x: MatchState)
    requires SimpleAtom(s, a, back, cap, length) && Valid(s, x) && 0 <= min <= max <= INFINITE
    ensures var c := Chain(s, a, back, cap, length, max, x);
            Match(s, Quantified(a, min, max, true), back, cap, x) ==
            if c < min then [] else Down(After(x, length, c), length, c - min)
  {
    hide Match, MatchUpToAll, MatchExactly, Chain, Down, After, Valid, TermCode, WellFormed;
    var ys := AtomOneWay(s, a, back, cap, length, x);
    assert x.captures == ResetCaptures(x.captures, cap, cap);
    QuantifiedIsDown(s, a, back, cap, length, min, Remaining(min, max), x, x);
    MatchOfQuantified(s, a, min, max, back, cap, x);
  }

  lemma MatchOfQuantified(s: Subject, a: Term, min: int, max: int, back: bool, cap: nat, x: MatchState)
    requires WellFormed(a) && 0 <= min <= max <= INFINITE && Valid(s, x) && cap + Captures(a) <= s.captureCount
    requires Captures(a) == 0 && x.captures == ResetCaptures(x.captures, cap, cap)
    ensures Match(s, Quantified(a, min, max, true), back, cap, x)
            == MatchUpToAll(s, a, back, cap, Remaining(min, max), true, x, MatchExactly(s, a, back, cap, min, x))
  {
    assert x.(captures := ResetCaptures(x.captures, cap, cap)) == x;
  }
}
