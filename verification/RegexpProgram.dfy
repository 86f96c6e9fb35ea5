/** Whole programs: the header, the search prefix, what a match is, and the correctness of compiled programs. */
module RegexpProgram {
  import opened Bytes
  import opened RegexpOpcodes
  import opened RegexpSyntax
  import opened RegexpAnalysis
  import opened RegexpCode
  import opened RegexpSemantics
  import opened RegexpMachine
  import opened RegexpSteps
  import opened RegexpYields
  import opened RegexpLayout
  import opened RegexpShape
  import opened RegexpStraight
  import opened RegexpPrediction
  import opened RegexpCorrect
  import opened RegexpRuns

  const HEADER_LEN: nat := 8

  const FLAG_IGNORECASE: int := 2
  const FLAG_MULTILINE: int := 4
  const FLAG_DOTALL: int := 8
  const FLAG_UNICODE: int := 16
  const FLAG_STICKY: int := 32

  function FlagSet(flags: int, flag: int): bool
    requires flag > 0
  {
    (flags / flag) % 2 == 1
  }

  /** The options that flags stand for; canon is lre_canonicalize. */
  function OptionsOf(flags: int, canon: (int, bool) -> int): Options {
    Options(FlagSet(flags, FLAG_IGNORECASE), FlagSet(flags, FLAG_MULTILINE), FlagSet(flags, FLAG_DOTALL),
            c => canon(c, FlagSet(flags, FLAG_UNICODE)))
  }

  /** Without the sticky flag, the program tries all start positions, about as .*? would. */
  function SearchPrefix(sticky: bool): seq<byte> {
    if sticky then [] else [SPLIT_GOTO_FIRST] + PutU32(6) + [ANY] + [GOTO] + PutU32(-11)
  }

  ghost function ProgramCode(o: Options, d: Disjunction, sticky: bool): seq<byte> {
    SearchPrefix(sticky) + CaptureCode(false, 0, DisjunctionCode(o, d, false, 1)) + [MATCH]
  }

  function Header(flags: int, captureCount: int, stackSize: int, length: int): (b: seq<byte>)
    ensures |b| == HEADER_LEN
  {
    PutU16(flags) + [captureCount % 256, stackSize % 256] + PutU32(length)
  }

  ghost function Bytecode(flags: int, canon: (int, bool) -> int, d: Disjunction): seq<byte> {
    var code := ProgramCode(OptionsOf(flags, canon), d, FlagSet(flags, FLAG_STICKY));
    Header(flags, 1 + DisjunctionCaptures(d), Need(code), |code|) + code
  }

  /** The machine that lre_exec sets up from the header of the bytecode. */
  function MachineOf(bytecode: seq<byte>, canon: (int, bool) -> int, input: seq<int>): Machine
    requires |bytecode| >= HEADER_LEN
  {
    Machine(bytecode, bytecode[3], Subject(input, OptionsOf(GetU16(bytecode, 0), canon), bytecode[2]))
  }

  function Start(s: Subject, index: int): MatchState {
    MatchState(index, seq(2 * s.captureCount, i => UNSET))
  }

  // ----- what a program matches -----

  /** All matches of the pattern that start at x, best first. */
  ghost function MatchesAt(s: Subject, d: Disjunction, x: MatchState): (r: seq<MatchState>)
    requires DisjunctionWellFormed(d) && Valid(s, x) && 1 + DisjunctionCaptures(d) <= s.captureCount
    ensures AllFrom(s, false, x, r)
  {
    Match(s, Capture(d), false, 0, x)
  }

  /** All matches that start at x or, unless sticky, at a later position, leftmost first. */
  ghost function MatchesFrom(s: Subject, d: Disjunction, sticky: bool, x: MatchState): (r: seq<MatchState>)
    requires DisjunctionWellFormed(d) && Valid(s, x) && 1 + DisjunctionCaptures(d) <= s.captureCount
    ensures AllValid(s, r)
    decreases |s.input| - x.pos
  {
    MatchesAt(s, d, x)
    + if sticky || x.pos == |s.input| then [] else MatchesFrom(s, d, sticky, x.(pos := x.pos + 1))
  }

  /** What the machine must return when the matches are ys: the first of them, or no match. */
  function Verdict(ys: seq<MatchState>): Config {
    if |ys| == 0 then NoMatch else Matched(ys[0].captures)
  }

  // ----- layout and stack needs of programs -----

  lemma ProgramScanned(o: Options, d: Disjunction, sticky: bool)
    requires DisjunctionWellFormed(d)
    ensures Scanned(ProgramCode(o, d, sticky))
    ensures Need(ProgramCode(o, d, sticky)) == Need(DisjunctionCode(o, d, false, 1))
  {
    hide Scanned, Need, DisjunctionCode, CaptureCode;
    var body := DisjunctionCode(o, d, false, 1);
    DisjunctionScanned(o, d, false, 1);
    ScannedCapture(false, 0, body);
    PrefixScanned(sticky);
    ScannedConcat(SearchPrefix(sticky), CaptureCode(false, 0, body));
    MatchScanned();
    ScannedConcat(SearchPrefix(sticky) + CaptureCode(false, 0, body), [MATCH]);
  }

  lemma MatchScanned()
    ensures Scanned([MATCH]) && Need([MATCH]) == 0
  {
    ScansOp(MATCH);
    ScannedBy([MATCH], [MATCH], 0);
  }

  lemma PrefixScanned(sticky: bool)
    ensures Scanned(SearchPrefix(sticky)) && Need(SearchPrefix(sticky)) == 0
  {
    if sticky {
      ScannedEmpty();
    } else {
      var split, goto := [SPLIT_GOTO_FIRST] + PutU32(6), [GOTO] + PutU32(-11);
      ScansOp32(SPLIT_GOTO_FIRST, 6);
      ScansOp(ANY);
      ScansOp32(GOTO, -11);
      ScannedBy(split, [SPLIT_GOTO_FIRST], 0);
      ScannedBy([ANY], [ANY], 0);
      ScannedBy(goto, [GOTO], 0);
      ScannedConcat(split, [ANY]);
      ScannedConcat(split + [ANY], goto);
      assert SearchPrefix(false) == (split + [ANY]) + goto;
    }
  }

  lemma PrefixLayout(b: seq<byte>, p: int)
    requires At(b, p, SearchPrefix(false))
    ensures At(b, p, [SplitOp(false)] + PutU32(6)) && At(b, p + 5, [ANY]) && At(b, p + 6, [GOTO] + PutU32(-11))
  {
    var split, goto := [SPLIT_GOTO_FIRST] + PutU32(6), [GOTO] + PutU32(-11);
    assert SearchPrefix(false) == (split + [ANY]) + goto;
    AtSplit3(b, p, split, [ANY], goto);
  }

  /** The header is read back as it was written, and the code lies after it. */
  lemma BytecodeLayout(flags: int, canon: (int, bool) -> int, d: Disjunction)
    requires 0 <= flags < TWO16 && 1 + DisjunctionCaptures(d) <= CAPTURE_COUNT_MAX
    requires var o := OptionsOf(flags, canon); Need(ProgramCode(o, d, FlagSet(flags, FLAG_STICKY))) <= STACK_SIZE_MAX
    ensures var o, b := OptionsOf(flags, canon), Bytecode(flags, canon, d);
            var code := ProgramCode(o, d, FlagSet(flags, FLAG_STICKY));
            && GetU16(b, 0) == flags && b[2] == 1 + DisjunctionCaptures(d) && b[3] == Need(code)
            && At(b, HEADER_LEN, code) && |b| == HEADER_LEN + |code|
  {
    hide Need, ProgramCode, DisjunctionCaptures;
    var b := Bytecode(flags, canon, d);
    var code := ProgramCode(OptionsOf(flags, canon), d, FlagSet(flags, FLAG_STICKY));
    HeaderBytes(b, flags, 1 + DisjunctionCaptures(d), Need(code), |code|, code);
  }

  lemma HeaderBytes(b: seq<byte>, flags: int, captureCount: int, stackSize: int, length: int, code: seq<byte>)
    requires b == Header(flags, captureCount, stackSize, length) + code
    requires 0 <= flags < TWO16 && 0 <= captureCount < 256 && 0 <= stackSize < 256
    ensures GetU16(b, 0) == flags && b[2] == captureCount && b[3] == stackSize && At(b, HEADER_LEN, code)
  {
    var h := Header(flags, captureCount, stackSize, length);
    forall i | 0 <= i < |code| ensures b[HEADER_LEN + i] == code[i] {}
    assert At(b, 0, PutU16(flags));
    U16RoundTrip(b, 0, flags);
    Wrap16(flags);
    assert h[2] == captureCount % 256 && h[3] == stackSize % 256;
  }

  // ----- correctness -----

  lemma AnyStep(m: Machine, p: int, x: MatchState, s: seq<int>, k: seq<State>)
    requires At(m.code, p, [ANY]) && Valid(m.subject, x)
    ensures Step(m, Go(p, x, s, k)) ==
            if x.pos < |m.subject.input| then Go(p + 1, x.(pos := x.pos + 1), s, k) else Unwind(k)
  {
    AtByte(m.code, p, ANY);
  }

  /** The code that matches at one position. */
  lemma BodyRuns(m: Machine, p: int, d: Disjunction, x: MatchState, k: seq<State>)
    requires MachineOk(m) && DisjunctionOk(m, d, 1) && Valid(m.subject, x)
    requires Loaded(m, p, CaptureCode(false, 0, DisjunctionCode(m.subject.opts, d, false, 1)), [])
    ensures Yields(m, Go(p, x, [], k), p + |CaptureCode(false, 0, DisjunctionCode(m.subject.opts, d, false, 1))|, [], k,
                   MatchesAt(m.subject, d, x))
  {
    hide Yields, At, Need, DisjunctionCode, Match, CaptureCode;
    CaptureRuns(m, p, d, false, 0, x, [], k);
  }

  /** The search loop at p produces the matches at every position, leftmost first. */
  lemma {:induction false} SearchRuns(m: Machine, p: int, d: Disjunction, x: MatchState)
    requires MachineOk(m) && DisjunctionOk(m, d, 1) && Valid(m.subject, x)
    requires At(m.code, p, [SplitOp(false)] + PutU32(6)) && At(m.code, p + 5, [ANY])
             && At(m.code, p + 6, [GOTO] + PutU32(-11))
    requires Loaded(m, p + 11, CaptureCode(false, 0, DisjunctionCode(m.subject.opts, d, false, 1)), [])
    ensures Yields(m, Go(p, x, [], []),
                   p + 11 + |CaptureCode(false, 0, DisjunctionCode(m.subject.opts, d, false, 1))|, [], [],
                   MatchesFrom(m.subject, d, false, x))
    decreases |m.subject.input| - x.pos
  {
    hide Yields, At, Need, DisjunctionCode, Match, CaptureCode, Step, MatchesAt;
    var q := p + 11 + |CaptureCode(false, 0, DisjunctionCode(m.subject.opts, d, false, 1))|;
    var k1 := Push([], Choice(SplitState, p + 5, x, []));
    BodyRuns(m, p + 11, d, x, k1);
    AnyStep(m, p + 5, x, [], []);
    if x.pos == |m.subject.input| {
      StepYields(m, Go(p + 5, x, [], []), q, x, [], [], []);
      SplitYields(m, p, false, 6, x, [], [], q, [], MatchesAt(m.subject, d, x), []);
    } else {
      var y := x.(pos := x.pos + 1);
      var rest := MatchesFrom(m.subject, d, false, y);
      SearchRuns(m, p, d, y);
      GotoStep(m, p + 6, -11, y, [], []);
      YieldsStep(m, Go(p + 6, y, [], []), q, [], [], rest);
      YieldsStep(m, Go(p + 5, x, [], []), q, [], [], rest);
      SplitYields(m, p, false, 6, x, [], [], q, [], MatchesAt(m.subject, d, x), rest);
    }
  }

  /** When the first state is produced at the final match instruction, the machine returns it. */
  lemma Finish(m: Machine, c: Config, q: int, ys: seq<MatchState>)
    requires Yields(m, c, q, [], [], ys) && At(m.code, q, [MATCH]) && AllValid(m.subject, ys)
    ensures Reaches(m, c, Verdict(ys))
  {
    hide Yields, At, Reaches, NoLook;
    if |ys| == 0 {
      YieldsNoneReach(m, c, q, [], [], ys);
      ReachSelf(m, NoMatch);
      ReachStep(m, Unwind([]), NoMatch);
      ReachTrans(m, c, Unwind([]), NoMatch);
    } else {
      var more := YieldsHead(m, c, q, [], [], ys);
      var captures := ys[0].captures;
      assert [] + more == more;
      MatchStep(m, q, ys[0], [], more);
      SucceedDiscards(m, captures, [], more);
      ReachSelf(m, Matched(captures));
      ReachStep(m, Succeed(captures, []), Matched(captures));
      ReachTrans(m, Succeed(captures, more), Succeed(captures, []), Matched(captures));
      ReachStep(m, Go(q, ys[0], [], more), Matched(captures));
      ReachTrans(m, c, Go(q, ys[0], [], more), Matched(captures));
    }
  }

  /** A program at p, with room for its operand stack, ends with the first match or with no match. */
  lemma ProgramRuns(m: Machine, p: int, d: Disjunction, sticky: bool, x: MatchState)
    requires MachineOk(m) && DisjunctionOk(m, d, 1) && Valid(m.subject, x)
    requires Loaded(m, p, ProgramCode(m.subject.opts, d, sticky), [])
    ensures Reaches(m, Go(p, x, [], []), Verdict(MatchesFrom(m.subject, d, sticky, x)))
  {
    hide Yields, At, Need, DisjunctionCode, Match, CaptureCode, MatchesAt, Reaches, Scanned, SearchPrefix;
    var o := m.subject.opts;
    var body := CaptureCode(false, 0, DisjunctionCode(o, d, false, 1));
    AtSplit3(m.code, p, SearchPrefix(sticky), body, [MATCH]);
    ProgramNeeds(o, d, sticky);
    PrefixSize(sticky);
    var q := p + |SearchPrefix(sticky)| + |body|;
    if sticky {
      BodyRuns(m, p, d, x, []);
      assert MatchesFrom(m.subject, d, sticky, x) == MatchesAt(m.subject, d, x);
    } else {
      PrefixLayout(m.code, p);
      SearchRuns(m, p, d, x);
    }
    Finish(m, Go(p, x, [], []), q, MatchesFrom(m.subject, d, sticky, x));
  }

  lemma PrefixSize(sticky: bool)
    ensures |SearchPrefix(sticky)| == if sticky then 0 else 11
  {
  }

  lemma ProgramNeeds(o: Options, d: Disjunction, sticky: bool)
    requires DisjunctionWellFormed(d)
    ensures Need(CaptureCode(false, 0, DisjunctionCode(o, d, false, 1))) == Need(ProgramCode(o, d, sticky))
  {
    hide Need, DisjunctionCode, CaptureCode, Scanned;
    ProgramScanned(o, d, sticky);
    DisjunctionScanned(o, d, false, 1);
    ScannedCapture(false, 0, DisjunctionCode(o, d, false, 1));
  }

  /** A program that the compiler accepts. */
  ghost predicate Accepted(flags: int, canon: (int, bool) -> int, d: Disjunction) {
    && DisjunctionWellFormed(d)
    && 1 + DisjunctionCaptures(d) <= 255
    && Need(ProgramCode(OptionsOf(flags, canon), d, FlagSet(flags, FLAG_STICKY))) <= 255
  }

  /** Inputs of fixed-width characters, and a case folding that maps code points to code points. */
  ghost predicate InputOk(canon: (int, bool) -> int, input: seq<int>) {
    && (forall c, u :: 0 <= c <= MAX_CODE_POINT ==> 0 <= canon(c, u) <= MAX_CODE_POINT)
    && (forall i :: 0 <= i < |input| ==> 0 <= input[i] <= MAX_CODE_POINT)
  }

  /**
   * Compiler correctness: for every accepted pattern, every flags, every input and every start index, the machine run
   * on the compiled bytecode ends, and it returns the first match in priority order, captures included, or no match.
   */
  lemma CompiledProgramIsCorrect(flags: int, canon: (int, bool) -> int, d: Disjunction, input: seq<int>, index: nat)
    requires 0 <= flags < TWO16 && Accepted(flags, canon, d) && InputOk(canon, input) && index <= |input|
    requires |Bytecode(flags, canon, d)| < TWO31
    ensures var m := MachineOf(Bytecode(flags, canon, d), canon, input);
            && m.subject.captureCount == 1 + DisjunctionCaptures(d) && Valid(m.subject, Start(m.subject, index))
            && Reaches(m, Go(HEADER_LEN, Start(m.subject, index), [], []),
                       Verdict(MatchesFrom(m.subject, d, FlagSet(flags, FLAG_STICKY), Start(m.subject, index))))
  {
    hide Need, ProgramCode, DisjunctionCaptures, DisjunctionWellFormed, FlagSet, Reaches;
    BytecodeLayout(flags, canon, d);
    var m := MachineOf(Bytecode(flags, canon, d), canon, input);
    ProgramRuns(m, HEADER_LEN, d, FlagSet(flags, FLAG_STICKY), Start(m.subject, index));
  }

  predicate Halted(c: Config) {
    c.Matched? || c.NoMatch? || c.Stuck?
  }

  lemma {:induction false} HaltedStays(m: Machine, c: Config, n: nat)
    requires Halted(c)
    ensures Steps(m, c, n) == c
    decreases n
  {
    if n > 0 { HaltedStays(m, Step(m, c), n - 1); }
  }

  /** A run that reaches a verdict never gets stuck on the way or later. */
  lemma NeverStuck(m: Machine, c: Config, d: Config, n: nat)
    requires Reaches(m, c, d) && Halted(d) && !d.Stuck?
    ensures !Steps(m, c, n).Stuck?
  {
    var i: nat :| Steps(m, c, i) == d;
    if i <= n {
      StepsAdd(m, c, i, n - i);
      HaltedStays(m, d, n - i);
    } else {
      StepsAdd(m, c, n, i - n);
      if Steps(m, c, n).Stuck? { HaltedStays(m, Stuck, i - n); }
    }
  }

  /**
   * Memory safety of compiled programs: no run pops an empty operand stack, pushes beyond the size that
   * lre_compute_stack_size put into the header, or leaves the bytecode, the captures or the input.
   */
  lemma CompiledProgramNeverStuck(flags: int, canon: (int, bool) -> int, d: Disjunction, input: seq<int>, index: nat,
                                  n: nat)
    requires 0 <= flags < TWO16 && Accepted(flags, canon, d) && InputOk(canon, input) && index <= |input|
    requires |Bytecode(flags, canon, d)| < TWO31
    ensures var m := MachineOf(Bytecode(flags, canon, d), canon, input);
            !Steps(m, Go(HEADER_LEN, Start(m.subject, index), [], []), n).Stuck?
  {
    hide Accepted, InputOk, Reaches, MatchesFrom;
    CompiledProgramIsCorrect(flags, canon, d, input, index);
    var m := MachineOf(Bytecode(flags, canon, d), canon, input);
    var x := Start(m.subject, index);
    AcceptedParts(flags, canon, d);
    NeverStuck(m, Go(HEADER_LEN, x, [], []), Verdict(MatchesFrom(m.subject, d, FlagSet(flags, FLAG_STICKY), x)), n);
  }

  lemma AcceptedParts(flags: int, canon: (int, bool) -> int, d: Disjunction)
    requires Accepted(flags, canon, d)
    ensures DisjunctionWellFormed(d)
  {
  }
}
