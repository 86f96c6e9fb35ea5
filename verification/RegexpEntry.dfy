/** The compiler's entry point. */
module RegexpEntry {
  import opened Bytes
  import opened RegexpOpcodes
  import opened RegexpSyntax
  import opened RegexpAnalysis
  import opened RegexpCode
  import opened RegexpCompiler
  import opened RegexpShape
  import opened RegexpStraight
  import opened RegexpProgram

  datatype Compiled = Compiled(bytecode: seq<byte>) | Rejected

  /**
   * lre_compile on a syntax tree: rejects patterns with too many captures, too large classes or too deeply nested
   * quantifiers, and otherwise returns header and code.
   */
  method Compile(d: Disjunction, flags: int, canon: (int, bool) -> int) returns (r: Compiled)
    requires DisjunctionParsed(d) && 0 <= flags < TWO16
    ensures r.Compiled? <==> Accepted(flags, canon, d)
    ensures r.Compiled? ==> r.bytecode == Bytecode(flags, canon, d)
  {
    hide PutU32, PutU16, DisjunctionCode, Need, DisjunctionCaptures, DisjunctionWellFormed, DisjunctionParsed, Ops,
      Scanned, Low, Peak;
    hide SearchPrefix, CaptureCode, FlagSet;
    var s := new ParseState(OptionsOf(flags, canon));
    var sticky := FlagSet(flags, FLAG_STICKY);
    ghost var header := PutU16(flags) + [0, 0] + PutU32(0);
    s.byteCode := PutU16(flags) + [0, 0] + PutU32(0);
    if !sticky {
      EmitSearchLoop(s);
    }
    SearchLoop(sticky);
    assert s.byteCode == header + SearchPrefix(sticky);
    s.EmitOpU8(SAVE_START, 0);
    var ok := s.EmitDisjunction(d, false);
    if !ok {
      return Rejected;
    }
    s.EmitOpU8(SAVE_END, 0);
    s.EmitOp(MATCH);
    ghost var code := ProgramCode(s.opts, d, sticky);
    ProgramParts(header, sticky, DisjunctionCode(s.opts, d, false, 1), s.byteCode);
    ScanOfProgram(s.opts, d, sticky);
    var stackSize := ComputeStackSize(s.byteCode[HEADER_LEN..]);
    if stackSize < 0 {
      return Rejected;
    }
    PatchHeader(s, flags, stackSize, code);
    r := Compiled(s.byteCode);
  }

  /** The loop over start positions that precedes patterns without the sticky flag. */
  method EmitSearchLoop(s: ParseState)
    modifies s`byteCode
    ensures s.byteCode == old(s.byteCode) + SearchPrefix(false)
  {
    hide PutU32;
    var _ := s.EmitOpU32(SPLIT_GOTO_FIRST, 1 + 5);
    s.EmitOp(ANY);
    var _ := s.EmitOpU32(GOTO, -(5 + 1 + 5));
  }

  lemma SearchLoop(sticky: bool)
    ensures sticky ==> SearchPrefix(sticky) == []
  {
  }

  lemma ProgramParts(header: seq<byte>, sticky: bool, body: seq<byte>, b: seq<byte>)
    requires |header| == HEADER_LEN && b
             == header + SearchPrefix(sticky) + [SAVE_START, 0] + body + [SAVE_END, 0] + [MATCH]
    ensures b == header + (SearchPrefix(sticky) + CaptureCode(false, 0, body) + [MATCH])
    ensures b[HEADER_LEN..] == SearchPrefix(sticky) + CaptureCode(false, 0, body) + [MATCH]
  {
    hide SearchPrefix;
  }

  /** The fields of the header that are known only once the code is complete. */
  method PatchHeader(s: ParseState, flags: int, stackSize: int, ghost code: seq<byte>)
    requires s.byteCode == PutU16(flags) + [0, 0] + PutU32(0) + code && s.captureCount < 256 && 0 <= stackSize < 256
    modifies s`byteCode
    ensures s.byteCode == Header(flags, s.captureCount, stackSize, |code|) + code
  {
    hide PutU32, PutU16;
    s.PutByteAt(2, s.captureCount);
    s.PutByteAt(3, stackSize);
    assert s.byteCode == PutU16(flags) + [s.captureCount, stackSize] + PutU32(0) + code;
    s.PutU32At(4, |s.byteCode| - HEADER_LEN);
    assert s.byteCode == PutU16(flags) + [s.captureCount, stackSize] + PutU32(|code|) + code;
  }

  lemma ScanOfProgram(o: Options, d: Disjunction, sticky: bool)
    requires DisjunctionWellFormed(d)
    ensures var code := ProgramCode(o, d, sticky); Low(Ops(code, 0)) == 0 && Peak(Ops(code, 0)) == Need(code)
  {
    ProgramScanned(o, d, sticky);
  }
}
