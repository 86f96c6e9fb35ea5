/**
 * The bytecode of a syntax tree, as a function of the tree. All jumps are relative, so code can be moved and copied.
 */
module RegexpCode {
  import opened Bytes
  import opened RegexpOpcodes
  import opened RegexpSyntax
  import opened RegexpAnalysis
  import RegexpClass

  /** The flags of a pattern; canon is lre_canonicalize for its unicode mode. */
  datatype Options = Options(ignoreCase: bool, multiLine: bool, dotAll: bool, canon: int -> int)

  function Fold(o: Options, c: int): int {
    if o.ignoreCase then o.canon(c) else c
  }

  /** lre_canonicalize maps code points to code points. */
  ghost predicate OptionsOk(o: Options) {
    forall c :: 0 <= c <= MAX_CODE_POINT ==> 0 <= Fold(o, c) <= MAX_CODE_POINT
  }

  function CharCode(c: int): seq<byte> {
    if c <= 0x7f then [CHAR8, c % 256]
    else if c <= 0xffff then [CHAR16] + PutU16(c)
    else [CHAR32] + PutU32(c)
  }

  /** A one-character matcher steps back before and after reading when the direction is backward. */
  function Stepping(back: bool, code: seq<byte>): seq<byte> {
    if back then [PREV] + code + [PREV] else code
  }

  function SplitOp(greedy: bool): byte {
    if greedy then SPLIT_NEXT_FIRST else SPLIT_GOTO_FIRST
  }

  function Guarded(a: seq<byte>, check: bool): seq<byte> {
    if check then [PUSH_CHAR_POS] + a + [CHECK_ADVANCE] else a
  }

  // The blocks from which quantifiers are assembled, around the code a of the atom.

  function SimpleBlock(a: seq<byte>, min: int, max: int, length: int): seq<byte> {
    [SIMPLE_GREEDY_QUANT] + PutU32(|a| + 1) + PutU32(min) + PutU32(max) + PutU32(length) + (a + [MATCH])
  }

  /** Zero or one iteration. */
  function OptionBlock(a: seq<byte>, greedy: bool, check: bool): seq<byte> {
    var g := Guarded(a, check);
    [SplitOp(greedy)] + PutU32(|g|) + g
  }

  /** Any number of iterations. */
  function StarBlock(a: seq<byte>, greedy: bool, check: bool): seq<byte> {
    var g := Guarded(a, check);
    [SplitOp(greedy)] + PutU32(|g| + 5) + g + [GOTO] + PutU32(-(|g| + 10))
  }

  /** Up to n iterations. */
  function UpToBlock(a: seq<byte>, greedy: bool, check: bool, n: int): seq<byte> {
    var g := Guarded(a, check);
    [PUSH_I32] + PutU32(n) + [SplitOp(greedy)] + PutU32(|g| + 5) + g + [LOOP] + PutU32(-(|g| + 10)) + [DROP]
  }

  /** Exactly n iterations. */
  function ExactBlock(a: seq<byte>, n: int): seq<byte> {
    [PUSH_I32] + PutU32(n) + a + [LOOP] + PutU32(-(|a| + 5)) + [DROP]
  }

  /** At least one iteration of an atom that always advances. */
  function PlusBlock(a: seq<byte>, greedy: bool): seq<byte> {
    a + [if greedy then SPLIT_GOTO_FIRST else SPLIT_NEXT_FIRST] + PutU32(-(|a| + 5))
  }

  function ResetCode(firstCapture: int, endCapture: int): seq<byte> {
    if firstCapture != endCapture then [SAVE_RESET, firstCapture % 256, (endCapture - 1) % 256] else []
  }

  ghost function GeneralCode(a: seq<byte>, min: int, max: int, greedy: bool, firstCapture: int,
                             endCapture: int): seq<byte> {
    var check := NeedCheck(a);
    if min == 0 then
      ResetCode(firstCapture, endCapture)
      + if max == 0 then []
        else if max == 1 then OptionBlock(a, greedy, check)
        else if max == INFINITE then StarBlock(a, greedy, check)
        else UpToBlock(a, greedy, check, max)
    else if min == 1 && max == INFINITE && !check then PlusBlock(a, greedy)
    else
      (if min == 1 then a else ExactBlock(a, min))
      + if max == INFINITE then StarBlock(a, greedy, check)
        else if max > min then UpToBlock(a, greedy, check, max - min)
        else []
  }

  ghost predicate UsesSimpleBlock(a: seq<byte>, max: int, greedy: bool) {
    greedy && max > 0 && SimpleLength(a) > 0
  }

  ghost function QuantifierCode(a: seq<byte>, min: int, max: int, greedy: bool, firstCapture: int,
                                endCapture: int): seq<byte> {
    if UsesSimpleBlock(a, max, greedy) then SimpleBlock(a, min, max, SimpleLength(a))
    else GeneralCode(a, min, max, greedy, firstCapture, endCapture)
  }

  function SaveOp(end: bool): byte {
    if end then SAVE_END else SAVE_START
  }

  function LookOp(negated: bool): byte {
    if negated then NEGATIVE_LOOKAHEAD else LOOKAHEAD
  }

  function BackReferenceOp(back: bool): byte {
    if back then BACKWARD_BACK_REFERENCE else BACK_REFERENCE
  }

  function LookCode(negated: bool, body: seq<byte>): seq<byte> {
    [LookOp(negated)] + PutU32(|body| + 1) + body + [MATCH]
  }

  function EitherCode(left: seq<byte>, right: seq<byte>): seq<byte> {
    [SPLIT_NEXT_FIRST] + PutU32(|left| + 5) + left + [GOTO] + PutU32(|right|) + right
  }

  function CaptureCode(back: bool, cap: int, body: seq<byte>): seq<byte> {
    [SaveOp(back), cap % 256] + body + [SaveOp(!back), cap % 256]
  }

  /** The code of a term whose first capture group gets the number cap. */
  ghost function TermCode(o: Options, t: Term, back: bool, cap: int): seq<byte>
    decreases t
  {
    match t
    case LineStart => [LINE_START]
    case LineEnd => [LINE_END]
    case WordBoundary(negated) => [if negated then NOT_WORD_BOUNDARY else WORD_BOUNDARY]
    case Dot => Stepping(back, [if o.dotAll then ANY else DOT])
    case Char(c) => Stepping(back, CharCode(Fold(o, c)))
    case Class(p) => Stepping(back, RegexpClass.RangeCode(p))
    case BackReference(i) => [BackReferenceOp(back), i % 256]
    case Group(d) => DisjunctionCode(o, d, back, cap)
    case Capture(d) => CaptureCode(back, cap, DisjunctionCode(o, d, back, cap + 1))
    case Look(negated, behind, d) => LookCode(negated, DisjunctionCode(o, d, behind, cap))
    case Quantified(a, min, max, greedy) =>
      QuantifierCode(TermCode(o, a, back, cap), min, max, greedy, cap, cap + Captures(a))
  }

  /** Terms run in order; for the backward direction the last term comes first. */
  ghost function SequenceCode(o: Options, ts: seq<Term>, back: bool, cap: int): seq<byte>
    decreases ts
  {
    if |ts| == 0 then []
    else
      var init := ts[..|ts| - 1];
      var head := SequenceCode(o, init, back, cap);
      var tail := TermCode(o, ts[|ts| - 1], back, cap + SequenceCaptures(init));
      if back then tail + head else head + tail
  }

  ghost function DisjunctionCode(o: Options, d: Disjunction, back: bool, cap: int): seq<byte>
    decreases d
  {
    if |d| == 0 then []
    else
      var init := d[..|d| - 1];
      var right := SequenceCode(o, d[|d| - 1].terms, back, cap + DisjunctionCaptures(init));
      if |d| == 1 then right else EitherCode(DisjunctionCode(o, init, back, cap), right)
  }
}
