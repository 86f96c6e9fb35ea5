# QuickJS libraries: models and proofs

A Dafny 4.11 project that models four self-contained C libraries of QuickJS (directory `quickjs-orgin`) and proves what they
compute. `dafny verify dfyconfig.toml` verifies everything. Each library keeps its own form: buffers, stacks and limb arrays that
the C code rewrites in place are mutable fields and arrays here, loops are loops, and every such method is proved against a
specification about which the properties below are then proved.

**Regular expressions** (`libregexp.c`; files `Regexp*`). The input of the model is a syntax tree (`RegexpSyntax`).
`RegexpSemantics` gives it a meaning: a recursive backtracking matcher in the style of section 22.2.2 of ECMA-262 that returns all
end states in the order in which they are tried. `RegexpCode` defines the bytecode as a function of the tree, `RegexpCompiler` and
`RegexpEntry` are the one-pass compiler that inserts, copies and moves code in place, proved to emit exactly that bytecode.
`RegexpMachine` is the virtual machine as a transition function whose undefined behaviour is the configuration `Stuck`;
`RegexpExec` is the engine itself, with its explicit state stack and its nested calls, proved to follow the transitions.
`RegexpRuns` and `RegexpProgram` prove compiler correctness, `RegexpPrediction`, `RegexpSimple` and `RegexpGreedy` justify the
static analyses and the optimised quantifier, `RegexpHeights` and `RegexpDiscipline` prove that emitted segments are closed under
their jumps, and stack discipline. Since a verdict is
reached after finitely many steps, correctness includes termination. `RegexpFlags` states what each flag and each kind of
term means for the characters taken, in the bits of the flags themselves, and that folding is used with its flag only.

**Number printing and parsing** (`dtoa.c`; files `Limbs`, `Reciprocal`, `Bignum`, `Scaling`, `RadixScaling`, `Float64`, `Dtoa*`,
`Atod*`). A float64 is a pair (m, e) with value m * 2^(e-53); limbs are integers below 2^32 with wrap-around written out; exact
values are reals. From limb arithmetic and division by reciprocals the proofs go up to exact rounding of m * 2^e * radix^f, the
shortest-digit search, the three output formats, correctly rounded parsing, and the round trip from bits to text to bits.
`DtoaShown` compares the printed text with ECMA-262: when it has an exponent, and for radix 10 the whole text. `AtodGrammar`
says which numerals are read, and `AtodPrefix`, on `AtodCopies`, relates calls of `js_atod` on texts with and without sign,
radix prefix, leading zero, and in either case.

**Character sets and normalisation** (`libunicode.c`; files `CharSets`, `CharRanges`, `CaseClosure`, `UnicodeIndex`,
`UnicodeTables`, `CanonicalOrder`, `Decomposition`, `Composition`, `Completeness`, `Normalization`). Set algebra on sorted points,
closure under case folding, an index into run-length tables and the generator of such tables (`unicode_gen.c`), canonical
ordering, decomposition, and composition, which leaves nothing uncomposed.

**Sorting and UTF conversion** (`cutils.c`; files `Ordering`, `HeapSort`, `QuickSort`, `RqSort`, `Utf8`, `Utf8Buffers`, `Bytes`).

Where the code differs from its comments or from the standards, the model follows the code, and a lemma shows the difference:

- The search in `js_dtoa` (dtoa.c:1183-1235) is meant to find the minimum number of digits. It does so except for some numbers
  2^k, because for each digit count it only tries the nearest numeral, although the gap above such a number is twice the gap
  below. `DtoaSearch.NotShortestIff` states exactly which numbers are missed, from the number and the radix alone, and
  `DtoaBoundary.SeventeenDigits` is an instance: 2^89 gets 17 digits, 6189700196426902e11 would do.
- `compose_pair` (libunicode.c:944) takes U+11A7 for a trailing consonant and drops it. `Composition.RoundTrip` shows that this is
  the only way in which composition loses anything, and `Composition.RoundTripFails` is an instance.
- Quantifiers with minimum 0 clear the captures of their atom once, on entry, not before each iteration as ECMA-262 has it;
  `RegexpSemantics` does the same. `RegexpStandard` is the matcher that clears before each iteration, and `RegexpAgreement` follows
  a pattern to find the capture slots on which the two may come to differ. `RegexpAgreement.TermAlike` proves that they find the
  same matches except for those slots, unless a back reference reads one of them; `RegexpClearing` draws the conclusions for
  quantifiers and for compiled programs, and `RegexpClearing.CapturesDiffer` runs a compiled program on which the captures differ.

Hypotheses that appear in the contracts: `Int32` and `|Bytecode| < 2^31` (jump operands are 32-bit), `InputOk` (characters and case
folding stay within U+10FFFF), `FoldingOk`, `TableOk`, `IndexOk`, `DataOk`, `PairsOk`, `PairsClosed`, `Latin1Ok` (well-formed Unicode data),
`Comparator` (a total preorder), and `Room` (arrays as large as the results need). The numeric tables of `dtoa.c` are not
hypotheses: their entries are proved right for every radix.

## Model

| member | source | states |
|---|---|---|
| RegexpProgram.CompiledProgramIsCorrect | quickjs-orgin/libregexp.c:2072-2490 | for every accepted syntax tree, flags, input and start index, the machine on the compiled bytecode halts and returns the first match in priority order of the backtracking matcher, captures included, or no match if there is none |
| RegexpExec.Exec | quickjs-orgin/libregexp.c:2493-2530 | the engine as a loop over arrays terminates and reports exactly that first match: matched if and only if the matcher has an end state, and then the captures of the best one |
| RegexpProgram.CompiledProgramNeverStuck | quickjs-orgin/libregexp.c:2072-2490 | no run of a compiled program, after any number of steps, has popped an empty operand stack, pushed above the size in the header, or left the bytecode, the captures or the input |
| RegexpProgram.NeverStuck | quickjs-orgin/libregexp.c:2072-2490 | a run that reaches a verdict is not stuck at any number of steps, before or after |
| RegexpDiscipline.StackDiscipline | quickjs-orgin/libregexp.c:1749-1791 | in every reachable configuration of every run the operand stack has exactly the height that the linear scan has at the current instruction, hence lies between 0 and the size in the header; saved states, lookarounds and pending calls resume at their own heights |
| RegexpDiscipline.StepKeeps | quickjs-orgin/libregexp.c:2101-2157 | one step of the machine, restores after failure and success included, keeps the heights of the registers, of all saved states and of all pending calls |
| RegexpDiscipline.ProgramSound | quickjs-orgin/libregexp.c:1797-1888 | wherever the code of a program lies, its jumps stay within it or go to its end and lead to places of equal height |
| RegexpHeights.TermSound | quickjs-orgin/libregexp.c:1526-1664 | the segment emitted for any term is closed: wherever it lies, each jump stays inside it or goes to its end, at the height that the scan has there |
| RegexpHeights.LevelBounded | quickjs-orgin/libregexp.c:1749-1791 | the height at any place of the scan lies between the least and the greatest height of the whole scan |
| RegexpHeights.LevelUnique | quickjs-orgin/libregexp.c:1749-1791 | the linear scan assigns at most one height to each place |
| RegexpProgram.SearchRuns | quickjs-orgin/libregexp.c:1828-1836 | the loop in front of a pattern that is not sticky produces the matches of all start positions, leftmost first |
| RegexpProgram.BytecodeLayout | quickjs-orgin/libregexp.c:1823-1871 | the flags, capture count and stack size read back from the header are those of the pattern, and its code follows the header |
| RegexpRuns.TermRuns | quickjs-orgin/libregexp.c:1183-1671 | the code of a term, wherever it lies, produces exactly the end states of the matcher for that term, in the same order, with operand stack and older choices restored after each |
| RegexpRuns.SequenceRuns | quickjs-orgin/libregexp.c:1677-1709 | the same for an alternative, whose terms lie in reverse order when matching backward |
| RegexpRuns.DisjunctionRuns | quickjs-orgin/libregexp.c:1713-1746 | the same for alternatives: those of the left one first, then those of the right one |
| RegexpRuns.CaptureRuns | quickjs-orgin/libregexp.c:1306-1325 | a capture group records start and end position in every end state, in the order of the direction of matching |
| RegexpRuns.LookaroundRuns | quickjs-orgin/libregexp.c:2145-2156 | a lookaround keeps the position, takes the captures of the first match of its body and discards the other choices; a negated one succeeds with the old captures exactly when the body has no match |
| RegexpCorrect.BackReferenceRuns | quickjs-orgin/libregexp.c:2314-2357 | a back reference matches the captured text up to case folding, in either direction, and the empty string when the group has not matched |
| RegexpCorrect.BackwardChar | quickjs-orgin/libregexp.c:1448-1470 | stepping back, reading a character and stepping back again is matching one character backward |
| RegexpRuns.ExactRuns | quickjs-orgin/libregexp.c:1628-1635 | the counted loop for a minimum produces the end states of exactly that many iterations |
| RegexpRuns.StarRuns | quickjs-orgin/libregexp.c:1589-1602 | the unbounded loop produces all iteration counts, greedy or lazy, without iterations that do not move, and ends |
| RegexpRuns.UpToRuns | quickjs-orgin/libregexp.c:1603-1619 | the counted loop produces up to n iterations in the order of preference, each of which moves |
| RegexpRuns.PlusRuns | quickjs-orgin/libregexp.c:1620-1623 | the loop that splits at its end matches one or more iterations of an atom that always moves |
| RegexpRuns.QuantifiedRuns | quickjs-orgin/libregexp.c:1526-1664 | whichever of the translations of a quantifier is chosen, it produces what the quantified term matches |
| RegexpRuns.SimpleAgreesWithGeneral | quickjs-orgin/libregexp.c:1538-1561 | the optimisation preserves meaning: whenever the compiler takes the atom for simple, the optimised block and the general loop produce the same states in the same order |
| RegexpGreedy.QuantifiedIsDown | quickjs-orgin/libregexp.c:2441-2483 | a greedy quantifier on a simple atom matches, in this order, the longest chain of iterations and then one iteration less each time down to the minimum |
| RegexpGreedy.CallRuns | quickjs-orgin/libregexp.c:2453-2470 | the loop of simple_greedy_quant repeats its atom exactly as often as the chain is long, or the maximum allows |
| RegexpGreedy.ResumesDown | quickjs-orgin/libregexp.c:2122-2143 | the counted greedy state gives back one iteration per failure, in order, until the minimum is reached |
| RegexpPrediction.TermMoves | quickjs-orgin/libregexp.c:940-992 | when re_need_check_advance lets the check go, every match of the term ends at a different position than it began |
| RegexpPrediction.TermScanned | quickjs-orgin/libregexp.c:1749-1791 | the code of every term is scanned instruction by instruction to its exact end and leaves the operand stack as high as before, without going below that height |
| RegexpSimple.TermSimple | quickjs-orgin/libregexp.c:996-1034 | when re_is_simple_quantifier accepts code, the term has no groups and at most one match, which moves by exactly the returned length |
| RegexpAnalysis.NeedCheckAdvance | quickjs-orgin/libregexp.c:940-992 | the scanning loop returns true unless the instructions include a character test and nothing but predictable ones |
| RegexpAnalysis.IsSimpleQuantifier | quickjs-orgin/libregexp.c:996-1034 | the scanning loop returns the number of character tests when nothing but those and assertions occurs, otherwise -1 |
| RegexpAnalysis.ComputeStackSize | quickjs-orgin/libregexp.c:1749-1791 | the scanning loop returns the greatest height of the scan when it fits the header byte, otherwise -1 |
| RegexpAnalysis.OpsConcat | quickjs-orgin/libregexp.c:1749-1791 | scanning two segments one after the other meets the opcodes of the first and then those of the second |
| RegexpAnalysis.ScanConcat | quickjs-orgin/libregexp.c:1749-1791 | net height, peak, low and character count of adjacent segments follow from those of the parts |
| RegexpAnalysis.SimpleLengthBound | quickjs-orgin/libregexp.c:996-1034 | the length of simple code is at most its number of bytes |
| RegexpEntry.Compile | quickjs-orgin/libregexp.c:1797-1888 | compilation succeeds exactly when captures, classes and operand stack are within their limits, and then returns exactly the bytecode that CompiledProgramIsCorrect is about |
| RegexpEntry.EmitSearchLoop | quickjs-orgin/libregexp.c:1828-1836 | emits exactly the search prefix that SearchRuns is about |
| RegexpEntry.PatchHeader | quickjs-orgin/libregexp.c:1868-1871 | overwrites exactly the header fields known only at the end and leaves the code alone |
| RegexpCompiler.ParseState.EmitTerm | quickjs-orgin/libregexp.c:1183-1671 | fails exactly when the captures or a class exceed their limits; otherwise appends exactly the code that TermRuns is about and counts the groups |
| RegexpCompiler.ParseState.EmitAlternative | quickjs-orgin/libregexp.c:1677-1709 | appends the terms in order, or, matching backward, in reverse order, by moving each one in front of the earlier ones |
| RegexpCompiler.ParseState.MoveToFront | quickjs-orgin/libregexp.c:1696-1708 | moving the last term by way of a copy behind the end exchanges it with the terms before it and changes no other byte |
| RegexpCompiler.ParseState.EmitDisjunction | quickjs-orgin/libregexp.c:1713-1746 | inserts a split in front of the alternatives so far and patches jumps so that the code is that of DisjunctionRuns |
| RegexpCompiler.ParseState.EmitNextAlternative | quickjs-orgin/libregexp.c:1724-1744 | one more alternative: code already emitted is shifted, and both jump operands count the final lengths |
| RegexpCompiler.ParseState.EmitCapture | quickjs-orgin/libregexp.c:1306-1325 | brackets the body with the two instructions of its group, in the order of the direction |
| RegexpCompiler.ParseState.EmitLook | quickjs-orgin/libregexp.c:1253-1285 | brackets the body with the lookaround, whose operand is patched to point past the final match |
| RegexpCompiler.ParseState.EmitQuantifier | quickjs-orgin/libregexp.c:1526-1664 | replaces the code of the atom by the code of the quantifier that QuantifiedRuns is about, and leaves what precedes it alone |
| RegexpCompiler.ParseState.EmitSimple | quickjs-orgin/libregexp.c:1538-1561 | the atom, shifted by 17 bytes, becomes a subroutine with operands size, minimum, maximum and length |
| RegexpCompiler.ParseState.EmitFromZero | quickjs-orgin/libregexp.c:1577-1619 | the reset of the groups of the atom comes first, then nothing or the optional iterations |
| RegexpCompiler.ParseState.EmitOptional | quickjs-orgin/libregexp.c:1589-1619 | the inserted split, counter and position checks surround the shifted atom with the right offsets |
| RegexpCompiler.ParseState.EmitFromOne | quickjs-orgin/libregexp.c:1620-1662 | the first iterations and then a copy of the atom for the others |
| RegexpCompiler.ParseState.EmitExact | quickjs-orgin/libregexp.c:1628-1635 | a counter before and a loop back to the shifted atom after it |
| RegexpCompiler.ParseState.EmitMore | quickjs-orgin/libregexp.c:1637-1661 | the copy of the atom equals the original although the buffer grows while it is made |
| RegexpCompiler.ParseState.Insert | quickjs-orgin/libregexp.c:121-131 | the bytes before the gap stay, those after it move up by its size |
| RegexpCompiler.ParseState.PutSelf | quickjs-orgin/cutils.c:173-182 | appends a copy of part of the buffer and changes nothing else |
| RegexpCompiler.ParseState.EmitRange | quickjs-orgin/libregexp.c:784-820 | fails exactly when there are more than 65534 intervals; otherwise appends the class test that ClassTestIsMembership is about |
| RegexpClass.ClassTestIsMembership | quickjs-orgin/libregexp.c:784-820 | for every canonical set of 1 to 65534 intervals and every code point, the search on the emitted bytes succeeds if and only if the code point is in the set, with 0xffff as infinity in the narrow form |
| RegexpClass.SearchFinds | quickjs-orgin/libregexp.c:2358-2434 | binary search between two indices finds a code point if and only if an interval between them contains it |
| RegexpClass.EmittedTable | quickjs-orgin/libregexp.c:784-820 | the intervals read back from the emitted bytes are those of the set |
| RegexpClass.RangeMatch | quickjs-orgin/libregexp.c:2358-2434 | the search loop on unsigned indices, which would wrap around below zero, decides that search |
| RegexpExec.ExecContext.Backtrack | quickjs-orgin/libregexp.c:2072-2490 | the loop over pc, position and arrays follows the transition function to its end: it returns 1 with the captures of a match or 0, and inside a call the position where the subroutine ended |
| RegexpExec.ExecContext.Recurse | quickjs-orgin/libregexp.c:2100-2158 | unwinding the saved states after a success or failure either resumes where the transition function resumes or returns its verdict |
| RegexpExec.ExecContext.Instruction | quickjs-orgin/libregexp.c:2160-2440 | executing one instruction changes registers, stacks and captures as the transition function does |
| RegexpExec.ExecContext.SimpleGreedyQuant | quickjs-orgin/libregexp.c:2441-2483 | the nested calls of the engine amount to running the atom as a subroutine until it fails or the maximum is reached |
| RegexpExec.ExecContext.ResumeQuantifier | quickjs-orgin/libregexp.c:2122-2143 | the state of a greedy quantifier loses one iteration and is popped with the last |
| RegexpExec.ExecContext.PushState | quickjs-orgin/libregexp.c:2023-2058 | saves position, captures and operand stack as they are at that moment |
| RegexpExec.Read | quickjs-orgin/libregexp.c:2160-2440 | character tests, assertions, steps back and back references move or fail as the transition function says |
| DtoaRoundTrip.TextReadsBack | quickjs-orgin/dtoa.c:1107-1317 | printing and parsing are inverse: for every float64 but NaN, signed zeros and infinities included, every radix and exponent style, whatever js_atod makes of the text that js_dtoa prints in the free format is the same bits, the whole text being read |
| DtoaRoundTrip.PrintAndParse | quickjs-orgin/dtoa.c:1353-1619 | printing a float64 and parsing the text gives the same sign and bits |
| DtoaBits.PrintedReadsBack | quickjs-orgin/dtoa.c:1183-1235 | the shortest digits, written with any position of the point and the exponent that goes with it, convert back to the same bits |
| DtoaFreeFormat.MaxDigits | quickjs-orgin/dtoa.c:721-724 | radix^(P_max-1) is at least 2^53 and radix^P_max below 2^63 for every radix from 2 to 36 |
| DtoaBoundary.NearestMisses | quickjs-orgin/dtoa.c:1215-1231 | no numeral of at most 16 decimal digits that is nearest to 2^89 reads back to it, although 6189700196426902e11 does |
| DtoaShortest.RoundedIsNearest | quickjs-orgin/dtoa.c:1195-1211 | rounding to p digits at the right exponent gives a numeral nearest among all with at most p digits |
| DtoaShortest.FirstReadsBack | quickjs-orgin/dtoa.c:721-724 | with P_max digits the first try reads back |
| DtoaShortest.SecondCandidate | quickjs-orgin/dtoa.c:1199-1206 | when the first mantissa is too large, one higher exponent gives p digits, so the loop runs at most twice |
| DtoaReadBack.CloserReadsBack | quickjs-orgin/dtoa.c:1215-1231 | around a float64 with equally distant neighbours, what is closer than a number that reads back reads back as well |
| DtoaPrint.JsDtoa | quickjs-orgin/dtoa.c:1107-1317 | the text is sign, NaN, Infinity, zero in the requested layout, or the digits in the free, fixed or fractional format that the format denotes |
| DtoaPrint.PutFree | quickjs-orgin/dtoa.c:1183-1235 | the text shows the shortest digits that FreeFormat finds |
| DtoaPrint.PutFrac | quickjs-orgin/dtoa.c:1241-1258 | the text shows the number rounded to n places, ties away from zero, with exactly n digits after the point and no superfluous zero in front |
| DtoaPrint.PutFixed | quickjs-orgin/dtoa.c:1259-1276 | the text shows the p-digit numeral nearest to the number, ties away from zero |
| DtoaPrint.IntegerDigits | quickjs-orgin/dtoa.c:1241-1258 | the estimated number of integer digits is exact or one too large |
| DtoaFixed.FixedFormat | quickjs-orgin/dtoa.c:1259-1276 | the search over exponents leaves the p-digit numeral nearest to the float64, the larger one of two |
| DtoaFixed.RoundedAtIsNearest | quickjs-orgin/dtoa.c:1259-1276 | the number rounded at f places is nearest, and the larger one of two equally near ones |
| DtoaText.PutNumber | quickjs-orgin/dtoa.c:1277-1311 | the digits with point, zeros and exponent laid out as the exponent mode demands |
| DtoaText.PutExponent | quickjs-orgin/dtoa.c:1284-1300 | letter, sign and magnitude of the exponent, in bits for radices 2, 4, 8 and 16 |
| DtoaText.U64ToA | quickjs-orgin/dtoa.c:615-644 | the decimal text of a 64-bit number without leading zeros, and its length |
| DtoaText.U64ToARadix | quickjs-orgin/dtoa.c:657-688 | the same in any radix |
| DtoaText.PutInteger | quickjs-orgin/dtoa.c:589-602 | the loop that writes digits from the last one on yields the number without leading zeros |
| DtoaText.CountBounds | quickjs-orgin/dtoa.c:657-688 | a number of n digits is below radix^n and, unless zero, at least radix^(n-1) |
| DtoaText.BinaryCount | quickjs-orgin/dtoa.c:669-683 | in a power of two the digit count follows from the position of the highest bit |
| DtoaOutput.OutputDigits | quickjs-orgin/dtoa.c:846-888 | the lowest n digits of the bignum with the point after dotPos of them are written after what the buffer held |
| DtoaOutput.OutputBinary | quickjs-orgin/dtoa.c:860-868 | for a power of two, whole words of digits come from the lowest limb and a shift |
| DtoaOutput.OutputByDivision | quickjs-orgin/dtoa.c:869-878 | for other radices, from the remainder of a division by a power of the radix |
| DtoaOutput.PutDigits | quickjs-orgin/dtoa.c:531-587 | the n lowest digits of a word, with leading zeros |
| DtoaOutput.DigitsHaveValue | quickjs-orgin/dtoa.c:560-587 | the n digits written have the value of the number modulo radix^n |
| DtoaOutput.DigitsSplit | quickjs-orgin/dtoa.c:846-888 | digits can be written in groups: the lower ones, then those of the quotient |
| DtoaOutput.InsertDot | quickjs-orgin/dtoa.c:880-886 | the digits after the point move up by one place and the point goes between |
| AtodParse.Atod | quickjs-orgin/dtoa.c:1353-1619 | the longest numeral is read, with radix prefix, separators, point and exponent; the result is not a number exactly when digits are missing, else the float64 nearest to what the text denotes, ties to even, or unspecified where an int exponent overflows |
| AtodParse.AtodNumber | quickjs-orgin/dtoa.c:1421-1607 | the same for the part after sign and prefix |
| AtodParse.ScanExponent | quickjs-orgin/dtoa.c:1512-1562 | the value of the exponent digits, or a magnitude beyond every float64 when they exceed the range of int; missing digits are an error |
| AtodParse.HugeExponent | quickjs-orgin/dtoa.c:1555-1561 | whatever the digits, an exponent beyond the limit means infinity |
| AtodParse.TinyExponent | quickjs-orgin/dtoa.c:1555-1561 | and one below the negative limit means zero |
| AtodParse.SmallExponentsFit | quickjs-orgin/dtoa.c:1571-1583 | no int overflows for exponents of up to eight digits |
| AtodConvert.Convert | quickjs-orgin/dtoa.c:1563-1607 | the bits of the float64 nearest to the digits times the power, exactly when the exponents fit an int |
| AtodConvert.ConvertBinary | quickjs-orgin/dtoa.c:1571-1580 | for a power of two all digits count, however many: those beyond the limit act through a sticky bit |
| AtodConvert.ConvertOther | quickjs-orgin/dtoa.c:1581-1589 | for other radices the digits kept times a power of the radix are rounded once, and the shortcuts for large and small exponents agree with that |
| AtodConvert.StickyDigits | quickjs-orgin/dtoa.c:1506-1510 | the sticky bit stands for the digits beyond the limit |
| AtodConvert.NonzeroExponent | quickjs-orgin/dtoa.c:1597-1600 | a nonzero mantissa never has an exponent below -1073, so that the last underflow branch loses nothing |
| AtodDigits.SkipZeros | quickjs-orgin/dtoa.c:1439-1458 | the loop reads the leading zeros and at most one point, and nothing that belongs to later digits is lost |
| AtodDigits.ScanDigits | quickjs-orgin/dtoa.c:1460-1495 | the loop reads the numeral to its end; the bignum holds its first digits and extra tells whether a later one is nonzero |
| AtodDigits.AddDigit | quickjs-orgin/dtoa.c:1479-1488 | bignum and partial limb together hold the digits so far |
| AtodDigits.Mul1Base | quickjs-orgin/dtoa.c:1332-1350 | the bignum becomes itself times the base plus a limb, a base of 0 standing for 2^32 |
| DtoaNearest.RoundsToNearest | quickjs-orgin/dtoa.c:969-1002 | no number of 53 bits with a last place of at least 2^-1074 is closer than the float64 chosen, and ties go to the even one |
| DtoaNearest.UniqueDouble | quickjs-orgin/dtoa.c:969-1002 | different normalised pairs are different numbers |
| Float64.RoundToD | quickjs-orgin/dtoa.c:969-1002 | the bignum is rounded once to a float64, subnormal precision and mantissa overflow included |
| Float64.MulPowRoundToD | quickjs-orgin/dtoa.c:1005-1012 | bignum times radix^f is rounded once to a float64, whatever f |
| Float64.StickyRoundsTo | quickjs-orgin/dtoa.c:1005-1012 | a number of more than 55 bits with a sticky lowest bit rounds as the number it stands for |
| RadixScaling.MulPowRound | quickjs-orgin/dtoa.c:958-966 | exactly round(m * 2^e * radix^f) for every 64-bit m, every e and f, every radix and mode |
| RadixScaling.MulPow | quickjs-orgin/dtoa.c:892-953 | the result is exact or the floor with a sticky bit, with enough bits for the rounding that follows |
| RadixScaling.DivLoop | quickjs-orgin/dtoa.c:934-949 | repeated truncating divisions are one division, and the or of the remainders is zero exactly when that division is exact |
| RadixScaling.MulLoop | quickjs-orgin/dtoa.c:899-915 | repeated multiplications by limbs are one multiplication by radix^f |
| RadixScaling.LimbsSuffice | quickjs-orgin/dtoa.c:921-932 | the limbs reserved for the quotient hold radix^f |
| Scaling.StickyIsInvisible | quickjs-orgin/dtoa.c:950-966 | rounding two or more bits above the sticky bit does not see what was cut off |
| Scaling.PowUi | quickjs-orgin/dtoa.c:241-268 | a^b by table, by table and shift for 10, or by repeated squaring, whenever it fits 64 bits |
| Scaling.PowUiInv | quickjs-orgin/dtoa.c:270-292 | a^b normalised, with its reciprocal and the shift that undoes the normalisation |
| DtoaTables.Pow5Correct | quickjs-orgin/dtoa.c:219-239 | the table of powers of five holds them |
| DtoaTables.Pow5InverseCorrect | quickjs-orgin/dtoa.c:219-239 | the table of inverses holds the reciprocals of the normalised powers |
| DtoaTables.AllRadixFacts | quickjs-orgin/dtoa.c:701-750 | digits per limb, radix base and digit limits of every radix satisfy what the algorithms rely on |
| DtoaLogTable.CertifiedTable | quickjs-orgin/dtoa.c:457-487 | two Farey neighbours around the logarithm prove a table entry right for all arguments from -2048 to 2047 |
| DtoaCertificates.RadixPowerOfTwo | quickjs-orgin/dtoa.c:457-487 | the tables are right for every power of two |
| Bignum.Mpb.ShrRound | quickjs-orgin/dtoa.c:312-397 | exactly value/2^shift rounded to nearest even, nearest away or towards zero, for positive, zero and negative shifts; nonzero results of normalised arguments are normalised |
| Bignum.Mpb.RoundUp | quickjs-orgin/dtoa.c:338-372 | the decision from the bit below the cut and those under it is that of exact rounding |
| Bignum.Mpb.ShiftDown | quickjs-orgin/dtoa.c:374-395 | exact quotient plus the increment |
| Bignum.Mpb.ShiftUp | quickjs-orgin/dtoa.c:318-333 | exact product with the power of two |
| Bignum.Mpb.GetBit | quickjs-orgin/dtoa.c:299-310 | the bit at any position, zero beyond the number |
| Bignum.Mpb.Cmp | quickjs-orgin/dtoa.c:400-416 | the order of two normalised numbers |
| Bignum.Mpb.SetU64 | quickjs-orgin/dtoa.c:418-431 | the bignum of a 64-bit number, normalised |
| Bignum.Mpb.GetU64 | quickjs-orgin/dtoa.c:433-445 | the number modulo 2^64 |
| Bignum.Mpb.FloorLog2 | quickjs-orgin/dtoa.c:447-455 | the position of the highest bit, -1 for zero |
| Bignum.Mpb.Renorm | quickjs-orgin/dtoa.c:213-217 | the same number without leading zero limbs |
| Rounding.RoundIsNearest | quickjs-orgin/dtoa.c:293-297 | no integer is nearer than the rounded one, ties go to the even or the larger one, and truncation gives the greatest integer not above |
| Reciprocal.Udiv1Norm | quickjs-orgin/dtoa.c:116-134 | exact quotient and remainder of a two-limb number by a normalised limb, although no division is executed and all sums wrap around |
| Reciprocal.Udiv1NormInit | quickjs-orgin/dtoa.c:106-112 | the reciprocal that this needs |
| Reciprocal.Div1Norm | quickjs-orgin/dtoa.c:185-198 | in place: old number and incoming remainder = new number * (b >> shift) + r, with r below b >> shift |
| Reciprocal.Correct | quickjs-orgin/dtoa.c:125-133 | one correction by the high limb of a wrapped difference makes the estimated quotient exact |
| Limbs.AddUi | quickjs-orgin/dtoa.c:74-88 | old + b = new + carry * 2^(32n) |
| Limbs.Mul1 | quickjs-orgin/dtoa.c:91-103 | old * b + l = new + carry * 2^(32n) |
| Limbs.Div1 | quickjs-orgin/dtoa.c:136-149 | r * 2^(32n) + old = new * b + remainder, with remainder below b |
| Limbs.Shr | quickjs-orgin/dtoa.c:151-167 | old + high * 2^(32n) = new * 2^shift + remainder |
| Limbs.Shl | quickjs-orgin/dtoa.c:169-183 | old * 2^shift + low = new + bits shifted out * 2^(32n) |
| CharRanges.CharRange.Op | quickjs-orgin/libunicode.c:455-505 | the destination denotes exactly the union, intersection or symmetric difference, as a strictly increasing list |
| CharRanges.CharRange.Compress | quickjs-orgin/libunicode.c:426-452 | the same set as a strictly increasing list, rewritten in place |
| CharRanges.CharRange.Invert | quickjs-orgin/libunicode.c:519-531 | exactly the complement, in canonical form |
| CharRanges.CharRange.Union1 | quickjs-orgin/libunicode.c:507-517 | the union with another list |
| CharRanges.CharRange.UnionInterval | quickjs-orgin/libunicode.h:93-99 | the union with an interval, both ends included |
| CharRanges.CharRange.AddPoint | quickjs-orgin/libunicode.h:70-78 | appends a point |
| CharRanges.CharRange.AddInterval | quickjs-orgin/libunicode.h:80-89 | appends an interval |
| CharRanges.CanonicalUnique | quickjs-orgin/libunicode.c:426-452 | equal sets have equal canonical lists |
| CharRanges.DoubleInverse | quickjs-orgin/libunicode.c:519-531 | a canonical list that is the complement of the complement is the list itself |
| CharRanges.MemberIsOdd | quickjs-orgin/libunicode.c:455-505 | a point belongs to the set exactly when an odd number of list points is at most it, which is what the parity bits of cr_op count |
| CaseClosure.RegexpCanonicalize | quickjs-orgin/libunicode.c:1383-1458 | the set becomes exactly its image under the fold, in canonical form |
| CaseClosure.FoldIntervals | quickjs-orgin/libunicode.c:1406-1444 | the loops over intervals and table entries collect exactly the folds of the members |
| CaseClosure.FindEntry | quickjs-orgin/libunicode.c:1418-1426 | the search for the table entry of a code point of the mask ends inside the table |
| CaseClosure.SortAndRemoveOverlap | quickjs-orgin/libunicode.c:1345-1379 | intervals in any order and overlap become the canonical list of the same set |
| UnicodeIndex.IsInTable | quickjs-orgin/libunicode.c:305-338 | the indexed lookup is membership in exactly the intervals that decoding the table from its start yields |
| UnicodeIndex.GetIndexPos | quickjs-orgin/libunicode.c:272-303 | the entry found is a place that the linear decoder passes before the code point, and outside is reported exactly past the last entry |
| UnicodeIndex.Decode | quickjs-orgin/libunicode.c:315-337 | decoding from such a place decides membership |
| UnicodeIndex.Prop1 | quickjs-orgin/libunicode.c:1227-1264 | the set collected is canonical and has exactly the members that the lookup accepts |
| UnicodeIndex.PassesSeeks | quickjs-orgin/libunicode.c:305-338 | for code points from q on, decoding from q and decoding from the start give the same answer |
| CanonicalOrder.Text.SortCc | quickjs-orgin/libunicode.c:878-905 | the insertion sort of runs yields the canonical order of the text |
| CanonicalOrder.ReorderIsCanonical | quickjs-orgin/libunicode.c:878-905 | the result is in canonical order and a permutation of the text |
| CanonicalOrder.ReorderKeepsStarters | quickjs-orgin/libunicode.c:878-905 | starters keep their places |
| CanonicalOrder.ReorderFixed | quickjs-orgin/libunicode.c:878-905 | a text in canonical order stays as it is |
| CanonicalOrder.ReorderSwap | quickjs-orgin/libunicode.c:878-905 | exchanging adjacent marks of different classes makes no difference |
| Decomposition.ToNfdRec | quickjs-orgin/libunicode.c:907-933 | the recursion appends the full decomposition, Hangul syllables included |
| Decomposition.FullAllIsPlain | quickjs-orgin/libunicode.c:907-933 | nothing in a full decomposition decomposes further |
| Composition.UnicodeComposePair | quickjs-orgin/libunicode.c:791-824 | the binary search finds the composite of a pair, or 0 when there is none |
| Composition.ComputePair | quickjs-orgin/libunicode.c:936-949 | Hangul by arithmetic, everything else by the table; U+11A7 counts as a trailing consonant |
| Composition.FullOfPair | quickjs-orgin/libunicode.c:936-949 | a composite decomposes like its two parts, unless the second is U+11A7 after a syllable without trailing consonant |
| Normalization.ComposeInPlace | quickjs-orgin/libunicode.c:995-1019 | the loop leaves the canonical composition of section 3.11 of the Unicode Standard, definitions D115 and D117, in the front of the buffer |
| Normalization.FindStarter | quickjs-orgin/libunicode.c:998-1010 | the last starter from which the character is not blocked |
| Composition.RoundTrip | quickjs-orgin/libunicode.c:951-1021 | decomposing and reordering the composed text gives back the decomposed text if and only if that text nowhere has U+11A7 right after a leading consonant and a vowel |
| Composition.RoundTripFails | quickjs-orgin/libunicode.c:944 | U+1100 U+1161 U+11A7 loses its last character |
| Composition.NormalIsStable | quickjs-orgin/libunicode.c:951-1021 | under that condition composing twice changes nothing more, and texts compose to the same exactly when they decompose to the same |
| Normalization.Normalize | quickjs-orgin/libunicode.c:951-1021 | the result is the normal form asked for, by every branch |
| Normalization.Latin1IsNormal | quickjs-orgin/libunicode.c:963-976 | the shortcut is right: Latin-1 text is its own composed form |
| RqSort.RqSort | quickjs-orgin/cutils.c:775-892 | the array becomes a sorted permutation of itself for every total preorder; the loop ends and the stack of 50 segments never overflows |
| RqSort.SplitSegment | quickjs-orgin/cutils.c:847-884 | after a partition the two outer parts replace the segment, and everything else is in its final place relative to them |
| RqSort.StackBound | quickjs-orgin/cutils.c:775-803 | segments of strictly increasing depth between 1 and d are at most d |
| QuickSort.Partition | quickjs-orgin/cutils.c:805-867 | every position between the two bounds returned is a cut, with nothing before it greater than anything after it, and at least one element lies between them, so that both outer parts are shorter |
| QuickSort.Scan | quickjs-orgin/cutils.c:810-842 | the scan from both ends leaves equal elements at the two ends and the others separated |
| QuickSort.Med3 | quickjs-orgin/cutils.c:767-773 | the element returned lies between the other two |
| QuickSort.InsertionSort | quickjs-orgin/cutils.c:886-890 | short segments become sorted permutations of themselves |
| HeapSort.HeapSortX | quickjs-orgin/cutils.c:733-765 | the segment becomes a sorted permutation of itself and nothing outside it changes |
| HeapSort.SiftDown | quickjs-orgin/cutils.c:743-752 | sinking one element restores the heap |
| HeapSort.RootIsGreatest | quickjs-orgin/cutils.c:753-764 | no element of a heap is greater than its root |
| Utf8Buffers.Utf16RoundTripWhole | quickjs-orgin/cutils.c:483-507 | decoding what encoding wrote is the identity on every sequence of 16-bit units, lone surrogates included |
| Utf8Buffers.Utf8EncodeBuf16 | quickjs-orgin/cutils.c:553-591 | the returned length is that of the whole encoding, whatever the size of the destination, which gets as many whole characters as fit before a final zero and is unchanged behind it |
| Utf8Buffers.Utf8DecodeBuf16 | quickjs-orgin/cutils.c:483-507 | the returned length is the number of units of the whole text; exactly the units that fit are stored |
| Utf8Buffers.Utf8Scan | quickjs-orgin/cutils.c:407-445 | for every byte string the length is the number of units that the decoder produces, and the flags tell exactly which code points and errors occur |
| Utf8Buffers.Utf8DecodeLen | quickjs-orgin/cutils.c:371-394 | decodes one code point without looking past the end; a malformed byte is U+FFFD and counts as one |
| Utf8Buffers.Utf8Decode | quickjs-orgin/cutils.c:303-369 | the same for a text with enough bytes after the lead byte or with a terminating zero |
| Utf8Buffers.Utf8Encode | quickjs-orgin/cutils.c:259-287 | writes the encoding of a code point and nothing else |
| Utf8Buffers.Utf8EncodeLen | quickjs-orgin/cutils.c:238-250 | the number of bytes of that encoding |
| Utf8.DecodedOrError | quickjs-orgin/cutils.c:371-394 | an error is reported exactly where the encoding of no code point begins; otherwise the code point encoded there is returned |
| Utf8.DecodeEncoded | quickjs-orgin/cutils.c:303-369 | an encoded code point is decoded, whatever follows it |
| Utf8.SurrogatesRoundTrip | quickjs-orgin/cutils.h:491-519 | splitting into surrogates and joining them are inverse |
| Bytes.U32RoundTrip | quickjs-orgin/cutils.h:263-299 | what put_u32 stores, get_u32 reads back modulo 2^32, and with its sign when it fits an int |
| Bytes.U16RoundTrip | quickjs-orgin/cutils.h:263-299 | the same for 16 bits |
| RegexpCompiler.ParseState.EmitOneChar | quickjs-orgin/libregexp.c:1447-1471 | fails exactly for classes with too many intervals; otherwise appends the test of one character, between two steps back when matching backward |
| RegexpRuns.GeneralCodeRuns | quickjs-orgin/libregexp.c:1567-1662 | the general translation of a quantifier produces what the quantified term matches, whatever the atom |
| DtoaReadBack.ReadsBackIff | quickjs-orgin/dtoa.c:969-1002 | around a float64 with equally distant neighbours, exactly the numbers whose units of the last place round to its mantissa read back to it |
| RegexpCompiler.ParseState.EmitGoto | quickjs-orgin/libregexp.c:363-370 | appends a jump whose operand is the distance from its end to the target |
| RegexpCompiler.ParseState.EmitChar | quickjs-orgin/libregexp.c:1460-1468 | appends the shortest of the three forms that holds the folded character |
| RegexpCompiler.ParseState.EmitPairs16 | quickjs-orgin/libregexp.c:804-810 | the loop appends two 16-bit ends for each interval, 0xffff for infinity |
| RegexpCompiler.ParseState.EmitPairs32 | quickjs-orgin/libregexp.c:813-816 | the loop appends two 32-bit ends for each interval |
| RegexpExec.ExecContext.StackOp | quickjs-orgin/libregexp.c:2268-2291 | push, drop, loop and position checks change the operand stack as the transition function does |
| RegexpExec.ExecContext.CaptureOp | quickjs-orgin/libregexp.c:2248-2267 | setting and resetting captures changes the array as the transition function does |
| RegexpExec.MatchCharOp | quickjs-orgin/libregexp.c:2160-2240 | decides whether an instruction accepts a character, literals, line terminators and classes alike |
| RegexpExec.CompareForwardLoop | quickjs-orgin/libregexp.c:2328-2340 | the loop finds the end of the text equal to the capture, or -1 |
| RegexpExec.CompareBackwardLoop | quickjs-orgin/libregexp.c:2342-2354 | the same going backward |
| RegexpExec.ReadBackReference | quickjs-orgin/libregexp.c:2314-2357 | a back reference moves or fails as the transition function says |
| DtoaPrint.PutFinite | quickjs-orgin/dtoa.c:1161-1311 | chooses among the formats; the text is what the format denotes |
| DtoaPrint.PutSmallInteger | quickjs-orgin/dtoa.c:1168-1176 | the shortcut prints exactly the integer that the float64 is |
| DtoaPrint.TrimZero | quickjs-orgin/dtoa.c:1253-1256 | one leading zero goes if a digit follows it |
| DtoaFixed.PowerOf | quickjs-orgin/dtoa.c:1263-1267 | the bignum radix^P that bounds the mantissa |
| DtoaFreeFormat.RemoveZeros | quickjs-orgin/dtoa.c:1207-1211 | the same number without trailing zeros, still nearest for its digit count |
| DtoaFreeFormat.ReadBack | quickjs-orgin/dtoa.c:1215-1218 | the float64 that the digits round to |
| DtoaFreeFormat.SplitRadix | quickjs-orgin/dtoa.c:1120-1121 | a radix is an odd part, 1 or at least 3, times a power of two of at most 32 |
| DtoaText.PutFraction | quickjs-orgin/dtoa.c:1301-1306 | zero, point, zeros and digits of a number below 1 |
| DtoaText.PutDotted | quickjs-orgin/dtoa.c:1307-1311 | the digits with the point among them or zeros behind them |
| DtoaText.PutUpper | quickjs-orgin/dtoa.c:624-639 | the digits above the last nine |
| AtodParse.Finish | quickjs-orgin/dtoa.c:1552-1607 | zero, out of range or converted: the bits are those of the number that the text denotes |
| AtodDigits.StoreDigit | quickjs-orgin/dtoa.c:1479-1491 | a digit goes to the bignum while there is room in the limit, afterwards only to the or of the rest |
| AtodDigits.FlushDigits | quickjs-orgin/dtoa.c:1493-1495 | after the last partial limb the bignum holds the digits kept |
| RadixScaling.DivideOut | quickjs-orgin/dtoa.c:916-952 | the scaled quotient with its sticky bit has as many bits as asked for |
| RadixScaling.SetSticky | quickjs-orgin/dtoa.c:951 | sets the lowest bit, whatever it was |
| CaseClosure.SortIntervals | quickjs-orgin/libunicode.c:1350 | the intervals sorted by start denote the same set |
| CaseClosure.Extend | quickjs-orgin/libunicode.c:1353-1373 | the interval grown over all that overlap or touch it covers exactly these |
| CharRanges.MergeEnd | quickjs-orgin/libunicode.c:441-443 | the last of the intervals that touch one another; merging up to there keeps the set and leaves a gap |
| CanonicalOrder.Text.InsertInRun | quickjs-orgin/libunicode.c:887-900 | a mark moves in front of those of higher class in its run and the others keep their order |
| Decomposition.PutSyllable | quickjs-orgin/libunicode.c:916-923 | appends the two or three letters of a syllable |
| QuickSort.ScanRight | quickjs-orgin/cutils.c:815-823 | moves over elements not greater than the pivot, equal ones to the left end |
| QuickSort.ScanLeft | quickjs-orgin/cutils.c:824-830 | moves over elements not less than the pivot, equal ones to the right end |
| QuickSort.SwapBlock | quickjs-orgin/cutils.c:847-862 | exchanges two blocks element by element |
| QuickSort.ChoosePivot | quickjs-orgin/cutils.c:805-809 | of the elements at one, two and three quarters one that lies between the other two comes to the front, by a permutation |
| RqSort.SplitStep | quickjs-orgin/cutils.c:805-884 | partitions a segment; the larger part is stacked one level deeper, the smaller one goes on |
| RqSort.SortSegment | quickjs-orgin/cutils.c:799-804 | ends a segment by heap sort or insertion sort |
| Utf8Buffers.CountRest | quickjs-orgin/cutils.c:577-590 | after an overflow of the destination the rest of the encoding is still counted |
| DtoaFreeFormat.FreeFormat | quickjs-orgin/dtoa.c:1183-1235 | the digits found read back to the same float64, no numeral with as many digits is nearer, the last digit is not zero, and a numeral with fewer digits reads back if and only if Misses holds of the float64 and the radix |
| DtoaSearch.NotShortestIff | quickjs-orgin/dtoa.c:1183-1235 | exactly when the search misses the fewest digits, in terms of the float64 and the radix alone: the float64 begins a binade of normal numbers, and for some digit count below P_max it is rounded down by more than a quarter of a last place while the next numeral up is at most half of a last place above it |
| DtoaSearch.NoFewerDigits | quickjs-orgin/dtoa.c:1215-1231 | if the nearest numeral of q digits does not read back, no numeral of at most q digits does, except above the beginning of a binade |
| DtoaSearch.TryKept | quickjs-orgin/dtoa.c:1207-1211 | when the digits end in zero, the try with one digit less finds the same numeral at the same exponent, so that skipping it loses nothing |
| DtoaSearch.MaxReturn | quickjs-orgin/dtoa.c:1186-1193 | every try with enough digits for 53 bits reads back |
| DtoaSearch.BinadeInterval | quickjs-orgin/dtoa.c:969-1002 | the reals that round to 2^(e-1) are exactly those from a quarter of a last place below to half of one above it |
| DtoaFreeFormat.TryDigits | quickjs-orgin/dtoa.c:1195-1211 | each try leaves the numeral of p digits nearest to the float64 after at most one correction of the exponent |
| DtoaBoundary.SeventeenDigits | quickjs-orgin/dtoa.c:1183-1235 | the search returns 17 digits for 2^89, of which Misses holds: 16 would do |
| DtoaBits.BitsDenote | quickjs-orgin/dtoa.c:1590-1607 | what the bits of the result denote: the float64 that the number rounds to, subnormal numbers included; infinity exactly from half a last place below 2^1024 on; zero exactly up to half of the smallest float64 |
| DtoaBits.EncodedDecodes | quickjs-orgin/dtoa.c:1601-1606 | encoding loses nothing: the bits of a float64 in range, normal or subnormal, are taken apart into that float64 |
| DtoaBits.DecodedIsDouble | quickjs-orgin/dtoa.c:1122-1164 | every finite nonzero float64 is taken apart into a normalised pair in range that stands for the same bits |
| DtoaRadixTables.MulLog2Radix | quickjs-orgin/dtoa.c:473-487 | the largest k with radix^k <= 2^a for every radix from 2 to 36 and every a from -2048 to 2047 |
| DtoaRadixTables.TablesOk | quickjs-orgin/dtoa.c:457-487 | every entry of the logarithm table and of the tables of exponent limits is right |
| RegexpAgreement.TermAlike | quickjs-orgin/libregexp.c:1577-1586 | for every term, and from states that agree outside of the slots r: as long as no back reference reads a slot that may differ, the engine and a matcher that clears the groups of an atom before each iteration (ECMA-262) find the same end positions in the same order, and captures that differ at most in the slots computed by Apart |
| RegexpClearing.PositionsAgree | quickjs-orgin/libregexp.c:1577-1586 | whatever was set before, and for every minimum, maximum, greed and direction, a quantifier whose atom has no back reference to its own groups has the same end positions in the same order with either way of clearing, and the same captures outside of the atom |
| RegexpClearing.ClearingIsInvisible | quickjs-orgin/libregexp.c:1577-1586 | an atom that sets all its groups and does not refer to them has the same end states, captures included, whether or not they are cleared first |
| RegexpClearing.QuantifiersAgree | quickjs-orgin/libregexp.c:1577-1586 | on such an atom, for every minimum, maximum, greed and direction, the two ways of clearing give the same end states, captures included, if and only if the minimum is positive or the groups are unset on entry |
| RegexpClearing.CleanAgree | quickjs-orgin/libregexp.c:1577-1586 | terms in which each quantifier repeats at most once or has such an atom match alike, captures included, when their groups are unset on entry |
| RegexpClearing.CompiledProgramIsStandard | quickjs-orgin/libregexp.c:1577-1586 | for every accepted pattern in which no back reference reads a slot that may differ, the compiled program ends with the first match that the standard finds, and with its captures except in the slots of PatternApart; if there are none, in all of them |
| RegexpClearing.CleanPattern | quickjs-orgin/libregexp.c:1577-1586 | in a pattern whose quantifiers all repeat at most once or have such an atom, no back reference reads a slot that may differ, and there is no such slot |
| RegexpClearing.CapturesDiffer | quickjs-orgin/libregexp.c:1577-1586 | the program compiled from the starred group of the alternatives (a) and b, run on "ab", ends with group 1 at [0, 1), where the standard leaves it unset |
| AtodDigits.ReadMarks | quickjs-orgin/dtoa.c:1463-1477 | a point and a separator are read where they are allowed; the end of the numeral does not change, and it is reached unless a digit follows |
| QuickSort.JoinEqual | quickjs-orgin/cutils.c:843-862 | moves the elements equal to the pivot from both ends into the middle, after which every position from l to g is a cut |
| DtoaPrint.PutTrimmed | quickjs-orgin/dtoa.c:1249-1257 | a number printed with k digits before the point, one of which may be too many, appears as its text with n digits after the point and without a superfluous zero |
| RegexpFlags.LiteralTakes | quickjs-orgin/libregexp.c:2168-2180 | a literal takes the next character, in either direction, exactly when the two are equal, or with bit 1 of the flags set, when their folds are equal; bit 4 chooses the fold |
| RegexpFlags.ClassTakes | quickjs-orgin/libregexp.c:2358-2420 | a class takes the next character exactly when it is a member, or with bit 1 of the flags set, when its fold is |
| RegexpFlags.DotTakes | quickjs-orgin/libregexp.c:2236-2247 | a dot takes any character if bit 3 of the flags is set, otherwise any but the four line terminators |
| RegexpFlags.AnchorsHold | quickjs-orgin/libregexp.c:2218-2235 | the anchors hold at the ends of the input, and with bit 2 of the flags set next to a line terminator as well |
| RegexpFlags.BoundaryHolds | quickjs-orgin/libregexp.c:2291-2313 | a word boundary holds where exactly one of the two neighbours is in the word class that the parser uses for that escape |
| RegexpFlags.WordRangeIs | quickjs-orgin/libregexp.c:1895-1901 | the test of word characters agrees with the table of the word class |
| RegexpFlags.BackReferenceTakes | quickjs-orgin/libregexp.c:2314-2357 | a back reference takes as many characters as the group, each equal to the one in the group or, with bit 1 of the flags set, with the same fold, forward from the position or back from it |
| RegexpFlags.StickyMeans | quickjs-orgin/libregexp.c:1828-1836 | with bit 5 of the flags set only the start position is tried; without it the matches from there come first, then those from the next position on |
| RegexpFlags.TermAlike | quickjs-orgin/libregexp.c:2175-2176 | without the flag that ignores case, a term has the same end states whatever the fold is |
| RegexpFlags.FromAlike | quickjs-orgin/libregexp.c:2334-2336 | so has the search for a whole pattern |
| RegexpFlags.CaseMatters | quickjs-orgin/libregexp.c:2493-2530 | without that flag, programs compiled and run with any two folds reach the same verdict |
| DtoaShown.ExponentWhen | quickjs-orgin/dtoa.c:1277-1320 | a finite nonzero float64 is printed with an exponent, in the automatic mode, exactly when the number that the text shows is below radix^-6 or not below radix to the power of P_max + 4, or of the number of digits asked for; in the format with digits after the point never |
| DtoaShown.PrintedExponent | quickjs-orgin/dtoa.c:1277-1320 | the same for the text that js_dtoa leaves, with its sign: it contains the letter of the exponent exactly then |
| DtoaShown.DecimalExponent | quickjs-orgin/dtoa.c:1281-1283 | in radix 10 and the default style the text contains e if and only if the number it shows is below 10^-6 or at least 10^21, as in section 6.1.6.1.20 of ECMA-262 |
| DtoaShown.NumberIsEcma | quickjs-orgin/dtoa.c:1277-1320 | the layout of digits and exponent is the one that section 6.1.6.1.20 of ECMA-262 prescribes for them |
| DtoaShown.ShortestDigits | quickjs-orgin/dtoa.c:1192-1235 | the digits printed, without trailing zeros, are the ones that section asks for |
| DtoaShown.NumberToString | quickjs-orgin/dtoa.c:1122-1320 | the whole text for every float64 in radix 10 and the default style: NaN, signed Infinity, zero, or sign, digits, point, zeros and exponent laid out as ECMA-262 has it |
| DtoaShown.ZeroPrinted | quickjs-orgin/dtoa.c:1138-1153 | zero in every format and radix: one zero and as many behind the point as the format asks for |
| DtoaBits.DecodedAsIeee | quickjs-orgin/dtoa.c:1122-1166 | the bits of a float64 are read as section 3.4 of IEEE 754 has it, subnormal numbers, infinity and NaN included |
| AtodParse.ScanPrefix | quickjs-orgin/dtoa.c:1371-1418 | sign, prefix, radix and separator are chosen step by step as the specification says |
| AtodParse.ScanOctal | quickjs-orgin/dtoa.c:1401-1402 | the loop ends behind the octal digits |
| AtodCopies.Determined | quickjs-orgin/dtoa.c:1353-1619 | a text and the place where its digits begin have only one outcome: failure or not, bits, and end |
| AtodCopies.ReadingShifts | quickjs-orgin/dtoa.c:1440-1607 | texts that agree from the digits on, one of them shifted, are read alike, digits, point, exponent and bits |
| AtodCopies.Copies | quickjs-orgin/dtoa.c:1440-1607 | two calls on such texts have the same outcome, one of them as many places later as the texts are shifted |
| AtodPrefix.OctalAndBinaryPrefix | quickjs-orgin/dtoa.c:1389-1396 | where the flags accept them, "0o" and "0b" in front of a digit, signed or not, give the sign and bits of the call with radix 8 or 2 on the text without prefix, and end two places later |
| AtodPrefix.HexadecimalPrefix | quickjs-orgin/dtoa.c:1385-1388 | so does "0x" for radix 16, if and only if the text behind it does not begin with "0x" again |
| AtodPrefix.PrefixAlone | quickjs-orgin/dtoa.c:1410-1412 | a prefix without a digit of its radix behind it is refused |
| AtodPrefix.LegacyOctal | quickjs-orgin/dtoa.c:1397-1406 | where the flags accept it, a leading zero in front of octal digits gives the outcome of radix 8 without separators, one place later |
| AtodPrefix.LegacyDecimal | quickjs-orgin/dtoa.c:1400-1404 | if an 8 or a 9 ends the octal digits, the outcome is that of radix 10 without separators |
| AtodPrefix.NoPrefix | quickjs-orgin/dtoa.c:1407-1418 | a text without an accepted prefix, in particular one whose prefix the flags refuse, is read as in radix 10 |
| AtodPrefix.GivenRadix | quickjs-orgin/dtoa.c:1388-1418 | with a radix given, and no "0x" where it is 16, nothing but the sign comes before the digits |
| AtodPrefix.SignedReading | quickjs-orgin/dtoa.c:1375-1386 | a sign in front of any text without one gives the same number with that sign, one place later |
| AtodPrefix.CaseDoesNotMatter | quickjs-orgin/dtoa.c:1372-1607 | texts that differ in the case of letters only, digits, prefixes and exponents, have the same outcome, unless just one of them begins with the word Infinity |
| AtodGrammar.LongestNumeral | quickjs-orgin/dtoa.c:1442-1480 | the digits end at e if and only if every character before it continues the numeral and the one there does not: a digit, the first point with something before it or a digit behind, or a separator between something and a digit |
| AtodGrammar.LongestDigits | quickjs-orgin/dtoa.c:1535-1551 | the same for the decimal digits of an exponent and their separators |
| AtodGrammar.ExponentLetters | quickjs-orgin/dtoa.c:1515-1520 | an exponent begins with e in radix 10, with @ elsewhere, and with p in radix 2, 4, 8 and 16, behind at least one character and unless only integers are read |
| UnicodeTables.BuildPropTable | quickjs-orgin/unicode_gen.c:1471-1570 | the table and index generated for a property are well-formed, and decoding finds in them exactly the code points that have the property |
| UnicodeTables.BuildTable | quickjs-orgin/unicode_gen.c:1505-1553 | the linear decoder reads from the table exactly the runs written, and each entry of the index names a place that it passes |
| UnicodeTables.FindRuns | quickjs-orgin/unicode_gen.c:1483-1495 | the runs found say of every code point whether it has the property |
| UnicodeTables.PassesGrown | quickjs-orgin/unicode_gen.c:1509-1544 | the places of a table stay when items are appended |
| Completeness.SyllableIsNormal | quickjs-orgin/libunicode.c:936-949 | the composed form of a single Hangul syllable is the syllable itself |
| Completeness.SyllablesOrdered | quickjs-orgin/libunicode.c:915-923 | decomposing keeps the order of the syllables, compared letter by letter |
| Completeness.MarksAscend | quickjs-orgin/libunicode.c:878-905 | in a decomposed text no mark follows one of a higher class |
| Completeness.PrimaryIsFound | quickjs-orgin/libunicode.c:936-949 | every primary composite of a pair, by the table or by the decomposition of a syllable, is the one that is composed |
| Completeness.CompositionComplete | quickjs-orgin/libunicode.c:951-1021 | composition leaves no character that is not blocked from the last starter before it and has a primary composite with it |
| Completeness.NormalIsComplete | quickjs-orgin/libunicode.c:951-1021 | in a composed text no starter has a primary composite with a later character from which only marks of lower class separate it: definition D117 of the Unicode Standard |
| Utf8.SurrogatesOrdered | quickjs-orgin/cutils.h:506-514 | the split into surrogates keeps the order of the code points |
| Utf8.SurrogatesDenote | quickjs-orgin/cutils.h:516-519 | a pair of surrogates stands for 2^16 plus ten bits of each, the high ones first |
| Utf8.EncodingHasForm | quickjs-orgin/cutils.c:259-283 | an encoding is a lead byte with the right number of trail bytes, and no shorter one would do |
| Utf8.FormEncodes | quickjs-orgin/cutils.c:259-283 | and every sequence of that form is the encoding of a code point |
| Utf8.EncodingsOrdered | quickjs-orgin/cutils.c:259-283 | encodings compare byte by byte as their code points do, which leaves only one such encoding |
| Utf8Buffers.NextCharDenotes | quickjs-orgin/cutils.c:565-568 | the code point read next is that of a pair of surrogates, or the unit itself |
| Utf8Buffers.UnitsOrdered | quickjs-orgin/cutils.c:495-501 | a code point beyond 2^16 becomes a high and a low surrogate, in the order of the code points |

## Left out

Regular expressions:

- Parsing of pattern text, escapes, Annex B fallbacks, property escapes and group names: the model starts from a syntax tree, and compiled programs carry no group names.
- UTF-16 stepping (`cbuf_type` 2), `lre_byte_swap`, the bytecode dump, timeouts, allocation failure and the limit on the bytecode size.
- RegexpProgram.CompiledProgramIsCorrect: assumes that the bytecode is shorter than 2^31 bytes, since jump operands are 32-bit numbers.
- RegexpExec.Exec: the result is 1 or 0; error returns for memory and timeouts are not modelled, and the state stack grows without limit.
- Bytes.U32RoundTrip: byte order is little-endian, as on the hosts the code is built for; the C code copies in host order.

Numbers:

- AtodParse.Atod: texts have at most 10^8 characters; where an int exponent overflows, which C leaves undefined, the result is Unspecified; for radices that are no power of two the digits beyond the table's limit count as zeros, as in the code.
- Reciprocal.Div1Norm: source and destination are the same array, as in the only call.
- DtoaRoundTrip.TextReadsBack: excludes NaN and asks for the flag that prints the sign of zero.
- DtoaFreeFormat.FreeFormat: minimality is not promised for the numbers that Misses describes, because the code does not find the shorter numeral there.
- `js_dtoa_max_len`, the signed integer printers, the statistics and table generators of `dtoa.c`, the limb size of 64 bits, and the fixed capacities of limb arrays: arrays are as large as the contracts ask for.

Character sets and normalisation:

- The generated tables themselves, their compressed decoding (`unicode_get_cc`, `unicode_decomp_char`, `lre_case_folding_entry`) and property lookups by name: they are parameters with hypotheses.
- CharRanges.CharRange.AddPoint: the point list is a sequence; reallocation and its failure are not modelled.
- UnicodeIndex.IsInTable: the runs of a table add up to less than 2^32.
- UnicodeTables.BuildTable: fails where the generator stops at its assertion on the offset of an index entry; of the other tables of `unicode_gen.c` none is modelled.

Sorting and conversion:

- RqSort.RqSort: exchanges whole elements; the choice of an exchange function by element size and alignment is not modelled.
- `utf8_encode_buf8` and `utf8_decode_buf8`, the Latin-1 variants of the buffers modelled, and the string and memory helpers: they would only add easier members.
- Threads, clocks, half floats and everything in the files that call into `quickjs.c`, which is not part of this model.
