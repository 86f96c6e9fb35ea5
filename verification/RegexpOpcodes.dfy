/** The opcodes of the regular expression bytecode, in the order of their declaration, and their sizes in bytes. */
module RegexpOpcodes {
  import opened Bytes

  const CHAR8: byte := 1
  const CHAR16: byte := 2
  const CHAR32: byte := 3
  const DOT: byte := 4
  const ANY: byte := 5
  const LINE_START: byte := 6
  const LINE_END: byte := 7
  const GOTO: byte := 8
  const SPLIT_GOTO_FIRST: byte := 9
  const SPLIT_NEXT_FIRST: byte := 10
  const MATCH: byte := 11
  const SAVE_START: byte := 12
  const SAVE_END: byte := 13
  const SAVE_RESET: byte := 14
  const LOOP: byte := 15
  const PUSH_I32: byte := 16
  const DROP: byte := 17
  const WORD_BOUNDARY: byte := 18
  const NOT_WORD_BOUNDARY: byte := 19
  const BACK_REFERENCE: byte := 20
  const BACKWARD_BACK_REFERENCE: byte := 21
  const RANGE: byte := 22
  const RANGE32: byte := 23
  const LOOKAHEAD: byte := 24
  const NEGATIVE_LOOKAHEAD: byte := 25
  const PUSH_CHAR_POS: byte := 26
  const CHECK_ADVANCE: byte := 27
  const PREV: byte := 28
  const SIMPLE_GREEDY_QUANT: byte := 29

  /** reopcode_info[op].size; the two range opcodes are followed by their intervals. */
  function FixedSize(op: byte): (n: nat)
    ensures 1 <= n <= 17
  {
    if op == CHAR8 || op == SAVE_START || op == SAVE_END || op == BACK_REFERENCE || op == BACKWARD_BACK_REFERENCE then 2
    else if op == CHAR16 || op == SAVE_RESET || op == RANGE || op == RANGE32 then 3
    else if op == CHAR32 || op == GOTO || op == SPLIT_GOTO_FIRST || op == SPLIT_NEXT_FIRST || op == LOOP
            || op == PUSH_I32 || op == LOOKAHEAD || op == NEGATIVE_LOOKAHEAD then 5
    else if op == SIMPLE_GREEDY_QUANT then 17
    else 1
  }
}
