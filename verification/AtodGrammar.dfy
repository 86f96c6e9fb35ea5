/** The grammar of the numerals that js_atod reads: each is the longest that begins at its place. */
module AtodGrammar {
  import opened AtodDigits
  import opened AtodParse
  import opened AtodCopies
  import opened AtodPrefix

  ghost predicate NoPoint(s: Source, a: nat, p: nat) {
    forall i :: a <= i < p ==> CharAt(s.text, i) != 46
  }

  /**
   * The character at p continues a numeral that began at a: a digit; the first point, if it does not open the text
   * without a digit behind it; or a separator behind something and in front of a digit.
   */
  ghost predicate Continues(s: Source, a: nat, p: nat) {
    var c, d := CharAt(s.text, p), IsDigit(CharAt(s.text, p + 1), s.radix);
    || IsDigit(c, s.radix)
    || (c == 46 && !s.intOnly && (p > s.start || d) && NoPoint(s, a, p))
    || (c == s.sep && p > s.start && d)
  }

  /** The text from a to e is a numeral, and no longer one is. */
  ghost predicate Longest(s: Source, a: nat, e: nat) {
    a <= e && (forall p :: a <= p < e ==> Continues(s, a, p)) && !Continues(s, a, e)
  }

  lemma Next(s: Source, a: nat, p: nat)
    requires SourceOk(s) && a <= p
    ensures PointAllowed(s, p) && NoPoint(s, a, p) ==> Continues(s, a, p)
    ensures SeparatorAt(s, p) ==> Continues(s, a, p)
    ensures ToDigit(CharAt(s.text, p)) < s.radix <==> IsDigit(CharAt(s.text, p), s.radix)
    ensures !Continues(s, a, p) <==> ToDigit(CharAt(s.text, p)) >= s.radix && !SeparatorAt(s, p)
                                     && !(PointAllowed(s, p) && NoPoint(s, a, p))
  {
    DigitIs(CharAt(s.text, p), s.radix);
    DigitIs(CharAt(s.text, p + 1), s.radix);
  }

  lemma {:induction false} ScanIsLongest(s: Source, a: nat, p: nat, seen: bool)
    requires SourceOk(s) && a <= p && (forall q :: a <= q < p ==> Continues(s, a, q)) && seen == !NoPoint(s, a, p)
    ensures Longest(s, a, NumeralEnd(s, p, seen))
    decreases |s.text| - p
  {
    hide ToDigit, NumeralEnd, PointAllowed, SeparatorAt, Continues;
    var point := PointAllowed(s, p);
    var q := if point then p + 1 else p;
    var r := AfterMarks(s, p);
    NumeralStep(s, p, seen);
    Next(s, a, p);
    Next(s, a, q);
    Next(s, a, r);
    Marks(s, a, p, seen);
    if !(point && seen) && ToDigit(CharAt(s.text, r)) < s.radix {
      DigitNext(s, r, seen);
      ScanIsLongest(s, a, r + 1, seen || point);
    }
  }

  lemma Marks(s: Source, a: nat, p: nat, seen: bool)
    requires SourceOk(s) && a <= p && seen == !NoPoint(s, a, p)
    ensures var point, r := PointAllowed(s, p), AfterMarks(s, p);
            && (point && seen ==> !Continues(s, a, p))
            && (!(point && seen)
                ==> && p <= r && (seen || point) == !NoPoint(s, a, r)
                    && (ToDigit(CharAt(s.text, r)) < s.radix ==> (seen || point) == !NoPoint(s, a, r + 1))
                    && (ToDigit(CharAt(s.text, r)) >= s.radix ==> !Continues(s, a, r))
                    && forall i :: p <= i < r ==> Continues(s, a, i))
  {
  }

  /** The digits that js_atod reads are the longest numeral that begins at a. */
  lemma LongestNumeral(s: Source, a: nat, e: nat)
    requires SourceOk(s)
    ensures NumeralEnd(s, a, false) == e <==> Longest(s, a, e)
  {
    hide NumeralEnd, Continues;
    ScanIsLongest(s, a, a, false);
  }

  // ----- exponents -----

  /** The character at p continues the digits of an exponent: a decimal digit, or a separator in front of one. */
  ghost predicate ContinuesExponent(s: Source, p: nat) {
    IsDigit(CharAt(s.text, p), 10) || (CharAt(s.text, p) == s.sep && IsDigit(CharAt(s.text, p + 1), 10))
  }

  ghost predicate LongestExponent(s: Source, a: nat, e: nat) {
    a <= e && (forall p :: a <= p < e ==> ContinuesExponent(s, p)) && !ContinuesExponent(s, e)
  }

  lemma {:induction false} ExponentScan(s: Source, p: nat)
    ensures LongestExponent(s, p, DigitsEnd(s, p))
    decreases |s.text| - p
  {
    hide ToDigit, DigitsEnd;
    ExponentStep(s, p);
    var r := AfterMark(s, p);
    DigitIs(CharAt(s.text, p), 10);
    DigitIs(CharAt(s.text, p + 1), 10);
    DigitIs(CharAt(s.text, r + 1), 10);
    NoDigitAtEnd(s, p);
    NoDigitAtEnd(s, p + 1);
    if ToDigit(CharAt(s.text, r)) < 10 { ExponentScan(s, r + 1); }
  }

  /** The digits of an exponent that begin at a: the longest run. */
  lemma LongestDigits(s: Source, a: nat, e: nat)
    ensures DigitsEnd(s, a) == e <==> LongestExponent(s, a, e)
  {
    hide DigitsEnd, ContinuesExponent;
    ExponentScan(s, a);
  }

  /**
   * What begins an exponent behind the digits: e in radix 10, @ in every other one, and p, for an exponent of two, in
   * radix 2, 4, 8 and 16. In radix 32 p is a digit, and in the radices that are not powers of two it is not accepted.
   */
  lemma ExponentLetters(s: Source, p: nat)
    requires SourceOk(s)
    ensures var c := CharAt(s.text, p);
            ExponentMark(s, p)
            <==> && !s.intOnly && p > s.start
                 && if s.radix == 10 then c in [101, 69]
                    else c == 64 || (s.radix in [2, 4, 8, 16] && c in [112, 80])
  {
  }
}
