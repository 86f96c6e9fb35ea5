/** What js_atod makes of two texts of which one is a shifted copy of the other, up to the case of letters. */
module AtodCopies {
  import opened Bytes
  import opened AtodDigits
  import opened AtodConvert
  import opened AtodParse
  import opened DtoaBits
  import opened DtoaRoundTrip

  // ----- outcomes -----

  /** js_atod can return res and the position next for this text. */
  ghost predicate Returns(text: seq<byte>, radix: nat, flags: Flags, res: AtodResult, next: nat) {
    exists mid: nat, ds: seq<nat> :: Parsed(text, radix, flags, res, next, mid, ds)
  }

  /** The same outcome up to the sign, the first one k places later. */
  predicate Alike(res1: AtodResult, next1: nat, res2: AtodResult, next2: nat, k: int) {
    && res1.NotANumber? == res2.NotANumber? && res1.Double? == res2.Double?
    && (res1.Double? ==> res1.bits == res2.bits)
    && (!res1.NotANumber? ==> next1 == next2 + k)
  }

  /** The same outcome, the first one k places later. */
  predicate Same(res1: AtodResult, next1: nat, res2: AtodResult, next2: nat, k: int) {
    Alike(res1, next1, res2, next2, k) && res1 == res2
  }

  /** A text and the place where its digits begin have only one reading. */
  lemma Determined(s: Source, begin: nat, mid1: nat, next1: nat, ds1: seq<nat>, res1: AtodResult, mid2: nat,
                   next2: nat, ds2: seq<nat>, res2: AtodResult)
    requires NumberRead(s, begin, mid1, next1, ds1, res1) && NumberRead(s, begin, mid2, next2, ds2, res2)
    ensures Alike(res1, next1, res2, next2, 0)
  {
    hide NumeralEnd, NumberEnd, BadExponent, IntOverflow, ReadsAs, Significant;
    if !res1.NotANumber? {
      OneSignificant(s, begin, mid1, ds1, ds2);
      if res1.Double? {
        OneNumber(s, begin, mid1, next1, ds1, res1.bits, res2.bits);
      }
    }
  }

  lemma OneSignificant(s: Source, begin: nat, mid: nat, ds: seq<nat>, es: seq<nat>)
    requires Significant(s, begin, mid, ds) && Significant(s, begin, mid, es)
    ensures ds == es
  {
    hide DigitsIn;
    var n := |DigitsIn(s.text, begin, mid, s.sep)|;
    if |ds| > 0 {
      SignificantUnique(n - |ds|, ds, n - |es|, es);
    } else if |es| > 0 {
      SignificantUnique(n - |es|, es, n - |ds|, ds);
    }
  }

  lemma OneNumber(s: Source, begin: nat, mid: nat, next: nat, ds: seq<nat>, a: nat, b: nat)
    requires ReadsAs(s, begin, mid, next, ds, a) && ReadsAs(s, begin, mid, next, ds, b)
    ensures a == b
  {
    hide TextValue, FractionDigits, ExponentValue, BinaryExponent, Kept, CorrectBits, ExponentMark, DigitsIn;
    if ds != [] {
      CorrectBitsUnique(TextValue(Kept(ds, s.radix), s.radix, FractionDigits(s, begin, mid),
                                  ExponentValue(s, mid, next), BinaryExponent(s, mid)), a, b);
    }
  }

  // ----- texts that agree up to the case of letters -----

  /** The characters are equal or the two cases of one letter. */
  predicate SameLetter(c: int, d: int) {
    c == d || (97 <= c <= 122 && d == c - 32) || (65 <= c <= 90 && d == c + 32)
  }

  /** From a on in t, and k places later in s, the texts agree up to the case of letters. */
  ghost predicate Follows(s: seq<byte>, t: seq<byte>, k: nat, a: nat) {
    |s| == |t| + k && a <= |t| && forall p :: a <= p < |t| ==> SameLetter(s[p + k], t[p])
  }

  /** So do the two sources, whose places of start are alike as well, or lie before all but the first place. */
  ghost predicate Shifted(s: Source, t: Source, k: nat, a: nat) {
    && SourceOk(s) && SourceOk(t) && s.radix == t.radix && s.sep == t.sep && s.intOnly == t.intOnly
    && Follows(s.text, t.text, k, a)
    && (s.start == t.start + k || (s.start <= a + k && t.start <= a))
  }

  /** The place of start tells the same of both texts at p. */
  predicate Beyond(s: Source, t: Source, k: nat, a: nat, p: nat) {
    a <= p && (s.start == t.start + k || p > a)
  }

  /** What js_atod can see of a character. */
  lemma Seen(s: Source, t: Source, k: nat, a: nat, p: nat)
    requires Shifted(s, t, k, a) && a <= p
    ensures var c, d := CharAt(s.text, p + k), CharAt(t.text, p);
            && ToDigit(c) == ToDigit(d) && (c == DOT <==> d == DOT) && (c == s.sep <==> d == t.sep)
            && (c == 43 <==> d == 43) && (c == 45 <==> d == 45) && (c == 64 <==> d == 64)
            && IsChar(c, 101, 69) == IsChar(d, 101, 69) && IsChar(c, 112, 80) == IsChar(d, 112, 80)
    ensures p + k < |s.text| <==> p < |t.text|
  {
    if p < |t.text| { assert SameLetter(s.text[p + k], t.text[p]); }
  }

  /** The place after the point and the separator that may be read at p. */
  function AfterMarks(s: Source, p: nat): nat {
    var q := if PointAllowed(s, p) then p + 1 else p;
    if SeparatorAt(s, q) then q + 1 else q
  }

  lemma NumeralStep(s: Source, p: nat, seen: bool)
    requires SourceOk(s)
    ensures var point, r := PointAllowed(s, p), AfterMarks(s, p);
            NumeralEnd(s, p, seen) == if point && seen then p
                                      else if ToDigit(CharAt(s.text, r)) < s.radix
                                      then NumeralEnd(s, r + 1, seen || point) else r
  {
  }

  lemma MarksShift(s: Source, t: Source, k: nat, a: nat, p: nat)
    requires Shifted(s, t, k, a) && Beyond(s, t, k, a, p)
    ensures PointAllowed(s, p + k) == PointAllowed(t, p) && AfterMarks(s, p + k) == AfterMarks(t, p) + k
    ensures p <= AfterMarks(t, p)
  {
    hide ToDigit, Follows;
    Seen(s, t, k, a, p);
    Seen(s, t, k, a, p + 1);
    Seen(s, t, k, a, p + 2);
  }

  lemma {:induction false} NumeralShifts(s: Source, t: Source, k: nat, a: nat, p: nat, seen: bool)
    requires Shifted(s, t, k, a) && Beyond(s, t, k, a, p)
    ensures NumeralEnd(s, p + k, seen) == NumeralEnd(t, p, seen) + k
    decreases |t.text| - p
  {
    hide ToDigit, Follows, NumeralEnd, PointAllowed, AfterMarks;
    NumeralStep(s, p + k, seen);
    NumeralStep(t, p, seen);
    MarksShift(s, t, k, a, p);
    var r := AfterMarks(t, p);
    Seen(s, t, k, a, r);
    if ToDigit(CharAt(t.text, r)) < t.radix {
      DigitNext(t, r, seen);
      NumeralShifts(s, t, k, a, r + 1, seen || PointAllowed(t, p));
    }
  }

  lemma {:induction false} DigitsShift(s: Source, t: Source, k: nat, a: nat, b: nat, e: nat)
    requires Shifted(s, t, k, a) && a <= b <= e <= |t.text|
    ensures DigitsIn(s.text, b + k, e + k, s.sep) == DigitsIn(t.text, b, e, t.sep)
    ensures PointIn(s.text, b + k, e + k, s.sep) == PointIn(t.text, b, e, t.sep)
    decreases e
  {
    hide ToDigit, Follows;
    if b < e {
      Seen(s, t, k, a, e - 1);
      DigitsShift(s, t, k, a, b, e - 1);
    }
  }

  /** The place after the separator that may be read at p. */
  function AfterMark(s: Source, p: nat): nat {
    if CharAt(s.text, p) == s.sep && ToDigit(CharAt(s.text, p + 1)) < 10 then p + 1 else p
  }

  lemma NoDigitAtEnd(s: Source, p: nat)
    ensures ToDigit(CharAt(s.text, p)) < 36 ==> p < |s.text|
  {
  }

  lemma ExponentStep(s: Source, p: nat)
    ensures var r := AfterMark(s, p);
            DigitsEnd(s, p) == if ToDigit(CharAt(s.text, r)) < 10 then DigitsEnd(s, r + 1) else r
  {
  }

  lemma {:induction false} ExponentShifts(s: Source, t: Source, k: nat, a: nat, p: nat)
    requires Shifted(s, t, k, a) && a <= p
    ensures DigitsEnd(s, p + k) == DigitsEnd(t, p) + k
    decreases |t.text| - p
  {
    hide ToDigit, Follows, DigitsEnd;
    ExponentStep(s, p + k);
    ExponentStep(t, p);
    Seen(s, t, k, a, p);
    Seen(s, t, k, a, p + 1);
    var r := AfterMark(t, p);
    NoDigitAtEnd(t, r);
    if ToDigit(CharAt(t.text, r)) < 10 {
      ExponentShifts(s, t, k, a, r + 1);
    }
  }

  /** The exponent that begins at mid. */
  lemma MarkShifts(s: Source, t: Source, k: nat, a: nat, mid: nat)
    requires Shifted(s, t, k, a) && Beyond(s, t, k, a, mid)
    ensures ExponentMark(s, mid + k) <==> ExponentMark(t, mid)
    ensures BinaryExponent(s, mid + k) <==> BinaryExponent(t, mid)
    ensures ExponentBegin(s, mid + k) == ExponentBegin(t, mid) + k && mid < ExponentBegin(t, mid)
    ensures CharAt(s.text, mid + 1 + k) == 45 <==> CharAt(t.text, mid + 1) == 45
    ensures BadExponent(s, mid + k) <==> BadExponent(t, mid)
    ensures NumberEnd(s, mid + k) == NumberEnd(t, mid) + k
  {
    hide ToDigit, Follows, DigitsEnd;
    Seen(s, t, k, a, mid);
    Seen(s, t, k, a, mid + 1);
    Seen(s, t, k, a, ExponentBegin(t, mid));
    ExponentShifts(s, t, k, a, ExponentBegin(t, mid));
  }

  lemma ValueShifts(s: Source, t: Source, k: nat, a: nat, mid: nat, next: nat)
    requires Shifted(s, t, k, a) && Beyond(s, t, k, a, mid)
    requires ExponentMark(t, mid) ==> ExponentBegin(t, mid) <= next <= |t.text|
    ensures ExponentMark(s, mid + k) ==> ExponentBegin(s, mid + k) <= next + k <= |s.text|
    ensures ExponentValue(s, mid + k, next + k) == ExponentValue(t, mid, next)
  {
    hide ToDigit, DigitsIn, DigitsValue, ExponentBegin, ExponentMark;
    MarkShifts(s, t, k, a, mid);
    if ExponentMark(t, mid) {
      DigitsShift(s, t, k, a, ExponentBegin(t, mid), next);
    }
  }

  lemma PartsShift(s: Source, t: Source, k: nat, a: nat, begin: nat, mid: nat, next: nat, ds: seq<nat>)
    requires Shifted(s, t, k, a) && a <= begin <= mid && Beyond(s, t, k, a, mid) && Significant(t, begin, mid, ds)
    requires ExponentMark(t, mid) ==> ExponentBegin(t, mid) <= next <= |t.text|
    ensures Significant(s, begin + k, mid + k, ds)
    ensures FractionDigits(s, begin + k, mid + k) == FractionDigits(t, begin, mid)
    ensures IntOverflow(s, begin + k, mid + k, next + k, ds) <==> IntOverflow(t, begin, mid, next, ds)
  {
    hide ToDigit, DigitsIn, PointIn, DigitsValue, ExponentBegin, ExponentMark, ExponentValue, BinaryExponent,
      ExponentFits;
    DigitsShift(s, t, k, a, begin, mid);
    MarkShifts(s, t, k, a, mid);
    ValueShifts(s, t, k, a, mid, next);
  }

  lemma BitsShift(s: Source, t: Source, k: nat, a: nat, begin: nat, mid: nat, next: nat, ds: seq<nat>, bits: nat)
    requires Shifted(s, t, k, a) && a <= begin && Beyond(s, t, k, a, mid) && ReadsAs(t, begin, mid, next, ds, bits)
    ensures ReadsAs(s, begin + k, mid + k, next + k, ds, bits)
  {
    hide DigitsIn, PointIn, ExponentMark, ExponentBegin, ExponentValue, BinaryExponent, FractionDigits, Kept,
      TextValue, CorrectBits, IntOverflow, DigitsBelow, Follows;
    assert begin <= mid;
    MarkShifts(s, t, k, a, mid);
    ValueShifts(s, t, k, a, mid, next);
    PartsShift(s, t, k, a, begin, mid, next, ds);
  }

  // ----- two readings -----

  /** The whole reading moves along, if the digits begin with a digit or the places of start agree. */
  lemma ReadingShifts(s: Source, t: Source, k: nat, begin: nat, mid: nat, next: nat, ds: seq<nat>, res: AtodResult)
    requires Shifted(s, t, k, begin) && NumberRead(t, begin, mid, next, ds, res)
    requires s.start == t.start + k || ToDigit(CharAt(t.text, begin)) < t.radix
    ensures NumberRead(s, begin + k, mid + k, next + k, ds, res)
  {
    hide ToDigit, Follows, NumeralEnd, NumberEnd, BadExponent, ReadsAs, IntOverflow, ExponentMark, BinaryExponent,
      ExponentValue, ExponentBegin, FractionDigits;
    Begins(s, t, k, begin);
    MarkShifts(s, t, k, begin, mid);
    if !res.NotANumber? {
      NextInText(t, mid, next);
      PartsShift(s, t, k, begin, begin, mid, next, ds);
      if res.Double? { BitsShift(s, t, k, begin, begin, mid, next, ds, res.bits); }
    }
  }

  lemma Begins(s: Source, t: Source, k: nat, begin: nat)
    requires Shifted(s, t, k, begin)
    requires s.start == t.start + k || ToDigit(CharAt(t.text, begin)) < t.radix
    ensures NumeralEnd(s, begin + k, false) == NumeralEnd(t, begin, false) + k
    ensures Beyond(s, t, k, begin, NumeralEnd(t, begin, false))
    ensures NumeralEnd(s, begin + k, false) == s.start <==> NumeralEnd(t, begin, false) == t.start
  {
    hide ToDigit, Follows, NumeralEnd;
    if s.start == t.start + k {
      NumeralShifts(s, t, k, begin, begin, false);
    } else {
      Seen(s, t, k, begin, begin);
      DigitNext(s, begin + k, false);
      DigitNext(t, begin, false);
      NumeralShifts(s, t, k, begin, begin + 1, false);
    }
  }

  lemma NextInText(t: Source, mid: nat, next: nat)
    requires mid <= |t.text| && next == NumberEnd(t, mid)
    ensures ExponentMark(t, mid) ==> ExponentBegin(t, mid) <= next <= |t.text|
  {
    if ExponentMark(t, mid) { EndInText(t, ExponentBegin(t, mid)); }
  }

  lemma {:induction false} EndInText(t: Source, p: nat)
    requires p <= |t.text|
    ensures DigitsEnd(t, p) <= |t.text|
    decreases |t.text| - p
  {
    hide ToDigit, DigitsEnd;
    ExponentStep(t, p);
    var r := AfterMark(t, p);
    NoDigitAtEnd(t, p + 1);
    NoDigitAtEnd(t, r);
    if ToDigit(CharAt(t.text, r)) < 10 { EndInText(t, r + 1); }
  }

  /** Two readings of sources that are shifted copies of each other. */
  lemma Copies(s: Source, t: Source, k: nat, begin: nat, mid1: nat, next1: nat, ds1: seq<nat>, res1: AtodResult,
               mid2: nat, next2: nat, ds2: seq<nat>, res2: AtodResult)
    requires Shifted(s, t, k, begin) && (s.start == t.start + k || ToDigit(CharAt(t.text, begin)) < t.radix)
    requires NumberRead(s, begin + k, mid1, next1, ds1, res1) && NumberRead(t, begin, mid2, next2, ds2, res2)
    ensures Alike(res1, next1, res2, next2, k)
  {
    hide NumberRead, Shifted;
    ReadingShifts(s, t, k, begin, mid2, next2, ds2, res2);
    Determined(s, begin + k, mid1, next1, ds1, res1, mid2 + k, next2 + k, ds2, res2);
  }
}
