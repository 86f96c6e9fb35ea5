/**
 * The number that a printed text shows, and when it is shown with an exponent: section 6.1.6.1.20 of ECMA-262 for the
 * radix 10, and the same with other bounds for the other radices and for a fixed number of digits.
 */
module DtoaShown {
  import opened Bytes
  import opened Powers
  import opened Reals
  import opened Rounding
  import opened DtoaTables
  import opened Scaling
  import opened Float64
  import opened DtoaReadBack
  import opened DtoaLogTable
  import opened DtoaShortest
  import opened DtoaSearch
  import opened DtoaFreeFormat
  import opened DtoaFixed
  import opened DtoaBits
  import opened DtoaOutput
  import opened DtoaText
  import opened DtoaPrint
  import opened AtodDigits
  import opened AtodConvert
  import opened AtodParse
  import opened DtoaRoundTrip

  /** The number that the text of a magnitude denotes to js_atod: its digits, its point and its exponent. */
  ghost function Shown(radix: nat, body: seq<byte>): real
    requires 2 <= radix <= RADIX_MAX
  {
    var s := Source(body, 0, radix, NO_SEPARATOR, false);
    var mid := NumeralEnd(s, 0, false);
    if mid <= |body| && (ExponentMark(s, mid) ==> ExponentBegin(s, mid) <= |body|)
    then TextValue(DigitsIn(body, 0, mid, NO_SEPARATOR), radix, FractionDigits(s, 0, mid),
                   ExponentValue(s, mid, |body|), BinaryExponent(s, mid))
    else 0.0
  }

  /** The letter before an exponent: 'e', 'p' where the exponent is one of two, otherwise '@'. */
  function LetterOf(radix: int): byte {
    if radix == 10 then 101 else if radix == 2 || radix == 4 || radix == 8 || radix == 16 then 112 else 64
  }

  lemma LetterIs(radix: int)
    requires 2 <= radix <= RADIX_MAX
    ensures ExponentLetter(radix) == LetterOf(radix)
  {
  }

  // ----- the letter -----

  lemma PlainHasNoLetter(radix: nat, xs: seq<nat>, ys: seq<nat>)
    requires 2 <= radix <= RADIX_MAX && DigitsBelow(xs, radix) && DigitsBelow(ys, radix)
    ensures LetterOf(radix) !in Plain(xs, ys)
  {
    var t := Plain(xs, ys);
    forall i | 0 <= i < |t| ensures t[i] != LetterOf(radix) {
      if i < |xs| {
        assert t[i] == Chars(xs)[i] == DigitChar(xs[i]);
      } else if i > |xs| {
        assert t[i] == Chars(ys)[i - |xs| - 1] == DigitChar(ys[i - |xs| - 1]);
      }
    }
  }

  /** The letter stands in the text exactly when there is an exponent. */
  lemma LetterMarks(radix: nat, body: seq<byte>, ds: seq<nat>, exp: int, xs: seq<nat>, ys: seq<nat>, has: bool, k: int,
                    a: nat, b: nat)
    requires LaidOut(radix, body, ds, exp, xs, ys, has, k, a, b)
    ensures LetterOf(radix) in body <==> has
  {
    hide Plain, ExponentText, Padded;
    PlainHasNoLetter(radix, xs, ys);
    LetterIs(radix);
    LetterStops(radix, k);
    if has { assert body[|Plain(xs, ys)|] == LetterOf(radix); }
  }

  // ----- the number -----

  /** The text shows v * radix^(exp - p). */
  lemma ShownIs(radix: nat, body: seq<byte>, v: nat, p: nat, exp: int, xs: seq<nat>, ys: seq<nat>, has: bool, k: int,
                a: nat, b: nat)
    requires 2 <= radix <= RADIX_MAX && v < Pow(radix, p)
             && LaidOut(radix, body, Digits(v, radix, p), exp, xs, ys, has, k, a, b)
    ensures Shown(radix, body) == Numeral(v, radix, exp - p)
  {
    hide NumeralEnd, DigitsIn, PointIn, ExponentText, DigitsEnd, FractionDigits, ExponentMark, ExponentBegin,
      ExponentValue, BinaryExponent, BadExponent, NumberEnd, WrittenExponent, Digits, DigitsValue, Numeral, TextValue,
      Pow;
    var s := Source(body, 0, radix, NO_SEPARATOR, false);
    assert body[0..] == body;
    var ds := Digits(v, radix, p);
    var mid := BodyRead(s, radix, body, ds, exp, xs, ys, has, k, a, b);
    var all := Padded(a, ds, b);
    PaddedValue(v, radix, p, a, b);
    if has || !(radix != 10 && 1 <= RadixBits(radix) <= 4) {
      PrintedValue(all, v, radix, b, |ys|, k);
    } else {
      NoWritten(radix);
      PlainValue(all, v, radix, b, |ys|);
    }
  }

  lemma PaddedValue(v: nat, radix: nat, p: nat, a: nat, b: nat)
    requires 2 <= radix <= RADIX_MAX && v < Pow(radix, p)
    ensures DigitsValue(Padded(a, Digits(v, radix, p), b), radix) == v * Pow(radix, b)
  {
    hide DigitsValue, Pow, Digits;
    var ds := Digits(v, radix, p) + Leading(b);
    TrailingValue(v, radix, p, b);
    LeadingValue(a, radix);
    DigitsConcat(Leading(a), ds, radix);
    assert Padded(a, Digits(v, radix, p), b) == Leading(a) + ds;
  }

  // ----- its size -----

  /** A numeral of p digits with the point after exp of them. */
  lemma NumeralSize(v: int, radix: nat, p: nat, exp: int)
    requires radix >= 2 && HasDigits(v, radix, p)
    ensures Exp(radix, exp - 1) <= Numeral(v, radix, exp - p) < Exp(radix, exp)
  {
    hide Exp, Pow;
    var low, high := Pow(radix, p - 1), Pow(radix, p);
    NumeralScale(1, radix, p - 1, exp - p);
    NumeralScale(1, radix, p, exp - p);
    ExpPositive(radix, exp - p);
    Grows(low as real, v as real, Exp(radix, exp - p));
    GrowsStrictly(v as real, high as real, Exp(radix, exp - p));
    assert Numeral(1 * low, radix, exp - p) == Numeral(low, radix, exp - p);
    OneNumeral(radix, exp - 1);
    OneNumeral(radix, exp);
  }

  lemma OneNumeral(radix: nat, k: int)
    requires radix >= 1
    ensures Numeral(1, radix, k) == Exp(radix, k)
  {
  }

  /** The exponent compares with a bound as the number does with a power of the radix. */
  lemma SizeTells(v: int, radix: nat, p: nat, exp: int, n: int)
    requires radix >= 2 && HasDigits(v, radix, p)
    ensures exp <= n <==> Numeral(v, radix, exp - p) < Exp(radix, n)
  {
    hide Exp, Pow, Numeral;
    NumeralSize(v, radix, p, exp);
    if exp <= n { ExpMonotone(radix, exp, n); } else { ExpMonotone(radix, n, exp - 1); }
  }

  // ----- the law -----

  /** The digit count from which on the automatic mode writes an exponent: 21 for the radix 10. */
  function Bound(radix: nat, style: Style): int
    requires 2 <= radix <= RADIX_MAX
  {
    if style.format == Fixed then style.nDigits
    else if radix == 10 then 21
    else DTOA_MAX_DIGITS[radix - 2] + 4
  }

  /** Whether a number is written with an exponent, by the mode and its size. */
  ghost predicate Exponential(radix: nat, style: Style, x: real)
    requires 2 <= radix <= RADIX_MAX
  {
    match style.mode
    case Enabled => true
    case Disabled => false
    case Auto => x < Exp(radix, -6) || x >= Exp(radix, Bound(radix, style))
  }

  lemma NumberLetter(v: nat, radix: nat, p: nat, exp: int, style: Style, body: seq<byte>)
    requires 2 <= radix <= RADIX_MAX && HasDigits(v, radix, p)
    requires body == NumberText(v, radix, p, exp, ExpMax(radix, style), style.mode)
    ensures LetterOf(radix) in body <==> Exponential(radix, style, Shown(radix, body))
    ensures Shown(radix, body) == Numeral(v, radix, exp - p)
  {
    hide HasDigits, NumberText, LaidOut, Shown, Digits, Exp, Numeral, LetterOf;
    HasDigitsIs(v, radix, p);
    var xs, ys, has, k, a, b := NumberLayout(v, radix, p, exp, ExpMax(radix, style), style.mode);
    ShownIs(radix, body, v, p, exp, xs, ys, has, k, a, b);
    LetterMarks(radix, body, Digits(v, radix, p), exp, xs, ys, has, k, a, b);
    SizeTells(v, radix, p, exp, -6);
    SizeTells(v, radix, p, exp, Bound(radix, style));
    assert ExpMax(radix, style) == Bound(radix, style);
  }

  /** Integers below 2^53 are never that large. */
  lemma IntegerLetter(m: nat, e: int, radix: nat, style: Style, body: seq<byte>)
    requires 2 <= radix <= RADIX_MAX && IsDouble(m, e) && SmallInteger(m, e) && style.format == Free
             && style.mode != Enabled
    requires body == IntegerText(m / Pow(2, 53 - e), radix)
    ensures LetterOf(radix) in body <==> Exponential(radix, style, Shown(radix, body))
    ensures Shown(radix, body) == DoubleValue(m, e)
  {
    hide IsDouble, HasDigits, LaidOut, Shown, Digits, Exp, Numeral, LetterOf, Pow, DigitCount, IntegerText, DoubleValue;
    SmallIntegerIs(m, e, radix);
    var v: nat := m / Pow(2, 53 - e);
    var p := DigitCount(v, radix);
    HasDigitsIs(v, radix, p);
    IntegerLayout(v, radix);
    var ds := Digits(v, radix, p);
    ShownIs(radix, body, v, p, p, ds + Leading(0), [], false, 0, 0, 0);
    LetterMarks(radix, body, ds, p, ds + Leading(0), [], false, 0, 0, 0);
    SizeTells(v, radix, p, p, -6);
    SizeTells(v, radix, p, p, Bound(radix, style));
  }

  /**
   * When a finite nonzero float64 is printed with an exponent, told by the text alone: in the automatic mode exactly
   * when the number it shows is below radix^-6, or at least 10^21, for other radices radix^(P_max + 4), and for a fixed
   * number of digits the power of the radix with as many digits. With digits after the point it never is.
   */
  lemma ExponentWhen(m: nat, e: int, radix: nat, style: Style, body: seq<byte>)
    requires 2 <= radix <= RADIX_MAX && IsDouble(m, e) && StyleOk(style) && BodyText(m, e, radix, style, body)
    ensures style.format != Frac ==> (LetterOf(radix) in body <==> Exponential(radix, style, Shown(radix, body)))
    ensures style.format == Frac ==> LetterOf(radix) !in body
  {
    hide IsDouble, HasDigits, Shown, Exp, Numeral, LetterOf, Pow, NumberText, IntegerText, DoubleValue, Nearest,
      ShorterOnlyAbove, FewestUnlessMissed, RoundsTo, RoundedAt, FracText;
    match style.format
    case Free =>
      if SmallInteger(m, e) && style.mode != Enabled {
        IntegerLetter(m, e, radix, style, body);
      } else {
        var v: nat, p: nat, exp: int :| Shortest(m, e, radix, v, p, exp)
          && body == NumberText(v, radix, p, exp, ExpMax(radix, style), style.mode);
        NumberLetter(v, radix, p, exp, style, body);
      }
    case Fixed =>
      var v: nat, exp: int :| v == RoundedAt(m, e, radix, style.nDigits - exp)
        && Candidate(DoubleValue(m, e), radix, style.nDigits, exp, v)
        && body == NumberText(v, radix, style.nDigits, exp, ExpMax(radix, style), style.mode);
      NumberLetter(v, radix, style.nDigits, exp, style, body);
    case Frac =>
      var v: nat :| v == RoundedAt(m, e, radix, style.nDigits) && body == FracText(v, radix, style.nDigits);
      FracLetter(v, radix, style.nDigits);
  }

  lemma FracLetter(v: nat, radix: nat, n: nat)
    requires 2 <= radix <= RADIX_MAX
    ensures LetterOf(radix) !in FracText(v, radix, n)
  {
    hide Digits, DigitCount, LetterOf;
    var w := Higher(v, radix, n);
    var xs, ys := Digits(w, radix, DigitCount(w, radix)), Digits(v, radix, n);
    PlainHasNoLetter(radix, xs, ys);
    assert FracText(v, radix, n) == Plain(xs, ys);
  }

  // ----- whole texts -----

  /** The text without its sign. */
  function Unsigned(bits: nat, text: seq<byte>): seq<byte> {
    if bits >= TWO63 && text != [] then text[1..] else text
  }

  /** The law for the text that js_dtoa leaves: of a finite nonzero float64, and of a zero. */
  lemma PrintedExponent(bits: nat, radix: nat, style: Style, text: seq<byte>)
    requires bits < 2 * TWO63 && 2 <= radix <= RADIX_MAX && StyleOk(style) && Printed(bits, radix, style, text)
    ensures Decode(bits % TWO63).Finite? && style.format != Frac ==>
              (LetterOf(radix) in text <==> Exponential(radix, style, Shown(radix, Unsigned(bits, text))))
    ensures Decode(bits % TWO63).Finite? && style.format == Frac ==> LetterOf(radix) !in text
    ensures Decode(bits % TWO63).Zero? && style.format == Free ==> (LetterOf(radix) in text <==> style.mode == Enabled)
  {
    hide Decode, IsDouble, Shown, NumberText, BodyText, LetterOf, Exponential;
    var sign := SignText(bits / TWO63 == 1);
    match Decode(bits % TWO63)
    case Finite(m, e) =>
      DecodedIsDouble(bits % TWO63);
      ExponentWhen(m, e, radix, style, text[|sign|..]);
      assert text == sign + text[|sign|..];
      SignIsNoLetter(radix, sign, text[|sign|..]);
    case Zero =>
      if style.format == Free {
        var body := NumberText(0, radix, 1, 1, ExpMax(radix, style), style.mode);
        ZeroLetter(radix, style);
        SignIsNoLetter(radix, SignText(bits / TWO63 == 1 && style.minusZero), body);
      }
    case _ =>
  }

  lemma SignIsNoLetter(radix: nat, sign: seq<byte>, body: seq<byte>)
    requires sign == [] || sign == [45]
    ensures LetterOf(radix) in sign + body <==> LetterOf(radix) in body
  {
  }

  lemma ZeroLetter(radix: nat, style: Style)
    requires 2 <= radix <= RADIX_MAX && style.format == Free
    ensures LetterOf(radix) in NumberText(0, radix, 1, 1, ExpMax(radix, style), style.mode) <==> style.mode == Enabled
  {
    hide NumberText, LaidOut, Digits;
    var xs, ys, has, k, a, b := NumberLayout(0, radix, 1, 1, ExpMax(radix, style), style.mode);
    LetterMarks(radix, NumberText(0, radix, 1, 1, ExpMax(radix, style), style.mode), Digits(0, radix, 1), 1, xs, ys,
                has, k, a, b);
  }

  /** The radix 10 in the default style: an 'e' exactly below 10^-6 and from 10^21 on. */
  lemma DecimalExponent(bits: nat, minusZero: bool, text: seq<byte>)
    requires bits < 2 * TWO63 && Decode(bits % TWO63).Finite?
    requires Printed(bits, 10, Style(Free, 0, Auto, minusZero), text)
    ensures var x := Shown(10, Unsigned(bits, text)); 101 in text <==> x < Exp(10, -6) || x >= Exp(10, 21)
  {
    hide Decode, Shown, Printed, Exp;
    PrintedExponent(bits, 10, Style(Free, 0, Auto, minusZero), text);
  }

  // ----- the layout of ECMA-262 -----

  function DigitsAsText(ds: seq<nat>): (t: seq<byte>)
    requires forall i :: 0 <= i < |ds| ==> ds[i] < 10
    ensures |t| == |ds|
  {
    seq(|ds|, i requires 0 <= i < |ds| => (48 + ds[i]) as byte)
  }

  /** The steps of section 6.1.6.1.20 that lay out the k digits ds of the number 0.ds * 10^n. */
  function EcmaText(ds: seq<nat>, n: int): seq<byte>
    requires ds != [] && forall i :: 0 <= i < |ds| ==> ds[i] < 10
  {
    var k := |ds|;
    if k <= n <= 21 then DigitsAsText(ds) + seq(n - k, _ => 48)
    else if 0 < n <= 21 then DigitsAsText(ds[..n]) + [46] + DigitsAsText(ds[n..])
    else if -6 < n <= 0 then [48, 46] + seq(-n, _ => 48) + DigitsAsText(ds)
    else
      var w: nat := if n > 0 then n - 1 else 1 - n;
      var exponent := [101, if n > 0 then 43 else 45] + DigitsAsText(Digits(w, 10, DigitCount(w, 10)));
      if k == 1 then DigitsAsText(ds) + exponent
      else DigitsAsText(ds[..1]) + [46] + DigitsAsText(ds[1..]) + exponent
  }

  lemma TextIsChars(ds: seq<nat>)
    requires forall i :: 0 <= i < |ds| ==> ds[i] < 10
    ensures Chars(ds) == DigitsAsText(ds)
  {
  }

  lemma NumberIsEcma(v: nat, p: nat, exp: int)
    requires p >= 1
    ensures NumberText(v, 10, p, exp, 21, Auto) == EcmaText(Digits(v, 10, p), exp)
  {
    hide Digits, DigitCount, Dotted, Chars, DigitsAsText;
    var ds := Digits(v, 10, p);
    TextIsChars(ds);
    if exp <= -6 || exp > 21 {
      PointAt(ds, 1);
      var w := Magnitude(WrittenExponent(10, exp - 1));
      TextIsChars(Digits(w, 10, DigitCount(w, 10)));
      if p == 1 { WholeText(ds); }
    } else if exp > 0 && exp < p {
      PointAt(ds, exp);
      assert ZeroText(0) == [];
    } else if exp > 0 {
      WholeText(ds);
      assert ZeroText(exp - p) == seq(exp - p, _ => 48);
    } else {
      assert ZeroText(-exp) == seq(-exp, _ => 48);
    }
  }

  lemma PointAt(ds: seq<nat>, dot: nat)
    requires 1 <= dot <= |ds| && forall i :: 0 <= i < |ds| ==> ds[i] < 10
    ensures dot < |ds| ==> Dotted(Chars(ds), dot) == DigitsAsText(ds[..dot]) + [46] + DigitsAsText(ds[dot..])
  {
    hide Dotted;
    DottedPlain(ds, dot);
    TextIsChars(ds[..dot]);
    TextIsChars(ds[dot..]);
    if dot < |ds| {
      assert Chars(ds[..dot]) + ([DOT] + Chars(ds[dot..])) == Chars(ds[..dot]) + [46] + Chars(ds[dot..]);
    }
  }

  lemma WholeText(ds: seq<nat>)
    requires ds != [] && forall i :: 0 <= i < |ds| ==> ds[i] < 10
    ensures Dotted(Chars(ds), |ds|) == DigitsAsText(ds)
  {
    TextIsChars(ds);
  }

  /** The digits ds with the point before the first of them are those of a number that reads back as the float64. */
  ghost predicate EcmaDigits(m: nat, e: int, ds: seq<nat>, n: int) {
    && ds != [] && ds[0] != 0 && ds[|ds| - 1] != 0 && (forall i :: 0 <= i < |ds| ==> ds[i] < 10)
    && RoundsTo(Numeral(DigitsValue(ds, 10), 10, n - |ds|), NearestEven, m, e)
  }

  /** Number::toString: what js_dtoa prints in the radix 10 is laid out as the standard has it. */
  lemma PrintsEcma(m: nat, e: int, body: seq<byte>)
    requires IsDouble(m, e) && FreeText(m, e, 10, Auto, 21, body)
    ensures exists ds: seq<nat>, n: int :: EcmaDigits(m, e, ds, n) && body == EcmaText(ds, n)
  {
    hide IsDouble, HasDigits, EcmaText, NumberText, IntegerText, Pow, DoubleValue, Nearest, ShorterOnlyAbove,
      FewestUnlessMissed, RoundsTo, Digits, DigitCount, DigitsValue, Numeral;
    if SmallInteger(m, e) {
      IntegerIsEcma(m, e);
    } else {
      var v: nat, p: nat, exp: int :| Shortest(m, e, 10, v, p, exp) && body == NumberText(v, 10, p, exp, 21, Auto);
      NumberIsEcma(v, p, exp);
      ShortestDigits(v, p);
      assert EcmaDigits(m, e, Digits(v, 10, p), exp);
    }
  }

  lemma ShortestDigits(v: nat, p: nat)
    requires HasDigits(v, 10, p) && v % 10 != 0
    ensures var ds := Digits(v, 10, p);
            ds[0] != 0 && ds[p - 1] == v % 10 && DigitsValue(ds, 10) == v
  {
    hide DigitsValue, Pow;
    HasDigitsIs(v, 10, p);
    TopDigit(v, 10, p);
    DigitsHaveValue(v, 10, p);
    SmallDivision(v, Pow(10, p));
  }

  /** An integer without its trailing zeros. */
  lemma {:induction false} StripZeros(v: nat) returns (w: nat, z: nat)
    requires v > 0
    ensures w > 0 && w % 10 != 0 && v == w * Pow(10, z) && IntegerText(v, 10) == IntegerText(w, 10) + seq(z, _ => 48)
    decreases v
  {
    hide Pow;
    if v % 10 != 0 {
      w, z := v, 0;
      PowZeroOne(10);
      assert IntegerText(w, 10) + seq(0, _ => 48) == IntegerText(w, 10);
    } else {
      w, z := StripZeros(v / 10);
      PowZeroOne(10);
      PowAdd(10, z, 1);
      MulAssociates(w, Pow(10, z), 10);
      TenTimes(v / 10);
      z := z + 1;
      assert IntegerText(w, 10) + seq(z - 1, _ => 48) + [48] == IntegerText(w, 10) + seq(z, _ => 48);
    }
  }

  lemma TenTimes(v: nat)
    requires v > 0
    ensures IntegerText(10 * v, 10) == IntegerText(v, 10) + [48]
  {
    hide Chars;
    var n := DigitCount(v, 10);
    CountNext(10 * v, 10);
    assert DigitCount(10 * v, 10) == n + 1 && 10 * v / 10 == v && 10 * v % 10 == 0;
    assert Digits(10 * v, 10, n + 1) == Digits(v, 10, n) + [0];
    TextIsChars(Digits(v, 10, n));
    TextIsChars(Digits(v, 10, n) + [0]);
  }

  lemma IntegerIsEcma(m: nat, e: int)
    requires IsDouble(m, e) && SmallInteger(m, e)
    ensures exists ds: seq<nat>, n: int ::
              EcmaDigits(m, e, ds, n) && IntegerText(m / Pow(2, 53 - e), 10) == EcmaText(ds, n)
  {
    hide IsDouble, HasDigits, EcmaText, IntegerText, Pow, DoubleValue, RoundsTo, Digits, DigitCount, DigitsValue,
      Numeral;
    SmallIntegerIs(m, e, 10);
    var v: nat := m / Pow(2, 53 - e);
    HasDigitsIs(v, 10, DigitCount(v, 10));
    var w, z := StripZeros(v);
    var p := DigitCount(w, 10);
    CountBounds(w, 10);
    assert HasDigits(w, 10, p) by { CountHas(w); }
    ShortestDigits(w, p);
    var ds := Digits(w, 10, p);
    DoubleIsNormalised(m, e);
    DoubleReadsItself(m, e);
    NumeralScale(w, 10, z, 0);
    SmallWidth(v, w, z);
    IntegerLaidOut(w, z);
    assert EcmaDigits(m, e, ds, p + z);
  }

  lemma CountHas(w: nat)
    requires w > 0
    ensures HasDigits(w, 10, DigitCount(w, 10))
  {
    hide Pow, DigitCount;
    CountBounds(w, 10);
    CountNext(w, 10);
  }

  /** Integers of the shortcut have at most 17 digits. */
  lemma SmallWidth(v: nat, w: nat, z: nat)
    requires w > 0 && v == w * Pow(10, z) && DigitCount(v, 10) <= DTOA_MAX_DIGITS[8]
             && IntegerText(v, 10) == IntegerText(w, 10) + seq(z, _ => 48)
    ensures DigitCount(w, 10) + z <= 21
  {
    hide DigitCount, Pow;
  }

  lemma IntegerLaidOut(w: nat, z: nat)
    requires DigitCount(w, 10) + z <= 21
    ensures EcmaText(Digits(w, 10, DigitCount(w, 10)), DigitCount(w, 10) + z) == IntegerText(w, 10) + seq(z, _ => 48)
  {
    hide Digits, DigitCount, DigitsAsText, Chars;
    TextIsChars(Digits(w, 10, DigitCount(w, 10)));
  }

  /** The same for whole texts: what js_dtoa leaves for every float64 in the radix 10 and the default style. */
  lemma NumberToString(bits: nat, minusZero: bool, text: seq<byte>)
    requires bits < 2 * TWO63 && Printed(bits, 10, Style(Free, 0, Auto, minusZero), text)
    ensures Decode(bits % TWO63).NaN? ==> text == [78, 97, 78]
    ensures Decode(bits % TWO63).Infinite? ==>
              text == (if bits >= TWO63 then [45] else []) + [73, 110, 102, 105, 110, 105, 116, 121]
    ensures Decode(bits % TWO63).Zero? ==> text == (if bits >= TWO63 && minusZero then [45] else []) + [48]
    ensures Decode(bits % TWO63).Finite? ==>
              var m, e := Decode(bits % TWO63).m, Decode(bits % TWO63).e;
              exists ds: seq<nat>, n: int ::
                EcmaDigits(m, e, ds, n) && text == (if bits >= TWO63 then [45] else []) + EcmaText(ds, n)
  {
    hide Decode, IsDouble, NumberText, FreeText, EcmaText, RoundsTo, Numeral, DigitsValue;
    var sign := SignText(bits / TWO63 == 1);
    match Decode(bits % TWO63)
    case Finite(m, e) =>
      DecodedIsDouble(bits % TWO63);
      PrintsEcma(m, e, text[|sign|..]);
      var ds: seq<nat>, n: int :| EcmaDigits(m, e, ds, n) && text[|sign|..] == EcmaText(ds, n);
      assert text == sign + EcmaText(ds, n);
    case Zero =>
      NumberIsEcma(0, 1, 1);
      ZeroIsEcma();
    case _ =>
  }

  lemma ZeroIsEcma()
    ensures EcmaText(Digits(0, 10, 1), 1) == [48]
  {
    DtoaRoundTrip.OneDigit(0, 10);
    assert DigitsAsText([0]) == [48];
  }

  // ----- zero -----

  lemma {:induction false} ZeroCharacters(radix: nat, n: nat)
    requires 2 <= radix <= RADIX_MAX
    ensures DigitText(0, radix, n) == seq(n, _ => 48)
  {
    if n > 0 {
      DigitTextSplit(0, radix, n - 1, 1);
      ZeroCharacters(radix, n - 1);
      OneDigitText(0, radix);
      assert seq(n, _ => 48 as byte) == seq(n - 1, _ => 48 as byte) + [48];
    } else {
      NoDigitText(0, radix);
    }
  }

  /** Zero in every format and radix: as many zeros behind the point as the format asks for. */
  lemma ZeroPrinted(bits: nat, radix: nat, style: Style, text: seq<byte>)
    requires 2 <= radix <= RADIX_MAX && StyleOk(style) && style.mode != Enabled && bits < 2 * TWO63
    requires Decode(bits % TWO63).Zero? && Printed(bits, radix, style, text)
    ensures var n := if style.format == Frac then style.nDigits
                     else if style.format == Fixed then style.nDigits - 1 else 0;
            text == (if bits >= TWO63 && style.minusZero then [45] else []) + [48]
                    + if n == 0 then [] else [46] + seq(n, _ => 48)
  {
    hide Decode, DigitText, BodyText, Pow;
    var p := DtoaPrint.ZeroDigits(style);
    ZeroCharacters(radix, p);
    var digits := DigitText(0, radix, p);
    MaxDigits(radix);
    assert Dotted(digits, 1) == if p == 1 then [48] else [48, 46] + seq(p - 1, _ => 48);
    assert Dotted(digits, 1) + ZeroText(0) == Dotted(digits, 1);
  }
}
