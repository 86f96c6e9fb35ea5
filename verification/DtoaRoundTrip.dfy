/** Printing and parsing as texts: what js_dtoa writes in the free format, js_atod reads back as the same bits. */
module DtoaRoundTrip {
  import opened Bytes
  import opened Powers
  import opened Limbs
  import opened Reals
  import opened Rounding
  import opened Bignum
  import opened DtoaTables
  import opened Scaling
  import opened Float64
  import opened DtoaNearest
  import opened DtoaReadBack
  import opened DtoaLogTable
  import opened DtoaShortest
  import opened DtoaSearch
  import opened DtoaFreeFormat
  import opened DtoaBits
  import opened DtoaOutput
  import opened DtoaText
  import opened DtoaPrint
  import opened AtodDigits
  import opened AtodConvert
  import opened AtodParse

  // ----- runs of digits -----

  /** The digits ds are written from a on. */
  ghost predicate DigitsAt(s: Source, a: nat, ds: seq<nat>) {
    && a + |ds| <= |s.text|
    && forall i :: 0 <= i < |ds| ==> ds[i] < s.radix && ds[i] < 36 && s.text[a + i] == DigitChar(ds[i])
  }

  lemma {:induction false} RunRead(s: Source, begin: nat, a: nat, ds: seq<nat>, seen: bool)
    requires SourceOk(s) && begin <= a && DigitsAt(s, a, ds)
    ensures NumeralEnd(s, a, seen) == NumeralEnd(s, a + |ds|, seen)
    ensures DigitsIn(s.text, begin, a + |ds|, s.sep) == DigitsIn(s.text, begin, a, s.sep) + ds
    ensures PointIn(s.text, begin, a + |ds|, s.sep) == PointIn(s.text, begin, a, s.sep)
    decreases |ds|
  {
    hide NumeralEnd, DigitsIn, PointIn;
    if ds == [] {
      assert DigitsIn(s.text, begin, a, s.sep) + ds == DigitsIn(s.text, begin, a, s.sep);
    } else {
      var n := |ds| - 1;
      var init, last := ds[..n], ds[n];
      RunRead(s, begin, a, init, seen);
      assert s.text[a + n] == DigitChar(ds[n]) && CharAt(s.text, a + n) == DigitChar(last);
      DigitNext(s, a + n, seen);
      ReadDigit(s, begin, a + n);
      assert ds == init + [last];
    }
  }

  /** A numeral with the integer digits xs and the fraction digits ys, and a suffix that does not belong to it. */
  function Plain(xs: seq<nat>, ys: seq<nat>): seq<byte>
    requires (forall i :: 0 <= i < |xs| ==> xs[i] < 36) && forall i :: 0 <= i < |ys| ==> ys[i] < 36
  {
    Chars(xs) + if ys == [] then [] else [DOT] + Chars(ys)
  }

  ghost predicate Stops(s: Source, suffix: seq<byte>) {
    suffix != [] ==> ToDigit(suffix[0]) >= s.radix && suffix[0] != DOT && suffix[0] != s.sep
  }

  ghost predicate Laid(s: Source, start: nat, xs: seq<nat>, ys: seq<nat>, suffix: seq<byte>) {
    && start <= |s.text| && xs != [] && DigitsBelow(xs, s.radix) && DigitsBelow(ys, s.radix)
    && (forall i :: 0 <= i < |xs| ==> xs[i] < 36) && (forall i :: 0 <= i < |ys| ==> ys[i] < 36)
    && s.text[start..] == Plain(xs, ys) + suffix
    && Stops(s, suffix)
  }

  /** Where the parts lie. */
  lemma Parts(s: Source, start: nat, xs: seq<nat>, ys: seq<nat>, suffix: seq<byte>)
    requires SourceOk(s) && Laid(s, start, xs, ys, suffix)
    ensures var mid := start + |Plain(xs, ys)|;
            && mid <= |s.text| && s.text[mid..] == suffix && DigitsAt(s, start, xs)
            && |Plain(xs, ys)| == |xs| + (if ys == [] then 0 else 1 + |ys|)
            && (ys != [] ==> CharAt(s.text, start + |xs|) == DOT && DigitsAt(s, start + |xs| + 1, ys))
            && (suffix == [] ==> mid == |s.text|) && (suffix != [] ==> CharAt(s.text, mid) == suffix[0])
  {
    var t := s.text[start..];
    var p := Plain(xs, ys);
    assert s.text[start + |p|..] == t[|p|..] == suffix;
    forall i | 0 <= i < |xs| ensures s.text[start + i] == DigitChar(xs[i]) { assert t[i] == Chars(xs)[i]; }
    if ys != [] {
      assert t[|xs|] == DOT;
      forall i | 0 <= i < |ys| ensures s.text[start + |xs| + 1 + i]
        == DigitChar(ys[i]) { assert t[|xs| + 1 + i] == Chars(ys)[i]; }
    }
    if suffix != [] { assert s.text[start + |p|..][0] == suffix[0]; }
  }

  /** The scan reads exactly the numeral. */
  lemma NumeralRead(s: Source, start: nat, xs: seq<nat>, ys: seq<nat>, suffix: seq<byte>)
    requires SourceOk(s) && Laid(s, start, xs, ys, suffix) && s.start == start && !s.intOnly
    ensures var mid := start + |Plain(xs, ys)|;
            && start < mid <= |s.text| && NumeralEnd(s, start, false) == mid
            && DigitsIn(s.text, start, mid, s.sep) == xs + ys
            && FractionDigits(s, start, mid) == |ys|
  {
    hide NumeralEnd, DigitsIn, PointIn, Laid, DigitsAt;
    Parts(s, start, xs, ys, suffix);
    LaidSuffix(s, start, xs, ys, suffix);
    NoText(s, start);
    RunRead(s, start, start, xs, false);
    assert [] + xs == xs;
    var dot := start + |xs|;
    var mid := start + |Plain(xs, ys)|;
    if ys == [] {
      NumeralStops(s, mid, false);
      assert xs + ys == xs;
    } else {
      PointNext(s, dot);
      ReadMark(s, start, dot);
      RunRead(s, start, dot + 1, ys, true);
      NumeralStops(s, mid, true);
    }
  }

  lemma LaidSuffix(s: Source, start: nat, xs: seq<nat>, ys: seq<nat>, suffix: seq<byte>)
    requires SourceOk(s) && Laid(s, start, xs, ys, suffix)
    ensures var mid := start + |Plain(xs, ys)|;
            ToDigit(CharAt(s.text, mid)) >= s.radix && CharAt(s.text, mid) != DOT && CharAt(s.text, mid) != s.sep
    ensures xs != []
  {
    Parts(s, start, xs, ys, suffix);
  }

  lemma NoText(s: Source, start: nat)
    requires start <= |s.text|
    ensures DigitsIn(s.text, start, start, s.sep) == [] && PointIn(s.text, start, start, s.sep) == -1
  {
  }

  // ----- the exponent -----

  lemma LetterStops(radix: nat, k: int)
    requires 2 <= radix <= RADIX_MAX
    ensures var t := ExponentText(radix, k);
            && |t| == 2 + DigitCount(Magnitude(WrittenExponent(radix, k)), 10) && t[0] == ExponentLetter(radix)
            && ToDigit(t[0]) >= radix && t[0] != DOT && t[0] != UNDERSCORE && t[0] != 120 && t[0] != 88
            && t[1] == (if WrittenExponent(radix, k) < 0 then 45 else 43)
            && t[2..] == IntegerText(Magnitude(WrittenExponent(radix, k)), 10)
  {
    hide IntegerText, DigitCount;
  }

  /** A decimal run is read to its end. */
  lemma {:induction false} DecimalRun(s: Source, begin: nat, a: nat, ds: seq<nat>)
    requires SourceOk(s) && begin <= a && a + |ds| <= |s.text|
    requires forall i :: 0 <= i < |ds| ==> ds[i] < 10 && s.text[a + i] == DigitChar(ds[i])
    ensures DigitsEnd(s, a) == DigitsEnd(s, a + |ds|)
    ensures DigitsIn(s.text, begin, a + |ds|, s.sep) == DigitsIn(s.text, begin, a, s.sep) + ds
    decreases |ds|
  {
    hide DigitsEnd, DigitsIn;
    if ds == [] {
      assert DigitsIn(s.text, begin, a, s.sep) + ds == DigitsIn(s.text, begin, a, s.sep);
    } else {
      var n := |ds| - 1;
      var init, last := ds[..n], ds[n];
      DecimalRun(s, begin, a, init);
      assert s.text[a + n] == DigitChar(ds[n]) && CharAt(s.text, a + n) == DigitChar(last);
      DigitsEndNext(s, a + n);
      DecimalDigit(s, begin, a + n);
      assert ds == init + [last];
    }
  }

  lemma DecimalDigit(s: Source, begin: nat, p: nat)
    requires SourceOk(s) && begin <= p < |s.text| && ToDigit(CharAt(s.text, p)) < 10
    ensures DigitsIn(s.text, begin, p + 1, s.sep) == DigitsIn(s.text, begin, p, s.sep) + [ToDigit(CharAt(s.text, p))]
  {
  }

  /** The exponent is read back: its end, its value and its kind. */
  lemma ExponentReadBack(s: Source, mid: nat, k: int)
    requires SourceOk(s) && !s.intOnly && s.start < mid <= |s.text| && s.text[mid..] == ExponentText(s.radix, k)
    ensures ExponentMark(s, mid) && ExponentBegin(s, mid) <= |s.text| && NumberEnd(s, mid) == |s.text|
            && !BadExponent(s, mid)
    ensures ExponentValue(s, mid, |s.text|) == WrittenExponent(s.radix, k)
    ensures BinaryExponent(s, mid) <==> s.radix != 10 && 1 <= RadixBits(s.radix) <= 4
  {
    hide IntegerText, DigitCount, DigitsEnd, DigitsIn, DigitsValue, Digits;
    var w := WrittenExponent(s.radix, k);
    var v := Magnitude(w);
    LetterStops(s.radix, k);
    var tail := s.text[mid..];
    assert s.text[mid] == tail[0] && s.text[mid + 1] == tail[1];
    var a := mid + 2;
    assert s.text[a..] == tail[2..];
    ExponentDigits(s, a, v);
    MarkIs(s, mid);
  }

  lemma MarkIs(s: Source, mid: nat)
    requires SourceOk(s) && !s.intOnly && s.start < mid && mid + 1 < |s.text| && s.text[mid] == ExponentLetter(s.radix)
    requires s.text[mid + 1] == 43 || s.text[mid + 1] == 45
    ensures ExponentMark(s, mid) && ExponentBegin(s, mid) == mid + 2
    ensures BinaryExponent(s, mid) <==> s.radix != 10 && 1 <= RadixBits(s.radix) <= 4
  {
  }

  lemma ExponentDigits(s: Source, a: nat, v: nat)
    requires SourceOk(s) && a <= |s.text| && s.text[a..] == IntegerText(v, 10)
    ensures DigitsEnd(s, a) == |s.text| && ToDigit(CharAt(s.text, a)) < 10
    ensures DigitsValue(DigitsIn(s.text, a, |s.text|, s.sep), 10) == v
  {
    hide DigitsEnd, DigitsIn, DigitsValue, DigitCount, Digits;
    var ds := Digits(v, 10, DigitCount(v, 10));
    IntegerDigitsValue(v, 10);
    IntegerAt(s.text, a, v);
    assert CharAt(s.text, a) == DigitChar(ds[0]);
    DecimalRun(s, a, a, ds);
    DigitsEndNext(s, |s.text|);
    NothingIn(s, a);
    assert [] + ds == ds;
  }

  lemma IntegerAt(text: seq<byte>, a: nat, v: nat)
    requires a <= |text| && text[a..] == IntegerText(v, 10)
    ensures var ds := Digits(v, 10, DigitCount(v, 10));
            a + |ds| == |text| && forall i :: 0 <= i < |ds| ==> ds[i] < 10 && text[a + i] == DigitChar(ds[i])
  {
    hide DigitCount, Digits;
    var ds := Digits(v, 10, DigitCount(v, 10));
    var tail := text[a..];
    forall i | 0 <= i < |ds| ensures ds[i] < 10 && text[a + i] == DigitChar(ds[i]) { assert tail[i] == Chars(ds)[i]; }
  }

  /** An integer has the value of its digits. */
  lemma IntegerDigitsValue(v: nat, radix: nat)
    requires 2 <= radix <= RADIX_MAX
    ensures var ds := Digits(v, radix, DigitCount(v, radix)); DigitsBelow(ds, radix) && DigitsValue(ds, radix) == v
  {
    hide DigitsValue, DigitCount, Pow, Digits;
    DigitsHaveValue(v, radix, DigitCount(v, radix));
    CountBounds(v, radix);
    SmallDivision(v, Pow(radix, DigitCount(v, radix)));
  }

  lemma NothingIn(s: Source, a: nat)
    requires a <= |s.text|
    ensures DigitsIn(s.text, a, a, s.sep) == []
  {
  }

  lemma NoExponent(s: Source)
    ensures !ExponentMark(s, |s.text|) && NumberEnd(s, |s.text|) == |s.text| && !BadExponent(s, |s.text|)
    ensures ExponentValue(s, |s.text|, |s.text|) == 0 && !BinaryExponent(s, |s.text|)
  {
  }

  // ----- the digits of a printed number -----

  /** The digits ds between a zeros and b zeros. */
  function Padded(a: nat, ds: seq<nat>, b: nat): seq<nat> {
    Leading(a) + ds + Leading(b)
  }

  /**
   * The text is a numeral with the integer digits xs and the fraction digits ys, and the exponent k, if it has one. Its
   * digits are ds, padded with zeros, and with the exponent they have the weights of p digits with the point after exp
   * of them.
   */
  ghost predicate LaidOut(radix: nat, text: seq<byte>, ds: seq<nat>, exp: int, xs: seq<nat>, ys: seq<nat>, has: bool,
                          k: int, a: nat, b: nat) {
    && 2 <= radix <= RADIX_MAX && xs != [] && DigitsBelow(xs, radix) && DigitsBelow(ys, radix)
    && text == Plain(xs, ys) + (if has then ExponentText(radix, k) else [])
    && xs + ys == Padded(a, ds, b) && b - |ys| + k == exp - |ds|
    && k == (if has then exp - 1 else 0)
  }

  /** The text of a number denotes v * radix^(exp - p). */
  lemma NumberLayout(v: nat, radix: nat, p: nat, exp: int, expMax: int, mode: ExpMode)
      returns (xs: seq<nat>, ys: seq<nat>, has: bool, k: int, a: nat, b: nat)
    requires 2 <= radix <= RADIX_MAX && p >= 1
    ensures LaidOut(radix, NumberText(v, radix, p, exp, expMax, mode), Digits(v, radix, p), exp, xs, ys, has, k, a, b)
    ensures has == UsesExponent(exp, expMax, mode) && (has ==> |xs| == 1)
  {
    hide Digits, ExponentText, LaidOut, Dotted, ZeroText;
    var ds := Digits(v, radix, p);
    a, b, k, has := 0, 0, 0, false;
    if UsesExponent(exp, expMax, mode) {
      xs, ys, has, k := ds[..1], ds[1..], true, exp - 1;
      ExponentLayout(radix, ds, exp);
    } else if exp <= 0 {
      xs, ys, a := [0], Leading(0 - exp) + ds, 1 - exp;
      FractionLayout(radix, ds, exp);
    } else if p <= exp {
      b := exp - p;
      xs, ys := ds + Leading(b), [];
      WholeLayout(radix, ds, exp);
    } else {
      xs, ys := ds[..exp], ds[exp..];
      DottedLayout(radix, ds, exp);
      assert Dotted(Chars(ds), exp) + ZeroText(0) == Dotted(Chars(ds), exp);
    }
  }

  lemma ExponentLayout(radix: nat, ds: seq<nat>, exp: int)
    requires 2 <= radix <= RADIX_MAX && ds != [] && forall i :: 0 <= i < |ds| ==> ds[i] < radix
    ensures LaidOut(radix, Dotted(Chars(ds), 1) + ExponentText(radix, exp - 1), ds, exp, ds[..1], ds[1..], true,
                    exp - 1, 0, 0)
  {
    hide ExponentText, Dotted;
    DottedPlain(ds, 1);
    NotPadded(ds);
    assert ds[..1] + ds[1..] == ds;
  }

  lemma FractionLayout(radix: nat, ds: seq<nat>, exp: int)
    requires 2 <= radix <= RADIX_MAX && ds != [] && exp <= 0 && forall i :: 0 <= i < |ds| ==> ds[i] < radix
    ensures LaidOut(radix, [ZERO, DOT] + ZeroText(0 - exp) + Chars(ds), ds, exp, [0], Leading(0 - exp) + ds, false, 0,
                    1 - exp, 0)
  {
    hide ZeroText;
    var zeros: nat := 0 - exp;
    FractionPlain(ds, zeros);
    assert Plain([0], Leading(zeros) + ds) + [] == Plain([0], Leading(zeros) + ds);
    assert [0] + (Leading(zeros) + ds) == Padded(zeros + 1, ds, 0);
  }

  lemma WholeLayout(radix: nat, ds: seq<nat>, exp: int)
    requires 2 <= radix <= RADIX_MAX && ds != [] && exp >= |ds| && forall i :: 0 <= i < |ds| ==> ds[i] < radix
    ensures var b: nat := exp - |ds|;
            LaidOut(radix, Dotted(Chars(ds), |ds|) + ZeroText(b), ds, exp, ds + Leading(b), [], false, 0, 0, b)
  {
    hide ZeroText, Dotted;
    var b: nat := exp - |ds|;
    WholePlain(ds, b);
    assert Plain(ds + Leading(b), []) + [] == Plain(ds + Leading(b), []);
    assert (ds + Leading(b)) + [] == Padded(0, ds, b);
  }

  lemma DottedLayout(radix: nat, ds: seq<nat>, exp: int)
    requires 2 <= radix <= RADIX_MAX && 1 <= exp < |ds| && forall i :: 0 <= i < |ds| ==> ds[i] < radix
    ensures LaidOut(radix, Dotted(Chars(ds), exp), ds, exp, ds[..exp], ds[exp..], false, 0, 0, 0)
  {
    hide Dotted, Plain, Chars, Padded, ExponentText;
    DottedPlain(ds, exp);
    NotPadded(ds);
    assert Plain(ds[..exp], ds[exp..]) + [] == Plain(ds[..exp], ds[exp..]);
    assert ds[..exp] + ds[exp..] == ds;
  }

  lemma NotPadded(ds: seq<nat>)
    ensures Padded(0, ds, 0) == ds
  {
    assert Leading(0) == [];
  }

  lemma DottedPlain(ds: seq<nat>, dot: nat)
    requires 1 <= dot <= |ds| && forall i :: 0 <= i < |ds| ==> ds[i] < 36
    ensures Dotted(Chars(ds), dot) == Plain(ds[..dot], ds[dot..])
  {
    assert Chars(ds)[..dot] == Chars(ds[..dot]);
    assert Chars(ds)[dot..] == Chars(ds[dot..]);
    if dot == |ds| { assert ds[..dot] == ds; }
  }

  lemma FractionPlain(ds: seq<nat>, zeros: nat)
    requires ds != [] && forall i :: 0 <= i < |ds| ==> ds[i] < 36
    ensures [ZERO, DOT] + ZeroText(zeros) + Chars(ds) == Plain([0], Leading(zeros) + ds)
  {
    assert Chars([0]) == [ZERO];
    assert Chars(Leading(zeros) + ds) == ZeroText(zeros) + Chars(ds);
  }

  lemma WholePlain(ds: seq<nat>, zeros: nat)
    requires forall i :: 0 <= i < |ds| ==> ds[i] < 36
    ensures Dotted(Chars(ds), |ds|) + ZeroText(zeros) == Plain(ds + Leading(zeros), [])
  {
    assert Chars(ds + Leading(zeros)) == Chars(ds) + ZeroText(zeros);
  }

  lemma {:induction false} LeadingValue(n: nat, radix: nat)
    requires radix >= 1
    ensures DigitsBelow(Leading(n), radix) && DigitsValue(Leading(n), radix) == 0
    decreases n
  {
    if n > 0 {
      LeadingValue(n - 1, radix);
      assert Leading(n)[..n - 1] == Leading(n - 1);
    }
  }

  /** Zeros behind the digits multiply the value. */
  lemma TrailingValue(v: nat, radix: nat, p: nat, b: nat)
    requires 2 <= radix <= RADIX_MAX && v < Pow(radix, p)
    ensures DigitsBelow(Digits(v, radix, p) + Leading(b), radix)
    ensures DigitsValue(Digits(v, radix, p) + Leading(b), radix) == v * Pow(radix, b)
  {
    hide DigitsValue, Pow, Digits;
    DigitsHaveValue(v, radix, p);
    SmallDivision(v, Pow(radix, p));
    LeadingValue(b, radix);
    DigitsConcat(Digits(v, radix, p), Leading(b), radix);
  }

  /** The significant digits of a sequence are determined. */
  lemma {:induction false} SignificantUnique(i: nat, ds: seq<nat>, j: nat, es: seq<nat>)
    requires Leading(i) + ds == Leading(j) + es && |ds| > 0 && ds[0] != 0 && (|es| > 0 ==> es[0] != 0)
    ensures ds == es
  {
    var x, y := Leading(i) + ds, Leading(j) + es;
    assert x[0] == y[0];
    if i > 0 && j > 0 {
      assert x[1..] == Leading(i - 1) + ds && y[1..] == Leading(j - 1) + es;
      SignificantUnique(i - 1, ds, j - 1, es);
    } else if i == 0 && j == 0 {
      assert x == ds && y == es;
    }
  }

  lemma {:induction false} TopDigit(v: nat, radix: nat, p: nat)
    requires 2 <= radix <= RADIX_MAX && HasDigits(v, radix, p)
    ensures Digits(v, radix, p)[0] != 0
  {
    hide Pow;
    var m: nat := p - 1;
    DigitsSplit(v, radix, 1, m);
    HigherAtLeast(v, radix, 0, m);
    HigherLess(v, radix, 1, m);
    PowZeroOne(radix);
    OneDigit(Higher(v, radix, m), radix);
  }

  lemma OneDigit(w: nat, radix: nat)
    requires 2 <= radix <= RADIX_MAX && w < radix
    ensures Digits(w, radix, 1) == [w]
  {
    SmallDivision(w, radix);
    assert Digits(w / radix, radix, 0) == [];
  }

  /** All the digits count: those that js_atod would drop are zeros. */
  lemma AllKept(ds: seq<nat>, radix: nat, p: nat)
    requires 2 <= radix <= RADIX_MAX && DigitsBelow(ds, radix) && p <= DTOA_MAX_DIGITS[radix - 2]
    requires forall i :: p <= i < |ds| ==> ds[i] == 0
    ensures Kept(ds, radix) == ds
  {
    TableOrder(radix - 2);
    var n := ATOD_MAX_DIGITS[radix - 2];
    if RadixBits(radix) <= 0 && |ds| > n { assert ds == ds[..n] + ds[n..]; assert ds[n..] == seq(|ds| - n, _ => 0); }
  }

  /** What the digits and the exponent denote. */
  lemma PrintedValue(ds: seq<nat>, v: nat, radix: nat, b: nat, frac: int, k: int)
    requires 2 <= radix <= RADIX_MAX && DigitsValue(ds, radix) == v * Pow(radix, b)
    ensures var binary := radix != 10 && 1 <= RadixBits(radix) <= 4;
            TextValue(ds, radix, frac, WrittenExponent(radix, k), binary) == Numeral(v, radix, b - frac + k)
  {
    hide DigitsValue, Pow, Numeral;
    ExpZero(2);
    if radix != 10 && 1 <= RadixBits(radix) <= 4 {
      NumeralScale(v, radix, b, 0 - frac);
      BinaryPlaces(v, radix, b - frac, k);
    } else {
      NumeralScale(v, radix, b, k - frac);
    }
  }

  lemma BinaryPlaces(v: nat, radix: nat, j: int, k: int)
    requires 2 <= radix <= RADIX_MAX && RadixBits(radix) > 0
    ensures Numeral(v, radix, j) * Exp(2, k * RadixBits(radix)) == Numeral(v, radix, j + k)
  {
    hide Exp;
    PowerRadix(radix, RadixBits(radix), k);
    ExpAdd(radix, j, k);
    Associates(v as real, Exp(radix, j), Exp(radix, k));
  }

  // ----- the text of a magnitude -----

  /** The significant digits that js_atod finds are those printed and the zeros behind them. */
  lemma FoundDigits(s: Source, begin: nat, mid: nat, es: seq<nat>, a: nat, ds: seq<nat>, b: nat)
    requires SourceOk(s) && Significant(s, begin, mid, es) && DigitsIn(s.text, begin, mid, s.sep) == Padded(a, ds, b)
    requires |ds| > 0 && ds[0] != 0
    ensures es == ds + Leading(b)
  {
    hide DigitsIn;
    var j: nat := |DigitsIn(s.text, begin, mid, s.sep)| - |es|;
    assert Padded(a, ds, b) == Leading(a) + (ds + Leading(b));
    SignificantUnique(a, ds + Leading(b), j, es);
  }

  /** The source that js_atod reads from, and the part of the text that is the number. */
  ghost predicate Reading(s: Source, radix: nat, body: seq<byte>) {
    SourceOk(s) && s.radix == radix && !s.intOnly && s.start <= |s.text| && s.text[s.start..] == body
  }

  /** The text is read to its end, as a number with these digits. */
  lemma BodyRead(s: Source, radix: nat, body: seq<byte>, ds: seq<nat>, exp: int, xs: seq<nat>, ys: seq<nat>, has: bool,
                 k: int,
                 a: nat, b: nat)
      returns (mid: nat)
    requires Reading(s, radix, body) && LaidOut(radix, body, ds, exp, xs, ys, has, k, a, b)
    ensures s.start < mid <= |s.text| && NumeralEnd(s, s.start, false) == mid
    ensures DigitsIn(s.text, s.start, mid, s.sep) == Padded(a, ds, b) && FractionDigits(s, s.start, mid) == |ys|
    ensures NumberEnd(s, mid) == |s.text| && !BadExponent(s, mid)
    ensures ExponentMark(s, mid) ==> ExponentBegin(s, mid) <= |s.text|
    ensures ExponentValue(s, mid, |s.text|) == WrittenExponent(radix, k)
    ensures BinaryExponent(s, mid) <==> has && radix != 10 && 1 <= RadixBits(radix) <= 4
  {
    hide NumeralEnd, DigitsIn, PointIn, ExponentText, DigitsEnd, FractionDigits, ExponentMark, ExponentBegin,
      ExponentValue, BinaryExponent, BadExponent, NumberEnd, WrittenExponent, Padded;
    var suffix := if has then ExponentText(radix, k) else [];
    LetterStops(radix, k);
    LaidHolds(s, xs, ys, suffix);
    NumeralRead(s, s.start, xs, ys, suffix);
    Parts(s, s.start, xs, ys, suffix);
    mid := s.start + |Plain(xs, ys)|;
    if has {
      ExponentReadBack(s, mid, k);
    } else {
      NoExponent(s);
      NoWritten(radix);
    }
  }

  lemma NoWritten(radix: nat)
    ensures WrittenExponent(radix, 0) == 0
  {
  }

  lemma LaidHolds(s: Source, xs: seq<nat>, ys: seq<nat>, suffix: seq<byte>)
    requires SourceOk(s) && s.start <= |s.text| && xs != [] && DigitsBelow(xs, s.radix) && DigitsBelow(ys, s.radix)
    requires s.text[s.start..] == Plain(xs, ys) + suffix
    requires suffix != [] ==> ToDigit(suffix[0]) >= s.radix && suffix[0] != DOT && suffix[0] != UNDERSCORE
    ensures Laid(s, s.start, xs, ys, suffix)
  {
  }

  /** A nonzero number of p digits is read back as the nearest float64 of its value. */
  lemma DigitsReadBack(s: Source, radix: nat, body: seq<byte>, v: nat, p: nat, exp: int, xs: seq<nat>, ys: seq<nat>,
                       has: bool, k: int,
                       a: nat, b: nat, mid: nat, es: seq<nat>, bits: nat)
    requires Reading(s, radix, body) && 2 <= radix <= RADIX_MAX && HasDigits(v, radix, p)
             && p <= DTOA_MAX_DIGITS[radix - 2]
    requires LaidOut(radix, body, Digits(v, radix, p), exp, xs, ys, has, k, a, b)
    requires mid == NumeralEnd(s, s.start, false) && ReadsAs(s, s.start, mid, |s.text|, es, bits)
    ensures CorrectBits(Numeral(v, radix, exp - p), bits)
  {
    hide NumeralEnd, DigitsIn, PointIn, ExponentText, DigitsEnd, FractionDigits, ExponentMark, ExponentBegin,
      ExponentValue, BinaryExponent, BadExponent, NumberEnd, WrittenExponent, Digits, DigitsValue, Numeral, TextValue,
      CorrectBits, Kept, Pow, Significant;
    var ds := Digits(v, radix, p);
    var m := BodyRead(s, radix, body, ds, exp, xs, ys, has, k, a, b);
    TopDigit(v, radix, p);
    HasDigitsIs(v, radix, p);
    FoundDigits(s, s.start, mid, es, a, ds, b);
    TrailingValue(v, radix, p, b);
    AllKept(es, radix, p);
    var written := WrittenExponent(radix, k);
    if has || !(radix != 10 && 1 <= RadixBits(radix) <= 4) {
      PrintedValue(es, v, radix, b, |ys|, k);
    } else {
      NoWritten(radix);
      PlainValue(es, v, radix, b, |ys|);
    }
  }

  lemma HasDigitsIs(v: nat, radix: nat, p: nat)
    requires 2 <= radix && HasDigits(v, radix, p)
    ensures p >= 1 && 0 < v < Pow(radix, p)
  {
    PowPositive(radix, p - 1);
  }

  lemma PlainValue(ds: seq<nat>, v: nat, radix: nat, b: nat, frac: int)
    requires 2 <= radix <= RADIX_MAX && DigitsValue(ds, radix) == v * Pow(radix, b)
    ensures TextValue(ds, radix, frac, 0, false) == Numeral(v, radix, b - frac)
  {
    hide DigitsValue, Pow, Numeral;
    ExpZero(2);
    NumeralScale(v, radix, b, 0 - frac);
  }

  /** Reading a printed number neither fails nor overflows, and it reads the whole text. */
  lemma ReadsWhole(s: Source, radix: nat, body: seq<byte>, ds: seq<nat>, exp: int, xs: seq<nat>, ys: seq<nat>,
                   has: bool, k: int,
                   a: nat, b: nat, mid: nat, next: nat, es: seq<nat>, res: AtodResult)
    requires Reading(s, radix, body) && |s.text| <= TEXT_MAX && LaidOut(radix, body, ds, exp, xs, ys, has, k, a, b)
    requires -1300 <= exp <= 1300 && NumberRead(s, s.start, mid, next, es, res)
    ensures res.Double? && next == |s.text| && mid == NumeralEnd(s, s.start, false)
    ensures ReadsAs(s, s.start, mid, next, es, res.bits)
  {
    hide NumeralEnd, DigitsIn, PointIn, ExponentText, DigitsEnd, FractionDigits, ExponentMark, ExponentBegin,
      ExponentValue, BinaryExponent, BadExponent, NumberEnd, Significant, ReadsAs, IntOverflow;
    var m := BodyRead(s, radix, body, ds, exp, xs, ys, has, k, a, b);
    WrittenSmall(radix, k);
    if res.Unspecified? { SmallExponentsFit(s, s.start, mid, next, es); }
  }

  lemma WrittenSmall(radix: nat, k: int)
    requires -1400 <= k <= 1400
    ensures -10000 <= WrittenExponent(radix, k) <= 10000
  {
  }

  // ----- the sign and the prefix -----

  /** A printed number begins with a digit, and not with a radix prefix. */
  lemma BodyBegins(radix: nat, body: seq<byte>, ds: seq<nat>, exp: int, xs: seq<nat>, ys: seq<nat>, has: bool, k: int,
                   a: nat, b: nat)
    requires LaidOut(radix, body, ds, exp, xs, ys, has, k, a, b)
    ensures body != [] && ToDigit(body[0]) < 36 && body[0] != 43 && body[0] != 45 && body[0] != 73
    ensures |body| > 1 && radix == 16 ==> body[1] != 120 && body[1] != 88
  {
    hide ExponentText;
    LetterStops(radix, k);
    var plain := Plain(xs, ys);
    assert body[0] == plain[0] == Chars(xs)[0] == DigitChar(xs[0]);
    if |body| > 1 && radix == 16 {
      if |xs| > 1 {
        assert body[1] == plain[1] == Chars(xs)[1] == DigitChar(xs[1]);
      } else if ys != [] {
        assert body[1] == plain[1] == DOT;
      } else {
        assert body[1] == ExponentText(radix, k)[0];
      }
    }
  }

  /** The prefix of a printed number is its sign. */
  lemma PrefixOfPrinted(text: seq<byte>, radix: nat, flags: Flags, negative: bool, body: seq<byte>)
    requires 2 <= radix <= RADIX_MAX && !flags.intOnly && text == SignText(negative) + body && body != []
    requires ToDigit(body[0]) < 36 && body[0] != 43 && body[0] != 45 && body[0] != 73
    requires |body| > 1 && radix == 16 ==> body[1] != 120 && body[1] != 88
    ensures var sep := if flags.underscores then UNDERSCORE else NO_SEPARATOR;
            var s := Source(text, |SignText(negative)|, radix, sep, false);
            ParsePrefix(text, radix, flags) == Numeric(s, s.start) && Reading(s, radix, body)
    ensures (CharAt(text, 0) == 45) == negative
  {
    hide OctalRun;
    var n := |SignText(negative)|;
    assert text[n] == body[0] && (|body| > 1 ==> text[n + 1] == body[1]);
    assert negative ==> text[0] == 45;
    assert text[n..] == body;
    assert SignLength(text) == n && CharAt(text, n) == body[0];
    assert CharAt(text, n + 1) == if |body| > 1 then body[1] else 0;
    assert !StartsInfinity(text, n) by { assert INFINITY_TEXT[0] == 73 && text[n + 0] == body[0]; }
  }

  lemma InfinityPrinted(text: seq<byte>, radix: nat, flags: Flags, negative: bool)
    requires 2 <= radix <= RADIX_MAX && !flags.intOnly && text == SignText(negative) + INFINITY_WORD
    ensures ParsePrefix(text, radix, flags) == AtodParse.Infinite(|text|) && (CharAt(text, 0) == 45) == negative
  {
    hide OctalRun;
    var n := |SignText(negative)|;
    forall i | 0 <= i < 8 ensures text[n + i] == INFINITY_WORD[i] {}
    assert text[n] == 73;
    assert negative ==> text[0] == 45;
  }

  // ----- the theorem -----

  /** An integer text is a numeral of its digits. */
  lemma IntegerLayout(v: nat, radix: nat)
    requires 2 <= radix <= RADIX_MAX
    ensures var ds := Digits(v, radix, DigitCount(v, radix));
            LaidOut(radix, IntegerText(v, radix), ds, |ds|, ds + Leading(0), [], false, 0, 0, 0)
  {
    hide LaidOut, DigitCount, Digits;
    var ds := Digits(v, radix, DigitCount(v, radix));
    WholeLayout(radix, ds, |ds|);
    assert Dotted(Chars(ds), |ds|) + ZeroText(0) == Chars(ds);
  }

  /** A float64 reads back as itself. */
  lemma DoubleReadsItself(m: int, e: int)
    requires Normalised(m) && e >= -1021
    ensures RoundsTo(DoubleValue(m, e), NearestEven, m, e)
  {
    hide Exp, Round, HasExponent;
    var d := DoubleValue(m, e);
    DoubleExponent(m, e);
    ExpAdd(2, e - 53, 53 - e);
    ExpZero(2);
    Associates(m as real, Exp(2, e - 53), Exp(2, 53 - e));
    assert Ulp(e) == e - 53 && -(e - 53) == 53 - e;
    assert Units(d, Ulp(e)) == m as real;
    RoundInteger(m, NearestEven);
    PowZeroOne(2);
    assert RoundsAt(d, NearestEven, e, m, e);
  }

  /** The small integers of the shortcut, and their digit counts. */
  lemma SmallIntegerIs(m: nat, e: int, radix: nat)
    requires IsDouble(m, e) && SmallInteger(m, e) && 2 <= radix <= RADIX_MAX
    ensures m / Pow(2, 53 - e) >= 0
    ensures var v: nat := m / Pow(2, 53 - e);
            var n := DigitCount(v, radix);
            HasDigits(v, radix, n) && n <= DTOA_MAX_DIGITS[radix - 2] && Numeral(v, radix, 0) == DoubleValue(m, e)
  {
    hide Pow, Exp, DigitCount, IsDouble, Numeral, DoubleValue, HasExponent;
    var p := Pow(2, 53 - e);
    DoubleFits(m, e);
    DivideExactly(m, p);
    QuotientAtMost(m, p);
    var v: nat := m / p;
    if v <= 0 { MulMonotoneLeft(p, v, 0); }
    CountBounds(v, radix);
    CountNext(v, radix);
    MaxDigits(radix);
    PowZeroOne(radix);
    var n := DigitCount(v, radix);
    if n > DTOA_MAX_DIGITS[radix - 2] { CountAbove(v, radix, DTOA_MAX_DIGITS[radix - 2] - 1); }
    assert m == p * v;
    Commutes(p, v);
    SmallIntegerValue(m, e, radix, v);
  }

  lemma SmallIntegerValue(m: nat, e: int, radix: nat, v: nat)
    requires radix >= 2 && e <= 53 && m == v * Pow(2, 53 - e)
    ensures Numeral(v, radix, 0) == DoubleValue(m, e)
  {
    hide Pow, Exp;
    ExpZero(radix);
    ExpIsPow(2, 53 - e);
    ExpAdd(2, 53 - e, e - 53);
    ExpZero(2);
    RealProduct(v, Pow(2, 53 - e));
    Associates(v as real, Exp(2, 53 - e), Exp(2, e - 53));
  }

  /** The printed magnitude is read back. */
  lemma MagnitudeReadsBack(s: Source, radix: nat, body: seq<byte>, m: nat, e: int, v: nat, p: nat, exp: int,
                           xs: seq<nat>, ys: seq<nat>,
                           has: bool, k: int, a: nat, b: nat, mid: nat, next: nat, es: seq<nat>, res: AtodResult)
    requires Reading(s, radix, body) && |s.text| <= TEXT_MAX && 2 <= radix <= RADIX_MAX && IsDouble(m, e)
    requires HasDigits(v, radix, p) && p <= DTOA_MAX_DIGITS[radix - 2] && -1300 <= exp <= 1300
    requires LaidOut(radix, body, Digits(v, radix, p), exp, xs, ys, has, k, a, b)
    requires RoundsTo(Numeral(v, radix, exp - p), NearestEven, m, e) && NumberRead(s, s.start, mid, next, es, res)
    ensures Normalised(m) && res.Double? && res.bits == Encode(m, e) && next == |s.text|
  {
    hide Reading, IsDouble, HasDigits, LaidOut, RoundsTo, Numeral, NumberRead, Digits, CorrectBits, NumeralEnd, ReadsAs,
      Encode;
    DoubleIsNormalised(m, e);
    ReadsWhole(s, radix, body, Digits(v, radix, p), exp, xs, ys, has, k, a, b, mid, next, es, res);
    DigitsReadBack(s, radix, body, v, p, exp, xs, ys, has, k, a, b, mid, es, res.bits);
    RoundedBits(Numeral(v, radix, exp - p), m, e);
    CorrectBitsUnique(Numeral(v, radix, exp - p), res.bits, Encode(m, e));
  }

  /** The free format of a magnitude, as digits and a layout. */
  lemma FreeLayout(m: nat, e: int, radix: nat, mode: ExpMode, expMax: int, body: seq<byte>)
      returns (v: nat, p: nat, exp: int, xs: seq<nat>, ys: seq<nat>, has: bool, k: int, a: nat, b: nat)
    requires 2 <= radix <= RADIX_MAX && IsDouble(m, e) && FreeText(m, e, radix, mode, expMax, body)
    ensures HasDigits(v, radix, p) && p <= DTOA_MAX_DIGITS[radix - 2] && -1300 <= exp <= 1300
    ensures LaidOut(radix, body, Digits(v, radix, p), exp, xs, ys, has, k, a, b)
    ensures RoundsTo(Numeral(v, radix, exp - p), NearestEven, m, e)
  {
    hide IsDouble, HasDigits, LaidOut, RoundsTo, Numeral, Digits, NumberText, IntegerText, Pow, DigitCount, DoubleValue,
      Nearest, ShorterOnlyAbove, FewestUnlessMissed, Symmetric;
    if SmallInteger(m, e) && mode != Enabled {
      SmallIntegerIs(m, e, radix);
      v := m / Pow(2, 53 - e);
      p := DigitCount(v, radix);
      exp := p;
      IntegerLayout(v, radix);
      xs, ys, has, k, a, b := Digits(v, radix, p) + Leading(0), [], false, 0, 0, 0;
      MaxDigits(radix);
      DoubleIsNormalised(m, e);
      DoubleReadsItself(m, e);
    } else {
      var mant: nat, q: nat, x: int :| Shortest(m, e, radix, mant, q, x)
        && body == NumberText(mant, radix, q, x, expMax, mode);
      v, p, exp := mant, q, x;
      xs, ys, has, k, a, b := NumberLayout(v, radix, p, exp, expMax, mode);
    }
  }

  /**
   * Printing and parsing are inverse: for every float64 except NaN, signed zeros and infinities included, every radix
   * and every exponent style, js_atod reads the text that js_dtoa prints in the free format to its end and returns the
   * same bits.
   */
  lemma TextReadsBack(bits: nat, radix: nat, style: Style, text: seq<byte>, flags: Flags, res: AtodResult, next: nat,
                      mid: nat, es: seq<nat>)
    requires bits < 2 * TWO63 && 2 <= radix <= RADIX_MAX && StyleOk(style) && style.format == Free && style.minusZero
    requires !Decode(bits % TWO63).NaN? && Printed(bits, radix, style, text)
    requires |text| <= TEXT_MAX && !flags.intOnly && Parsed(text, radix, flags, res, next, mid, es)
    ensures res == Double(bits >= TWO63, bits % TWO63) && next == |text|
  {
    hide Decode, NumberText, FreeText, NumberRead, ParsePrefix, Reading, Encode, IsDouble, LaidOut, RoundsTo, Numeral,
      HasDigits;
    var negative := bits / TWO63 == 1;
    var sign := SignText(negative);
    match Decode(bits % TWO63)
    case Infinite =>
      InfinityPrinted(text, radix, flags, negative);
      InfiniteBits(bits % TWO63);
    case Zero =>
      ZeroBits(bits % TWO63);
      ZeroReadsBack(radix, style, text, flags, negative, res, next, mid, es);
    case Finite(m, e) =>
      DecodedIsDouble(bits % TWO63);
      var body := text[|sign|..];
      assert text == sign + body;
      var v, p, exp, xs, ys, has, k, a, b := FreeLayout(m, e, radix, style.mode, ExpMax(radix, style), body);
      BodyBegins(radix, body, Digits(v, radix, p), exp, xs, ys, has, k, a, b);
      PrefixOfPrinted(text, radix, flags, negative, body);
      var sep := if flags.underscores then UNDERSCORE else NO_SEPARATOR;
      var s := Source(text, |sign|, radix, sep, false);
      MagnitudeReadsBack(s, radix, body, m, e, v, p, exp, xs, ys, has, k, a, b, mid, next, es, res);
  }

  lemma InfiniteBits(bits: nat)
    requires bits < TWO63 && Decode(bits).Infinite?
    ensures bits == INFINITY_BITS
  {
  }

  lemma ZeroBits(bits: nat)
    requires bits < TWO63 && Decode(bits).Zero?
    ensures bits == 0
  {
  }

  lemma ZeroReadsBack(radix: nat, style: Style, text: seq<byte>, flags: Flags, negative: bool, res: AtodResult,
                      next: nat, mid: nat,
                      es: seq<nat>)
    requires 2 <= radix <= RADIX_MAX && style.format == Free
    requires text == SignText(negative) + NumberText(0, radix, 1, 1, ExpMax(radix, style), style.mode)
    requires |text| <= TEXT_MAX && !flags.intOnly && Parsed(text, radix, flags, res, next, mid, es)
    ensures res == Double(negative, 0) && next == |text|
  {
    hide NumberText, NumberRead, ParsePrefix, Reading, LaidOut, Digits, NumeralEnd, ReadsAs;
    var body := NumberText(0, radix, 1, 1, ExpMax(radix, style), style.mode);
    var xs, ys, has, k, a, b := NumberLayout(0, radix, 1, 1, ExpMax(radix, style), style.mode);
    var ds := Digits(0, radix, 1);
    BodyBegins(radix, body, ds, 1, xs, ys, has, k, a, b);
    PrefixOfPrinted(text, radix, flags, negative, body);
    var sep := if flags.underscores then UNDERSCORE else NO_SEPARATOR;
    var s := Source(text, |SignText(negative)|, radix, sep, false);
    ReadsWhole(s, radix, body, ds, 1, xs, ys, has, k, a, b, mid, next, es, res);
    OneDigit(0, radix);
    var m := BodyRead(s, radix, body, ds, 1, xs, ys, has, k, a, b);
    OnlyZeros(s, s.start, mid, es, a, b, res.bits);
  }

  lemma OnlyZeros(s: Source, begin: nat, mid: nat, es: seq<nat>, a: nat, b: nat, bits: nat)
    requires begin <= mid <= |s.text| && ReadsAs(s, begin, mid, |s.text|, es, bits)
    requires DigitsIn(s.text, begin, mid, s.sep) == Padded(a, [0], b)
    ensures bits == 0
  {
    hide DigitsIn, CorrectBits, TextValue, Kept;
    var all := DigitsIn(s.text, begin, mid, s.sep);
    NoSignificant(|all| - |es|, es, all);
    assert |all| == a + 1 + b;
    assert forall i :: 0 <= i < |all| ==> all[i] == 0;
  }

  lemma NoSignificant(j: nat, es: seq<nat>, all: seq<nat>)
    requires all == Leading(j) + es
    ensures |es| > 0 ==> all[j] == es[0]
  {
    hide Leading;
  }

  /** js_atod after js_dtoa, for every float64 but NaN. */
  method PrintAndParse(bits: nat, radix: nat, mode: ExpMode) returns (text: seq<byte>, res: AtodResult)
    requires bits < 2 * TWO63 && !Decode(bits % TWO63).NaN?
    requires 2 <= radix <= RADIX_MAX
    ensures Printed(bits, radix, Style(Free, 0, mode, true), text)
    ensures res == Double(bits >= TWO63, bits % TWO63)
  {
    hide Decode, Printed, Parsed, ParsePrefix;
    var buf := new byte[BUFFER_ROOM](_ => 0);
    var tmp1 := new Mpb(DTOA_ROOM);
    var mantMax := new Mpb(200);
    var r := new Mpb(ATOD_ROOM);
    var style := Style(Free, 0, mode, true);
    var len := JsDtoa(buf, bits, radix, style, tmp1, mantMax);
    text := buf[..len];
    var flags := Flags(false, false, false, false);
    RadixKept(text, radix, flags);
    var next; ghost var mid, es;
    res, next, mid, es := Atod(r, text, radix, flags);
    TextReadsBack(bits, radix, style, text, flags, res, next, mid, es);
  }

  lemma RadixKept(text: seq<byte>, radix: nat, flags: Flags)
    requires 2 <= radix <= RADIX_MAX
    ensures var x := ParsePrefix(text, radix, flags); x.Numeric? ==> x.source.radix == radix
  {
    hide OctalRun;
  }
}
