/** js_atod: from a text to a float64. */
module AtodParse {
  import opened Bytes
  import opened Powers
  import opened Limbs
  import opened Reals
  import opened Bignum
  import opened DtoaTables
  import opened RadixScaling
  import opened DtoaLogTable
  import opened DtoaShortest
  import opened AtodDigits
  import opened AtodConvert

  datatype Flags = Flags(intOnly: bool, binOct: bool, legacyOctal: bool, underscores: bool)

  // ----- sign and prefix -----

  /** Where the digits begin, after the sign and the radix prefix. */
  datatype Prefix = Rejected | Infinite(next: nat) | Numeric(source: Source, begin: nat)

  predicate IsChar(c: int, lower: int, upper: int) {
    c == lower || c == upper
  }

  /** The end of the run of octal digits from p. */
  function OctalRun(text: seq<byte>, p: nat): (q: nat)
    ensures p <= q && (p <= |text| ==> q <= |text|)
    decreases |text| - p
  {
    if p < |text| && 48 <= text[p] <= 55 then OctalRun(text, p + 1) else p
  }

  const INFINITY_TEXT: seq<int> := [73, 110, 102, 105, 110, 105, 116, 121]

  predicate StartsInfinity(text: seq<byte>, p: nat) {
    p + 8 <= |text| && forall i :: 0 <= i < 8 ==> text[p + i] == INFINITY_TEXT[i]
  }

  function SignLength(text: seq<byte>): nat {
    if CharAt(text, 0) == 43 || CharAt(text, 0) == 45 then 1 else 0
  }

  /** The digits begin at p, or are missing although a prefix asks for them. */
  function AfterPrefix(text: seq<byte>, start: nat, p: nat, radix: nat, sep: int, intOnly: bool): Prefix {
    if ToDigit(CharAt(text, p)) >= radix then Rejected else Numeric(Source(text, start, radix, sep, intOnly), p)
  }

  /** The choice of the radix by the caller's argument, the prefix and the flags. */
  function ParsePrefix(text: seq<byte>, radix0: nat, flags: Flags): Prefix {
    var p := SignLength(text);
    var sep := if flags.underscores then UNDERSCORE else NO_SEPARATOR;
    var plain := Numeric(Source(text, p, if radix0 == 0 then 10 else radix0, sep, flags.intOnly), p);
    if CharAt(text, p) == ZERO then
      var c := CharAt(text, p + 1);
      if IsChar(c, 120, 88) && (radix0 == 0 || radix0 == 16) then AfterPrefix(text, p, p + 2, 16, sep, flags.intOnly)
      else if IsChar(c, 111, 79) && radix0 == 0 && flags.binOct then AfterPrefix(text, p, p + 2, 8, sep, flags.intOnly)
      else if IsChar(c, 98, 66) && radix0 == 0 && flags.binOct then AfterPrefix(text, p, p + 2, 2, sep, flags.intOnly)
      else if 48 <= c <= 57 && radix0 == 0 && flags.legacyOctal then
        var q := OctalRun(text, p + 1);
        if CharAt(text, q) == 56 || CharAt(text, q) == 57
        then Numeric(Source(text, p, 10, NO_SEPARATOR, flags.intOnly), p)
        else AfterPrefix(text, p, p + 1, 8, NO_SEPARATOR, flags.intOnly)
      else plain
    else if !flags.intOnly && StartsInfinity(text, p) then Infinite(p + 8)
    else plain
  }

  /** The loop over the octal digits after a leading zero. */
  method ScanOctal(text: seq<byte>, p: nat) returns (q: nat)
    ensures q == OctalRun(text, p)
  {
    q := p;
    while 48 <= CharAt(text, q) <= 55
      invariant OctalRun(text, p) == OctalRun(text, q)
      decreases |text| - q
    {
      q := q + 1;
    }
  }

  /** The sign, the prefix and the radix. */
  method ScanPrefix(text: seq<byte>, radix0: nat, flags: Flags) returns (x: Prefix, negative: bool)
    ensures x == ParsePrefix(text, radix0, flags) && negative == (CharAt(text, 0) == 45)
  {
    hide ToDigit, StartsInfinity, OctalRun;
    var sep := if flags.underscores then UNDERSCORE else NO_SEPARATOR;
    var p, radix := 0, radix0;
    negative := false;
    if CharAt(text, p) == 43 {
      p := p + 1;
    } else if CharAt(text, p) == 45 {
      negative := true;
      p := p + 1;
    }
    var start := p;
    if CharAt(text, p) == ZERO {
      var c, prefixed := CharAt(text, p + 1), true;
      if IsChar(c, 120, 88) && (radix == 0 || radix == 16) {
        p, radix := p + 2, 16;
      } else if IsChar(c, 111, 79) && radix == 0 && flags.binOct {
        p, radix := p + 2, 8;
      } else if IsChar(c, 98, 66) && radix == 0 && flags.binOct {
        p, radix := p + 2, 2;
      } else if 48 <= c <= 57 && radix == 0 && flags.legacyOctal {
        sep := NO_SEPARATOR;
        var q := ScanOctal(text, p + 1);
        if CharAt(text, q) == 56 || CharAt(text, q) == 57 {
          prefixed := false;
        } else {
          p, radix := p + 1, 8;
        }
      } else {
        prefixed := false;
      }
      if prefixed && ToDigit(CharAt(text, p)) >= radix {
        return Rejected, negative;
      }
    } else if !flags.intOnly && StartsInfinity(text, p) {
      return Infinite(p + 8), negative;
    }
    if radix == 0 {
      radix := 10;
    }
    x := Numeric(Source(text, start, radix, sep, flags.intOnly), p);
  }

  ghost predicate PrefixFits(text: seq<byte>, x: Prefix) {
    x.Numeric? ==> SourceOk(x.source) && x.source.text == text && x.source.start <= x.begin <= |text|
  }

  lemma AfterPrefixOk(text: seq<byte>, start: nat, p: nat, radix: nat, sep: int, intOnly: bool)
    requires 2 <= radix <= RADIX_MAX && (sep == NO_SEPARATOR || sep == UNDERSCORE) && start <= p
    ensures PrefixFits(text, AfterPrefix(text, start, p, radix, sep, intOnly))
  {
  }

  lemma PrefixOk(text: seq<byte>, radix0: nat, flags: Flags)
    requires radix0 == 0 || 2 <= radix0 <= RADIX_MAX
    ensures PrefixFits(text, ParsePrefix(text, radix0, flags))
  {
    hide AfterPrefix, OctalRun, StartsInfinity, ToDigit;
    var p := SignLength(text);
    var sep := if flags.underscores then UNDERSCORE else NO_SEPARATOR;
    AfterPrefixOk(text, p, p + 2, 16, sep, flags.intOnly);
    AfterPrefixOk(text, p, p + 2, 8, sep, flags.intOnly);
    AfterPrefixOk(text, p, p + 2, 2, sep, flags.intOnly);
    AfterPrefixOk(text, p, p + 1, 8, NO_SEPARATOR, flags.intOnly);
    assert p <= |text|;
  }

  // ----- the exponent -----

  const EXPONENT_LIMIT: int := (0x7fff_ffff - 2 - 9) / 10

  /** An exponent begins at p. */
  predicate ExponentMark(s: Source, p: nat) {
    var c, bits := CharAt(s.text, p), RadixShiftBits(s.radix);
    && !s.intOnly && p > s.start
    && ((s.radix == 10 && IsChar(c, 101, 69))
        || (s.radix != 10 && (c == 64 || (1 <= bits <= 4 && IsChar(c, 112, 80)))))
  }

  /** The position of the first digit of the exponent that begins at p. */
  function ExponentBegin(s: Source, p: nat): nat {
    if CharAt(s.text, p + 1) == 43 || CharAt(s.text, p + 1) == 45 then p + 2 else p + 1
  }

  function ExponentSize(v: int): nat {
    if v < 0 then -v else v
  }

  /** The exponent read: its digits, its sign and its kind. */
  datatype Exponent = Missing | Exponent(magnitude: nat, negative: bool, binary: bool, overflow: bool)

  /** The exponent agrees with its digits; an overflow means a magnitude beyond any float64. */
  ghost predicate ExponentRead(x: Exponent, es: seq<nat>) {
    x.Exponent? && x.overflow == (DigitsValue(es, 10) >= 10 * EXPONENT_LIMIT + 10)
    && (!x.overflow ==> DigitsValue(es, 10) == x.magnitude)
  }

  /** Where the longest run of decimal digits from p ends, with separators in front of digits. */
  function DigitsEnd(s: Source, p: nat): (end: nat)
    ensures p <= end
    decreases |s.text| - p
  {
    var r := if CharAt(s.text, p) == s.sep && ToDigit(CharAt(s.text, p + 1)) < 10 then p + 1 else p;
    if r < |s.text| && ToDigit(CharAt(s.text, r)) < 10 then DigitsEnd(s, r + 1) else r
  }

  /** Where the number ends whose digits end at mid. */
  function NumberEnd(s: Source, mid: nat): nat {
    if ExponentMark(s, mid) then DigitsEnd(s, ExponentBegin(s, mid)) else mid
  }

  lemma DigitsEndNext(s: Source, p: nat)
    requires SourceOk(s)
    ensures CharAt(s.text, p) == s.sep && ToDigit(CharAt(s.text, p + 1)) < 10 ==> DigitsEnd(s, p) == DigitsEnd(s, p + 1)
    ensures ToDigit(CharAt(s.text, p)) < 10 ==> p < |s.text| && DigitsEnd(s, p) == DigitsEnd(s, p + 1)
    ensures ToDigit(CharAt(s.text, p)) >= 10 && !(CharAt(s.text, p) == s.sep && ToDigit(CharAt(s.text, p + 1)) < 10)
            ==> DigitsEnd(s, p) == p
  {
  }

  method ScanExponent(s: Source, p0: nat) returns (x: Exponent, p: nat, ghost es: seq<nat>)
    requires SourceOk(s) && p0 <= |s.text|
    ensures p0 <= p <= |s.text|
    ensures x.Missing? <==> ExponentMark(s, p0) && ToDigit(CharAt(s.text, ExponentBegin(s, p0))) >= 10
    ensures !x.Missing? ==> p == NumberEnd(s, p0)
    ensures !ExponentMark(s, p0) ==> x == Exponent(0, false, false, false) && p == p0 && es == []
    ensures ExponentMark(s, p0) && x.Exponent?
            ==> && ExponentBegin(s, p0) <= p && es == DigitsIn(s.text, ExponentBegin(s, p0), p, s.sep)
                && ExponentRead(x, es)
                && x.negative == (CharAt(s.text, p0 + 1) == 45) && x.binary == IsChar(CharAt(s.text, p0), 112, 80)
  {
    hide DigitsIn, DigitsValue, DigitsEnd;
    if !ExponentMark(s, p0) {
      return Exponent(0, false, false, false), p0, [];
    }
    var binary := IsChar(CharAt(s.text, p0), 112, 80);
    var negative := CharAt(s.text, p0 + 1) == 45;
    p := ExponentBegin(s, p0);
    var c := ToDigit(CharAt(s.text, p));
    if c >= 10 {
      return Missing, p0, [];
    }
    ghost var q := p;
    ReadExponentDigit(s, q, p, []);
    FirstDigit(c);
    DigitsEndNext(s, q);
    es := [c];
    var expn: nat, overflow := c, false;
    p := p + 1;
    while true
      invariant q < p <= |s.text| && es == DigitsIn(s.text, q, p, s.sep) && DigitsEnd(s, q) == DigitsEnd(s, p)
      invariant expn <= 10 * EXPONENT_LIMIT + 9
      invariant overflow == (DigitsValue(es, 10) >= 10 * EXPONENT_LIMIT + 10)
      invariant !overflow ==> DigitsValue(es, 10) == expn
      decreases |s.text| - p
    {
      DigitsEndNext(s, p);
      if CharAt(s.text, p) == s.sep && ToDigit(CharAt(s.text, p + 1)) < 10 {
        ReadExponentMark(s, q, p);
        p := p + 1;
        DigitsEndNext(s, p);
      }
      c := ToDigit(CharAt(s.text, p));
      if c >= 10 {
        break;
      }
      ReadExponentDigit(s, q, p, es);
      DigitsSnoc(es, c, 10);
      es := es + [c];
      if !overflow {
        if expn > EXPONENT_LIMIT {
          overflow := true;
        } else {
          expn := expn * 10 + c;
        }
      }
      p := p + 1;
    }
    x := Exponent(expn, negative, binary, overflow);
  }

  lemma FirstDigit(c: nat)
    ensures DigitsValue([c], 10) == c
  {
    assert [c][..0] == [];
  }

  lemma ReadExponentDigit(s: Source, q: nat, p: nat, es: seq<nat>)
    requires SourceOk(s) && q <= p < |s.text| && ToDigit(CharAt(s.text, p)) < 10
    requires p > q ==> es == DigitsIn(s.text, q, p, s.sep)
    requires p == q ==> es == []
    ensures DigitsIn(s.text, q, p + 1, s.sep) == es + [ToDigit(CharAt(s.text, p))]
  {
  }

  lemma ReadExponentMark(s: Source, q: nat, p: nat)
    requires SourceOk(s) && q <= p < |s.text| && CharAt(s.text, p) == s.sep
    ensures DigitsIn(s.text, q, p + 1, s.sep) == DigitsIn(s.text, q, p, s.sep)
  {
  }

  // ----- exponents beyond every float64 -----

  /** The longest text for which all positions and digit counts stay small against the exponents that overflow. */
  const TEXT_MAX: int := 100000000

  lemma KeptRange(ds: seq<nat>, radix: nat)
    requires 2 <= radix <= RADIX_MAX && DigitsBelow(ds, radix) && |ds| > 0 && ds[0] != 0
    ensures 1 <= DigitsValue(Kept(ds, radix), radix) < Pow(radix, |ds|)
  {
    hide DigitsValue, Pow;
    var ks := Kept(ds, radix);
    MaxScanned(radix);
    assert ks[0] == ds[0];
    DigitsBound(ks, radix);
    PowPositive(radix, |ks| - 1);
  }

  /** The value lies between the weights of its lowest and of its highest digit. */
  lemma TextRange(ks: seq<nat>, radix: nat, n: nat, frac: int, expn: int, binary: bool)
    requires 2 <= radix <= RADIX_MAX && 1 <= DigitsValue(ks, radix) < Pow(radix, n)
    ensures var k := (if binary then 0 else expn) - frac;
            var b := if binary then expn else 0;
            Exp(radix, k) * Exp(2, b) <= TextValue(ks, radix, frac, expn, binary) <= Exp(radix, k + n) * Exp(2, b)
  {
    hide DigitsValue, Pow, Exp;
    var k, b := (if binary then 0 else expn) - frac, if binary then expn else 0;
    var v := DigitsValue(ks, radix);
    ExpIsPow(radix, n);
    ExpAdd(radix, n, k);
    ExpPositive(radix, k);
    ExpPositive(2, b);
    Grows(1.0, v as real, Exp(radix, k));
    Grows(v as real, Exp(radix, n), Exp(radix, k));
    Grows(Exp(radix, k), Numeral(v, radix, k), Exp(2, b));
    Grows(Numeral(v, radix, k), Exp(radix, k + n), Exp(2, b));
  }

  lemma HugeExponent(ds: seq<nat>, radix: nat, frac: int, expn: int, binary: bool)
    requires 2 <= radix <= RADIX_MAX && DigitsBelow(ds, radix) && |ds| > 0 && ds[0] != 0
    requires binary ==> RadixBits(radix) > 0
    requires 0 <= frac <= TEXT_MAX && expn > 10 * EXPONENT_LIMIT
    ensures CorrectBits(TextValue(Kept(ds, radix), radix, frac, expn, binary), INFINITY_BITS)
  {
    hide DigitsValue, Pow, Exp, Kept, TextValue, CorrectBits;
    KeptRange(ds, radix);
    TextRange(Kept(ds, radix), radix, |ds|, frac, expn, binary);
    ExpZero(2);
    if binary {
      var bits := RadixBits(radix);
      PowerRadix(radix, bits, -frac);
      ExpAdd(2, bits * -frac, expn);
      ExpMonotone(2, 1024, bits * -frac + expn);
    } else {
      LargePower(radix, expn - frac);
    }
    TooLarge(TextValue(Kept(ds, radix), radix, frac, expn, binary));
  }

  lemma LargePower(radix: int, k: int)
    requires radix >= 2 && k >= 1024
    ensures Exp(radix, k) >= Exp(2, 1024)
  {
    hide Exp, Pow;
    ExpIsPow(radix, k);
    ExpIsPow(2, k);
    PowBase(2, radix, k);
    ExpMonotone(2, 1024, k);
  }

  lemma TinyExponent(ds: seq<nat>, radix: nat, frac: int, expn: int, binary: bool)
    requires 2 <= radix <= RADIX_MAX && DigitsBelow(ds, radix) && 0 < |ds| <= TEXT_MAX && ds[0] != 0
    requires binary ==> RadixBits(radix) > 0
    requires 0 <= frac && expn < -10 * EXPONENT_LIMIT
    ensures CorrectBits(TextValue(Kept(ds, radix), radix, frac, expn, binary), 0)
  {
    hide DigitsValue, Pow, Exp, Kept, TextValue, CorrectBits;
    KeptRange(ds, radix);
    TextRange(Kept(ds, radix), radix, |ds|, frac, expn, binary);
    ExpZero(2);
    if binary {
      var bits := RadixBits(radix);
      PowerRadix(radix, bits, |ds| - frac);
      PowerRadix(radix, bits, -frac);
      ExpAdd(2, bits * (|ds| - frac), expn);
      ExpMonotone(2, bits * (|ds| - frac) + expn, -1075);
      PositiveProduct(radix, -frac, expn);
    } else {
      SmallPower(radix, expn - frac + |ds|);
      PositiveProduct(radix, expn - frac, 0);
    }
    TooSmall(TextValue(Kept(ds, radix), radix, frac, expn, binary));
  }

  lemma PositiveProduct(radix: int, k: int, b: int)
    requires radix >= 1
    ensures Exp(radix, k) * Exp(2, b) > 0.0
  {
    hide Exp;
    ExpPositive(radix, k);
    ExpPositive(2, b);
    GrowsStrictly(0.0, Exp(radix, k), Exp(2, b));
  }

  lemma SmallPower(radix: int, k: int)
    requires radix >= 2 && k <= -1075
    ensures Exp(radix, k) <= Exp(2, -1075)
  {
    hide Exp, Pow;
    ExpIsPow(radix, -k);
    ExpIsPow(2, -k);
    PowBase(2, radix, -k);
    ReciprocalOrderWeak(2, -k, radix, -k);
    ExpMonotone(2, k, -1075);
  }

  // ----- the whole -----

  /** Not a number, a float64, or a value that C leaves open because an int overflowed. */
  datatype AtodResult = NotANumber | Double(negative: bool, bits: nat) | Unspecified

  /** The digits of the text from begin to mid are zeros followed by ds, which does not begin with a zero. */
  ghost predicate Significant(s: Source, begin: nat, mid: nat, ds: seq<nat>) {
    && begin <= mid <= |s.text| && DigitsBelow(ds, s.radix) && (|ds| > 0 ==> ds[0] != 0)
    && |ds| <= |DigitsIn(s.text, begin, mid, s.sep)|
    && DigitsIn(s.text, begin, mid, s.sep) == Leading(|DigitsIn(s.text, begin, mid, s.sep)| - |ds|) + ds
  }

  function Leading(n: int): (z: seq<nat>)
    requires n >= 0
    ensures |z| == n
  {
    seq(n, _ => 0)
  }

  /** The number of digits after the point. */
  ghost function FractionDigits(s: Source, begin: nat, mid: nat): int
    requires begin <= mid <= |s.text|
  {
    var point := PointIn(s.text, begin, mid, s.sep);
    if point < 0 then 0 else |DigitsIn(s.text, begin, mid, s.sep)| - point
  }

  /** The exponent written between mid and next. */
  ghost function ExponentValue(s: Source, mid: nat, next: nat): int
    requires ExponentMark(s, mid) ==> ExponentBegin(s, mid) <= next <= |s.text|
  {
    if !ExponentMark(s, mid) then 0
    else
      var v := DigitsValue(DigitsIn(s.text, ExponentBegin(s, mid), next, s.sep), 10);
      if CharAt(s.text, mid + 1) == 45 then 0 - v else v
  }

  ghost predicate BinaryExponent(s: Source, mid: nat) {
    ExponentMark(s, mid) && IsChar(CharAt(s.text, mid), 112, 80)
  }

  /** The bits are those of the number that the text between begin and next denotes. */
  ghost predicate ReadsAs(s: Source, begin: nat, mid: nat, next: nat, ds: seq<nat>, bits: nat) {
    && SourceOk(s) && Significant(s, begin, mid, ds)
    && (ExponentMark(s, mid) ==> ExponentBegin(s, mid) <= next <= |s.text|)
    && if ds == [] then bits == 0
       else CorrectBits(TextValue(Kept(ds, s.radix), s.radix, FractionDigits(s, begin, mid),
                                  ExponentValue(s, mid, next),
                                  BinaryExponent(s, mid)), bits)
  }

  lemma {:induction false} DigitsCounted(s: Source, a: nat, b: nat)
    requires a <= b <= |s.text|
    ensures |DigitsIn(s.text, a, b, s.sep)| <= b - a
    ensures -1 <= PointIn(s.text, a, b, s.sep) <= |DigitsIn(s.text, a, b, s.sep)|
    decreases b
  {
    if a < b { DigitsCounted(s, a, b - 1); }
  }

  /** What the two scanning loops have read. */
  lemma TextRead(s: Source, begin: nat, p0: nat, p: nat, sigPos: nat, dot0: int, dotPos: int, ds: seq<nat>)
    requires SourceOk(s) && ZerosRead(s, begin, p0, sigPos, dot0) && DigitsRead(s, begin, p0, p, dotPos, ds)
    requires |ds| > 0 ==> ds[0] != 0
    ensures Significant(s, begin, p, ds)
    ensures begin <= p <= |s.text| && sigPos + |ds| <= |s.text|
    ensures FractionDigits(s, begin, p) == if dotPos < 0 then 0 else sigPos + |ds| - dotPos
    ensures 0 <= FractionDigits(s, begin, p) <= |s.text|
  {
    hide DigitsIn, PointIn;
    DigitsCounted(s, begin, p);
    var all := DigitsIn(s.text, begin, p, s.sep);
    assert DigitsIn(s.text, begin, p0, s.sep) == Leading(|all| - |ds|);
  }

  /** The digits are zero, or the conversion yields the bits: either way the text reads as these bits. */
  lemma ZeroReads(s: Source, begin: nat, mid: nat, next: nat)
    requires SourceOk(s) && Significant(s, begin, mid, []) && next <= |s.text|
    requires ExponentMark(s, mid) ==> ExponentBegin(s, mid) <= next
    ensures ReadsAs(s, begin, mid, next, [], 0)
  {
  }

  lemma NumberReads(s: Source, begin: nat, mid: nat, next: nat, ds: seq<nat>, frac: int, expn: int, binary: bool,
                    bits: nat)
    requires SourceOk(s) && Significant(s, begin, mid, ds) && |ds| > 0 && next <= |s.text|
    requires ExponentMark(s, mid) ==> ExponentBegin(s, mid) <= next
    requires frac == FractionDigits(s, begin, mid) && expn == ExponentValue(s, mid, next)
             && binary == BinaryExponent(s, mid)
    requires DigitsBelow(ds, s.radix) && CorrectBits(TextValue(Kept(ds, s.radix), s.radix, frac, expn, binary), bits)
    ensures ReadsAs(s, begin, mid, next, ds, bits)
  {
    hide Kept, TextValue, CorrectBits;
  }

  lemma SignificantIs(s: Source, begin: nat, mid: nat, ds: seq<nat>)
    requires Significant(s, begin, mid, ds)
    ensures DigitsBelow(ds, s.radix)
  {
  }

  /** The exponent as a signed number. */
  lemma ExponentIs(s: Source, mid: nat, next: nat, x: Exponent, es: seq<nat>)
    requires SourceOk(s) && mid <= next <= |s.text| && x.Exponent?
    requires !ExponentMark(s, mid) ==> x == Exponent(0, false, false, false) && next == mid
    requires ExponentMark(s, mid)
             ==> && ExponentBegin(s, mid) <= next && es == DigitsIn(s.text, ExponentBegin(s, mid), next, s.sep)
                 && ExponentRead(x, es)
                 && x.negative == (CharAt(s.text, mid + 1) == 45) && x.binary == IsChar(CharAt(s.text, mid), 112, 80)
    ensures x.binary == BinaryExponent(s, mid) && (x.binary ==> RadixBits(s.radix) > 0)
    ensures var v := ExponentValue(s, mid, next);
            && (!x.overflow ==> v == if x.negative then 0 - x.magnitude else x.magnitude)
            && x.overflow == (ExponentSize(v) >= 10 * EXPONENT_LIMIT + 10) && (x.overflow ==> x.negative == (v < 0))
  {
    hide DigitsIn, DigitsValue;
  }

  /** An exponent without digits. */
  ghost predicate BadExponent(s: Source, mid: nat) {
    ExponentMark(s, mid) && ToDigit(CharAt(s.text, ExponentBegin(s, mid))) >= 10
  }

  /**
   * The exponent of the number leaves the range of int while js_atod computes it: the written exponent is not so long
   * that js_atod decides at once for zero or infinity, but the exponent does not fit once the point is accounted for.
   */
  ghost predicate IntOverflow(s: Source, begin: nat, mid: nat, next: nat, ds: seq<nat>) {
    && SourceOk(s) && begin <= mid <= |s.text| && |ds| > 0
    && (ExponentMark(s, mid) ==> ExponentBegin(s, mid) <= next <= |s.text|)
    && ExponentSize(ExponentValue(s, mid, next)) < 10 * EXPONENT_LIMIT + 10
    && var digits := Min(|ds|, ATOD_MAX_DIGITS[s.radix - 2]);
       !ExponentFits(s.radix, digits, FractionDigits(s, begin, mid) - (|ds| - digits), ExponentValue(s, mid, next),
                     BinaryExponent(s, mid))
  }

  /** With an exponent of up to eight digits that does not happen. */
  lemma SmallExponentsFit(s: Source, begin: nat, mid: nat, next: nat, ds: seq<nat>)
    requires Significant(s, begin, mid, ds) && |s.text| <= TEXT_MAX
    requires IntOverflow(s, begin, mid, next, ds)
    ensures !(-100000000 < ExponentValue(s, mid, next) < 100000000)
  {
    hide DigitsIn, PointIn, DigitsValue, ExponentMark;
    DigitsCounted(s, begin, mid);
    MaxScanned(s.radix);
    var digits := Min(|ds|, ATOD_MAX_DIGITS[s.radix - 2]);
    var offset := FractionDigits(s, begin, mid) - (|ds| - digits);
    SmallFits(s.radix, digits, offset, ExponentValue(s, mid, next), BinaryExponent(s, mid));
  }

  lemma SmallFits(radix: int, digits: nat, offset: int, expn: int, binary: bool)
    requires digits <= 80 && -TEXT_MAX <= offset <= TEXT_MAX
    ensures -100000000 < expn < 100000000 ==> ExponentFits(radix, digits, offset, expn, binary)
  {
  }

  /**
   * What js_atod makes of the text from begin on: it reads the longest numeral, whose digits end at mid, and its
   * exponent, if any, and it fails exactly when there are no digits or none in the exponent.
   */
  ghost predicate NumberRead(s: Source, begin: nat, mid: nat, next: nat, ds: seq<nat>, res: AtodResult) {
    && SourceOk(s) && mid == NumeralEnd(s, begin, false)
    && (res.NotANumber? <==> mid == s.start || BadExponent(s, mid))
    && (!res.NotANumber? ==> next == NumberEnd(s, mid))
    && (res.Double? ==> ReadsAs(s, begin, mid, next, ds, res.bits))
    && (!res.NotANumber? ==> Significant(s, begin, mid, ds))
    && (!res.NotANumber? ==> (res.Unspecified? <==> IntOverflow(s, begin, mid, next, ds)))
  }

  /** What js_atod makes of a whole text. */
  ghost predicate Parsed(text: seq<byte>, radix0: nat, flags: Flags, res: AtodResult, next: nat, mid: nat,
                         ds: seq<nat>) {
    && (res.Double? ==> res.negative == (CharAt(text, 0) == 45))
    && match ParsePrefix(text, radix0, flags)
       case Rejected => res == NotANumber
       case Infinite(q) => res.Double? && res.bits == INFINITY_BITS && next == q
       case Numeric(s, begin) => NumberRead(s, begin, mid, next, ds, res)
  }

  /** What js_atod does with the digits and the exponent that it has read. */
  method Finish(r: Mpb, s: Source, x: Exponent, digits: nat, extra: nat, offset: int, negative: bool,
                ghost begin: nat, ghost mid: nat, ghost next: nat, ghost ds: seq<nat>)
    returns (res: AtodResult)
    requires SourceOk(s) && begin <= mid <= next <= |s.text| <= TEXT_MAX
    requires ExponentMark(s, mid) ==> ExponentBegin(s, mid) <= next
    requires r.Valid() && r.Normal() && r.len <= 82 && r.tab.Length >= ATOD_ROOM
    requires Significant(s, begin, mid, ds) && |ds| <= |s.text| && 0 <= FractionDigits(s, begin, mid) <= |s.text|
    requires digits == 0 <==> ds == []
    requires digits == Min(|ds|, ATOD_MAX_DIGITS[s.radix - 2])
    requires digits != 0 ==> DigitsReady(ds, s.radix, digits, extra, r.Val()) && DigitsBelow(ds, s.radix) && ds[0] != 0
                             && digits <= |ds| && FractionDigits(s, begin, mid) == offset + (|ds| - digits)
    requires x.Exponent? && x.binary == BinaryExponent(s, mid) && (x.binary ==> RadixBits(s.radix) > 0)
    requires var v := ExponentValue(s, mid, next);
             && (!x.overflow ==> v == if x.negative then 0 - x.magnitude else x.magnitude)
             && x.overflow == (ExponentSize(v) >= 10 * EXPONENT_LIMIT + 10) && (x.overflow ==> x.negative == (v < 0))
    modifies r`len, r.tab
    ensures res.Double? ==> res.negative == negative && ReadsAs(s, begin, mid, next, ds, res.bits)
    ensures res.Unspecified? <==> IntOverflow(s, begin, mid, next, ds)
    ensures !res.NotANumber?
  {
    hide Significant, ReadsAs, DigitsIn, PointIn, DigitsValue, DigitsBelow, Kept, TextValue, CorrectBits, ExponentMark,
      ExponentBegin, BinaryExponent, DigitsReady, NormalLimbs, Value, FractionDigits, ExponentValue, ExponentFits;
    ghost var frac, v := FractionDigits(s, begin, mid), ExponentValue(s, mid, next);
    if digits == 0 {
      ZeroReads(s, begin, mid, next);
      return Double(negative, 0);
    }
    if x.overflow {
      if x.negative {
        TinyExponent(ds, s.radix, frac, v, x.binary);
        NumberReads(s, begin, mid, next, ds, frac, v, x.binary, 0);
        return Double(negative, 0);
      } else {
        HugeExponent(ds, s.radix, frac, v, x.binary);
        NumberReads(s, begin, mid, next, ds, frac, v, x.binary, INFINITY_BITS);
        return Double(negative, INFINITY_BITS);
      }
    }
    var expn := if x.negative then 0 - x.magnitude else x.magnitude;
    var c := Convert(r, s.radix, digits, extra, offset, expn, x.binary, ds);
    if c.Overflowed? {
      return Unspecified;
    }
    NumberReads(s, begin, mid, next, ds, frac, v, x.binary, c.a);
    res := Double(negative, c.a);
  }

  /** The part of js_atod after the sign and the prefix. */
  method AtodNumber(r: Mpb, s: Source, begin: nat, negative: bool)
    returns (res: AtodResult, next: nat, ghost mid: nat, ghost ds: seq<nat>)
    requires SourceOk(s) && s.start <= begin <= |s.text| <= TEXT_MAX
    requires r.tab.Length >= ATOD_ROOM
    modifies r`len, r.tab
    ensures NumberRead(s, begin, mid, next, ds, res) && (res.Double? ==> res.negative == negative)
  {
    hide Significant, ReadsAs, DigitsIn, PointIn, DigitsValue, DigitsBelow, Kept, TextValue, CorrectBits, ExponentMark,
      ExponentBegin, BinaryExponent, ZerosRead, DigitsRead, ExponentRead, DigitsReady, NormalLimbs, Value, ToDigit,
      FractionDigits, ExponentValue, ExponentFits, BadExponent, NumeralEnd, DigitsEnd, NumberRead, NumberEnd,
      IntOverflow;
    r.len, r.tab[0] := 1, 0;
    OneLimb(r.tab[..1]);
    var p, sigPos, dot0 := SkipZeros(s, begin);
    var pos, dotPos, digits, extra;
    ghost var p0 := p;
    p, pos, dotPos, digits, extra, ds := ScanDigits(s, r, begin, p, sigPos, dot0);
    mid := p;
    TextRead(s, begin, p0, p, sigPos, dot0, dotPos, ds);
    SignificantIs(s, begin, p, ds);
    MaxScanned(s.radix);
    if digits != 0 && dotPos < 0 {
      dotPos := pos;
    }
    if digits != 0 {
      IsReady(ds, s.radix, digits, extra, r.Val());
    }
    var offset := sigPos + digits - dotPos;
    var x, q; ghost var es;
    x, q, es := ScanExponent(s, p);
    next := q;
    MarkAfterStart(s, p);
    if x.Missing? {
      NumberIsRead(s, begin, mid, next, ds, NotANumber);
      return NotANumber, next, mid, ds;
    }
    ExponentIs(s, p, q, x, es);
    if next == s.start {
      NumberIsRead(s, begin, mid, next, ds, NotANumber);
      return NotANumber, next, mid, ds;
    }
    res := Finish(r, s, x, digits, extra, offset, negative, begin, mid, next, ds);
    NumberIsRead(s, begin, mid, next, ds, res);
  }

  lemma NumberIsRead(s: Source, begin: nat, mid: nat, next: nat, ds: seq<nat>, res: AtodResult)
    requires SourceOk(s) && mid == NumeralEnd(s, begin, false)
    requires res.NotANumber? <==> mid == s.start || BadExponent(s, mid)
    requires !res.NotANumber? ==> next == NumberEnd(s, mid) && Significant(s, begin, mid, ds)
    requires res.Double? ==> ReadsAs(s, begin, mid, next, ds, res.bits)
    requires !res.NotANumber? ==> (res.Unspecified? <==> IntOverflow(s, begin, mid, next, ds))
    ensures NumberRead(s, begin, mid, next, ds, res)
  {
    hide NumeralEnd, BadExponent, NumberEnd, Significant, ReadsAs, IntOverflow;
  }

  lemma MarkAfterStart(s: Source, mid: nat)
    ensures ExponentMark(s, mid) ==> mid > s.start && NumberEnd(s, mid) > mid
    ensures !ExponentMark(s, mid) ==> NumberEnd(s, mid) == mid && !BadExponent(s, mid)
    ensures BadExponent(s, mid) <==> ExponentMark(s, mid) && ToDigit(CharAt(s.text, ExponentBegin(s, mid))) >= 10
  {
  }

  lemma IsReady(ds: seq<nat>, radix: nat, digits: nat, extra: nat, w: nat)
    requires 2 <= radix <= RADIX_MAX && DigitsBelow(ds, radix) && |ds| > 0 && ds[0] != 0
    requires digits == Min(|ds|, ATOD_MAX_DIGITS[radix - 2])
    requires extra == 0 <==> forall i :: digits <= i < |ds| ==> ds[i] == 0
    requires w == DigitsValue(ds[..digits], radix)
    ensures DigitsReady(ds, radix, digits, extra, w)
  {
  }

  /**
   * js_atod: the float64 nearest to the number that the text denotes, ties to even, with subnormal numbers, zero and
   * infinity at the ends of the range.
   */
  method Atod(r: Mpb, text: seq<byte>, radix0: nat, flags: Flags)
    returns (res: AtodResult, next: nat, ghost mid: nat, ghost ds: seq<nat>)
    requires radix0 == 0 || 2 <= radix0 <= RADIX_MAX
    requires |text| <= TEXT_MAX && r.tab.Length >= ATOD_ROOM
    modifies r`len, r.tab
    ensures Parsed(text, radix0, flags, res, next, mid, ds)
  {
    hide ParsePrefix, NumberRead;
    mid, ds, next := 0, [], 0;
    PrefixOk(text, radix0, flags);
    var x, negative := ScanPrefix(text, radix0, flags);
    match x
    case Rejected =>
      res := NotANumber;
    case Infinite(q) =>
      res, next := Double(negative, INFINITY_BITS), q;
    case Numeric(s, begin) =>
      res, next, mid, ds := AtodNumber(r, s, begin, negative);
  }
}
