/** js_dtoa: from the bits of a float64 to its text. */
module DtoaPrint {
  import opened Bytes
  import opened Powers
  import opened Limbs
  import opened Reals
  import opened Rounding
  import opened Bignum
  import opened DtoaTables
  import opened Scaling
  import opened Float64
  import opened DtoaReadBack
  import opened DtoaLogTable
  import opened DtoaRadixTables
  import opened DtoaShortest
  import opened DtoaSearch
  import opened DtoaFreeFormat
  import opened DtoaFixed
  import opened DtoaBits
  import opened DtoaOutput
  import opened DtoaText
  import opened AtodDigits

  datatype Format = Free | Fixed | Frac

  /** The flags of js_dtoa and its number of digits, which the free format ignores. */
  datatype Style = Style(format: Format, nDigits: nat, mode: ExpMode, minusZero: bool)

  predicate StyleOk(style: Style) {
    style.nDigits <= DIGITS_MAX && (style.format == Fixed ==> style.nDigits >= 1)
  }

  const NAN_TEXT: seq<byte> := [78, 97, 78]
  const INFINITY_WORD: seq<byte> := [73, 110, 102, 105, 110, 105, 116, 121]

  function SignText(negative: bool): (t: seq<byte>)
    ensures |t| == if negative then 1 else 0
  {
    if negative then [45] else []
  }

  /** The digit count above which the automatic mode writes an exponent. */
  function ExpMax(radix: nat, style: Style): int
    requires 2 <= radix <= RADIX_MAX
  {
    if style.format == Fixed then style.nDigits else DTOA_MAX_DIGITS[radix - 2] + 4
  }

  /** Integers below 2^53 take a shortcut in the free format. */
  ghost predicate SmallInteger(m: nat, e: int) {
    1 <= e <= 53 && Pow(2, 53 - e) > 0 && m % Pow(2, 53 - e) == 0
  }

  /** The digits mant, p of them with the point after exp of them, are the shortest ones that read back. */
  ghost predicate Shortest(m: nat, e: int, radix: nat, mant: nat, p: nat, exp: int)
    requires 2 <= radix <= RADIX_MAX
  {
    && 1 <= p <= DTOA_MAX_DIGITS[radix - 2] && HasDigits(mant, radix, p) && mant % radix != 0
    && RoundsTo(Numeral(mant, radix, exp - p), NearestEven, m, e)
    && Nearest(DoubleValue(m, e), radix, p, Numeral(mant, radix, exp - p))
    && ShorterOnlyAbove(m, e, radix, p) && FewestUnlessMissed(m, e, radix, p)
    && -1200 <= exp <= 1200
  }

  /** v / radix^n with exactly n digits after the point. */
  function FracText(v: nat, radix: nat, n: nat): seq<byte>
    requires 2 <= radix <= RADIX_MAX
  {
    IntegerText(Higher(v, radix, n), radix) + if n > 0 then [DOT] + DigitText(v, radix, n) else []
  }

  ghost predicate FreeText(m: nat, e: int, radix: nat, mode: ExpMode, expMax: int, body: seq<byte>)
    requires 2 <= radix <= RADIX_MAX
  {
    if SmallInteger(m, e) && mode != Enabled then body == IntegerText(m / Pow(2, 53 - e), radix)
    else exists mant: nat, p: nat, exp: int ::
      Shortest(m, e, radix, mant, p, exp) && body == NumberText(mant, radix, p, exp, expMax, mode)
  }

  ghost predicate FixedText(m: nat, e: int, radix: nat, p: nat, mode: ExpMode, expMax: int, body: seq<byte>)
    requires 2 <= radix <= RADIX_MAX
  {
    exists v: nat, exp: int ::
      v == RoundedAt(m, e, radix, p - exp) && Candidate(DoubleValue(m, e), radix, p, exp, v)
      && body == NumberText(v, radix, p, exp, expMax, mode)
  }

  /** What the magnitude m * 2^(e-53) is printed as. */
  ghost predicate BodyText(m: nat, e: int, radix: nat, style: Style, body: seq<byte>)
    requires 2 <= radix <= RADIX_MAX
  {
    match style.format
    case Free => FreeText(m, e, radix, style.mode, ExpMax(radix, style), body)
    case Fixed => FixedText(m, e, radix, style.nDigits, style.mode, ExpMax(radix, style), body)
    case Frac =>
      exists v: nat :: v == RoundedAt(m, e, radix, style.nDigits) && body == FracText(v, radix, style.nDigits)
  }

  function ZeroDigits(style: Style): nat {
    match style.format
    case Free => 1
    case Fixed => style.nDigits
    case Frac => style.nDigits + 1
  }

  ghost predicate Printed(bits: nat, radix: nat, style: Style, text: seq<byte>)
    requires 2 <= radix <= RADIX_MAX && StyleOk(style)
  {
    var negative := bits / TWO63 == 1;
    match Decode(bits % TWO63)
    case NaN => text == NAN_TEXT
    case Infinite => text == SignText(negative) + INFINITY_WORD
    case Zero => text == SignText(negative && style.minusZero)
      + NumberText(0, radix, ZeroDigits(style), 1, ExpMax(radix, style), style.mode)
    case Finite(m, e) =>
      var sign := SignText(negative);
      |sign| <= |text| && text[..|sign|] == sign && BodyText(m, e, radix, style, text[|sign|..])
  }

  // ----- the format with digits after the point -----

  /** The integer part has one digit fewer than the code provides for, or as many. */
  lemma IntegerDigits(m: nat, e: int, radix: nat, n: nat, exp0: int)
    requires radix >= 2 && IsDouble(m, e) && FirstExponent(radix, e, exp0)
    ensures var k := if exp0 >= 1 then exp0 + 1 else 1;
            var v := RoundedAt(m, e, radix, n);
            && 0 <= v < Pow(radix, k + n)
            && (k > 1 ==> Pow(radix, k - 2 + n) <= v)
  {
    hide Exp, Moved, Round, Pow, DoubleValue, IsDouble, FirstExponent;
    var d := DoubleValue(m, e);
    var k: nat := if exp0 >= 1 then exp0 + 1 else 1;
    DoubleFits(m, e);
    FracBelow(d, radix, n, e, exp0, k);
    FracAbove(d, radix, n, e, exp0);
    FracNonnegative(d, radix, n, e);
    assert exp0 >= 1 ==> k - 2 + n == exp0 - 1 + n;
  }

  lemma FracNonnegative(d: real, radix: nat, n: nat, e: int)
    requires radix >= 2 && HasExponent(d, e)
    ensures Round(Moved(d, radix, n), NearestAway) >= 0
  {
    hide Exp, Round;
    ExpPositive(2, e - 1);
    ExpPositive(radix, n);
    Grows(0.0, d, Exp(radix, n));
    RoundMonotone(0.0, Moved(d, radix, n), NearestAway);
    RoundInteger(0, NearestAway);
  }

  lemma FracBelow(d: real, radix: nat, n: nat, e: int, exp0: int, k: nat)
    requires radix >= 2 && HasExponent(d, e) && FirstExponent(radix, e, exp0) && k >= 1 && k >= exp0 + 1
    ensures Round(Moved(d, radix, n), NearestAway) < Pow(radix, k + n)
  {
    hide Exp, Moved, Round, Pow, FirstExponent;
    FirstExponentIs(radix, e, exp0);
    var y := Moved(d, radix, n);
    var q: nat := k - 1 + n;
    PowPositive(radix, q);
    PowStepOf(radix, q);
    ExpIsPow(radix, q);
    ExpMonotone(radix, exp0 + n, q);
    if d < Exp(radix, exp0) {
      MovedOrder(d, radix, n, exp0);
      RoundBelow(y, Pow(radix, q));
      MulMonotone(2, radix, Pow(radix, q), Pow(radix, q));
    } else {
      RadixAboveTwo(d, radix, e, exp0);
      UpperMoved(d, radix, n, exp0);
      RoundBelow(y, 2 * Pow(radix, q));
      MulMonotone(3, radix, Pow(radix, q), Pow(radix, q));
    }
  }

  lemma RoundBelow(y: real, b: int)
    requires y <= b as real
    ensures Round(y, NearestAway) <= b
  {
    hide Round;
    RoundMonotone(y, b as real, NearestAway);
    RoundInteger(b, NearestAway);
  }

  lemma FracAbove(d: real, radix: nat, n: nat, e: int, exp0: int)
    requires radix >= 2 && HasExponent(d, e) && FirstExponent(radix, e, exp0)
    ensures exp0 >= 1 ==> Pow(radix, exp0 - 1 + n) <= Round(Moved(d, radix, n), NearestAway)
  {
    hide Exp, Moved, Round, Pow, FirstExponent;
    FirstExponentIs(radix, e, exp0);
    if exp0 >= 1 {
      var q: nat := exp0 - 1 + n;
      MovedOrder(d, radix, n, exp0 - 1);
      ExpIsPow(radix, q);
      RoundMonotone(Pow(radix, q) as real, Moved(d, radix, n), NearestAway);
      RoundInteger(Pow(radix, q), NearestAway);
    }
  }

  /** k digits before the point and n after it, without a leading zero that is followed by a digit. */
  lemma FracDigits(v: nat, radix: nat, k: nat, n: nat)
    requires 2 <= radix <= RADIX_MAX && k >= 1 && v < Pow(radix, k + n) && (k > 1 ==> Pow(radix, k - 2 + n) <= v)
    ensures var t := Dotted(DigitText(v, radix, k + n), k);
            var w := Higher(v, radix, n);
            && t[0] == DigitChar(Higher(w, radix, k - 1) % radix)
            && (if k > 1 && t[0] == ZERO then FracText(v, radix, n) == t[1..] else FracText(v, radix, n) == t)
            && (k > 1 ==> t[1] != DOT) && (k == 1 && n > 0 ==> t[1] == DOT)
  {
    hide Pow, DigitText, Higher;
    var w := Higher(v, radix, n);
    var t := Dotted(DigitText(v, radix, k + n), k);
    DigitTextSplit(v, radix, k, n);
    var head, tail := DigitText(w, radix, k), DigitText(v, radix, n);
    assert DigitText(v, radix, k + n) == head + tail;
    assert (head + tail)[..k] == head && (head + tail)[k..] == tail;
    assert t == head + (if n > 0 then [DOT] + tail else []);
    var m: nat := k - 1;
    DigitTextSplit(w, radix, 1, m);
    OneDigitText(Higher(w, radix, m), radix);
    assert head[0] == DigitChar(Higher(w, radix, m) % radix);
    FracCount(v, radix, k, n);
    if k > 1 {
      DigitTextSplit(w, radix, 2, k - 2);
      SecondDigit(w, radix, k);
    }
    assert t[1..] == head[1..] + (if n > 0 then [DOT] + tail else []);
  }

  lemma SecondDigit(w: nat, radix: nat, k: nat)
    requires 2 <= radix <= RADIX_MAX && k > 1
    ensures DigitText(w, radix, k)[1] != DOT
  {
  }

  /** The number of digits before the point. */
  lemma FracCount(v: nat, radix: nat, k: nat, n: nat)
    requires 2 <= radix <= RADIX_MAX && k >= 1 && v < Pow(radix, k + n) && (k > 1 ==> Pow(radix, k - 2 + n) <= v)
    ensures var w := Higher(v, radix, n);
            var first := Higher(w, radix, k - 1) % radix;
            && first < 36
            && DigitCount(w, radix) == (if k > 1 && first == 0 then k - 1 else k)
            && (DigitChar(first) == ZERO <==> first == 0)
  {
    hide Pow, Higher, DigitCount;
    var w := Higher(v, radix, n);
    var m: nat := k - 1;
    HigherLess(v, radix, k, n);
    HigherLess(w, radix, 1, m);
    PowZeroOne(radix);
    if k > 1 { HigherAtLeast(v, radix, k - 2, n); }
    SmallDivision(Higher(w, radix, m), radix);
    if Higher(w, radix, m) == 0 {
      HigherZero(w, radix, m);
      if k > 1 { CountIs(w, radix, k - 1); } else { CountIs(w, radix, 1); }
    } else {
      HigherBounds(w, radix, m);
      PowPositive(radix, m);
      MulMonotoneLeft(Pow(radix, m), 1, Higher(w, radix, m));
      CountIs(w, radix, k);
    }
  }

  lemma HigherLess(v: nat, radix: nat, k: nat, n: nat)
    requires radix >= 2 && v < Pow(radix, k + n)
    ensures Higher(v, radix, n) < Pow(radix, k)
  {
    hide Pow;
    PowAdd(radix, n, k);
    PowPositive(radix, n);
    QuotientBelow(v, Pow(radix, n), Pow(radix, k));
  }

  lemma HigherAtLeast(v: nat, radix: nat, k: nat, n: nat)
    requires radix >= 2 && Pow(radix, k + n) <= v
    ensures Pow(radix, k) <= Higher(v, radix, n)
  {
    hide Pow, Higher;
    PowAdd(radix, n, k);
    HigherBounds(v, radix, n);
    if Higher(v, radix, n) + 1 <= Pow(radix, k) {
      MulMonotoneLeft(Pow(radix, n), Higher(v, radix, n) + 1, Pow(radix, k));
    }
  }

  lemma HigherZero(w: nat, radix: nat, m: nat)
    requires radix >= 2 && Higher(w, radix, m) == 0
    ensures w < Pow(radix, m)
  {
    hide Pow, Higher;
    HigherBounds(w, radix, m);
    assert Pow(radix, m) * 1 == Pow(radix, m);
  }

  /** memmove of the text at q + 1 to q. */
  method RemoveFirst(buf: array<byte>, q: nat, len: nat)
    requires len >= 1 && q + len <= buf.Length
    modifies buf
    ensures buf[..q + len - 1] == old(buf[..q]) + old(buf[q + 1..q + len])
  {
    ghost var was := buf[..];
    var i := 0;
    while i < len - 1
      invariant 0 <= i <= len - 1 && |buf[..]| == |was|
      invariant buf[..q + i] == was[..q] + was[q + 1..q + 1 + i] && buf[q + i + 1..] == was[q + i + 1..]
    {
      assert buf[q + i + 1] == buf[q + i + 1..][0] == was[q + i + 1..][0] == was[q + i + 1];
      buf[q + i] := buf[q + i + 1];
      assert buf[..q + i + 1] == buf[..q + i] + [was[q + i + 1]];
      assert was[q + 1..q + 2 + i] == was[q + 1..q + 1 + i] + [was[q + i + 1]];
      assert buf[q + i + 2..] == buf[q + i + 1..][1..] && was[q + i + 2..] == was[q + i + 1..][1..];
      i := i + 1;
    }
  }

  const BUFFER_ROOM: int := 2000

  /** The format with digits after the point. */
  method PutFrac(buf: array<byte>, q: nat, tmp1: Mpb, m: nat, e: int, radix: nat, nDigits: nat, exp0: int)
    returns (end: nat)
    requires 2 <= radix <= RADIX_MAX && IsDouble(m, e) && -1073 <= e <= 1024 && FirstExponent(radix, e, exp0)
    requires nDigits <= DIGITS_MAX && tmp1.tab.Length >= DTOA_ROOM && q + BUFFER_ROOM <= buf.Length + 1
    modifies buf, tmp1`len, tmp1.tab
    ensures q <= end <= buf.Length && buf[..q] == old(buf[..q])
    ensures exists v: nat :: v == RoundedAt(m, e, radix, nDigits) && buf[q..end] == FracText(v, radix, nDigits)
  {
    hide Pow, IsDouble, FirstExponent, RoundedAt, Value, NormalLimbs, FracText;
    FracFormat(tmp1, m, e, radix, nDigits);
    ExponentBound(radix, e, exp0);
    IntegerDigits(m, e, radix, nDigits, exp0);
    var k := if exp0 + 1 >= 1 then exp0 + 1 else 1;
    ghost var v := tmp1.Val();
    end := PutTrimmed(buf, q, tmp1, radix, k, nDigits);
    assert v == RoundedAt(m, e, radix, nDigits) && buf[q..end] == FracText(v, radix, nDigits);
  }

  /** A number with k digits before the point, where one of them may be a zero too many. */
  method PutTrimmed(buf: array<byte>, q: nat, a: Mpb, radix: nat, k: nat, n: nat) returns (end: nat)
    requires 2 <= radix <= RADIX_MAX && k >= 1 && q + k + n + 1 <= buf.Length
    requires a.Valid() && a.Normal() && a.Room(1)
    requires a.Val() < Pow(radix, k + n) && (k > 1 ==> Pow(radix, k - 2 + n) <= a.Val())
    modifies buf, a`len, a.tab
    ensures q <= end <= buf.Length && buf[..q] == old(buf[..q])
    ensures buf[q..end] == FracText(old(a.Val()), radix, n)
  {
    hide Pow, DigitText, Dotted, Value, NormalLimbs, FracText, Trimmed;
    ghost var was := buf[..];
    ghost var t := Dotted(DigitText(a.Val(), radix, k + n), k);
    FracTrimmed(a.Val(), radix, k, n);
    var len := OutputDigits(buf, q, a, radix, k + n, k);
    TextAt(buf[..], was, q, t);
    len := TrimZero(buf, q, len);
    end := q + len;
  }

  lemma FracTrimmed(v: nat, radix: nat, k: nat, n: nat)
    requires 2 <= radix <= RADIX_MAX && k >= 1 && v < Pow(radix, k + n) && (k > 1 ==> Pow(radix, k - 2 + n) <= v)
    ensures FracText(v, radix, n) == Trimmed(Dotted(DigitText(v, radix, k + n), k))
  {
    hide Pow, DigitText, FracText, Higher;
    FracDigits(v, radix, k, n);
  }

  /** t without a leading zero that is followed by a digit. */
  function Trimmed(t: seq<byte>): seq<byte>
    requires |t| >= 1
  {
    if t[0] == ZERO && |t| >= 2 && t[1] != DOT then t[1..] else t
  }

  /** Removes a leading zero that is followed by a digit. */
  method TrimZero(buf: array<byte>, q: nat, len0: nat) returns (len: nat)
    requires len0 >= 1 && q + len0 <= buf.Length
    modifies buf
    ensures len <= len0 && buf[..q] == old(buf[..q])
    ensures buf[q..q + len] == Trimmed(old(buf[q..q + len0]))
  {
    len := len0;
    ghost var was, t := buf[..], buf[q..q + len0];
    assert buf[q] == t[0] && (len0 >= 2 ==> buf[q + 1] == t[1]);
    if buf[q] == ZERO && len >= 2 && buf[q + 1] != DOT {
      RemoveFirst(buf, q, len);
      len := len - 1;
      assert was[q + 1..q + len0] == t[1..];
      TextAt(buf[..], was, q, t[1..]);
    }
  }

  /** memcpy of a constant text. */
  method PutWord(buf: array<byte>, q: nat, word: seq<byte>)
    requires q + |word| <= buf.Length
    modifies buf
    ensures buf[..q + |word|] == old(buf[..q]) + word
  {
    var i := 0;
    while i < |word|
      invariant 0 <= i <= |word| && buf[..q + i] == old(buf[..q]) + word[..i]
    {
      buf[q + i] := word[i];
      assert buf[..q + i + 1] == buf[..q + i] + [word[i]];
      assert word[..i + 1] == word[..i] + [word[i]];
      i := i + 1;
    }
    assert word[..i] == word;
  }

  lemma TextAt(now: seq<byte>, was: seq<byte>, q: nat, t: seq<byte>)
    requires q <= |was| && q + |t| <= |now| && now[..q + |t|] == was[..q] + t
    ensures now[q..q + |t|] == t && now[..q] == was[..q]
  {
    assert now[..q] == now[..q + |t|][..q];
    assert now[q..q + |t|] == now[..q + |t|][q..];
  }

  lemma TextFrom(now: seq<byte>, was: seq<byte>, q: nat, end: nat, t: seq<byte>)
    requires q <= |was| && q <= end <= |now| && now[..end] == was[..q] + t
    ensures now[q..end] == t && now[..q] == was[..q] && end == q + |t|
  {
    TextAt(now, was, q, t);
  }

  /** The shortcut for small integers. */
  method PutSmallInteger(buf: array<byte>, q: nat, m: nat, e: int, radix: nat) returns (end: nat)
    requires 2 <= radix <= RADIX_MAX && SmallInteger(m, e) && m < TWO53 && q + 64 <= buf.Length
    modifies buf
    ensures q <= end <= buf.Length && buf[..q] == old(buf[..q]) && m / Pow(2, 53 - e) >= 0
    ensures buf[q..end] == IntegerText(m / Pow(2, 53 - e), radix)
  {
    hide Pow, IntegerText, DigitCount;
    ghost var was := buf[..];
    DivideExactly(m, Pow(2, 53 - e));
    QuotientAtMost(m, Pow(2, 53 - e));
    var n := m / Pow(2, 53 - e);
    var len := U64ToARadix(buf, q, n, radix);
    end := q + len;
    TextFrom(buf[..], was, q, end, IntegerText(n, radix));
  }

  /** The free format with its search. */
  method PutFree(buf: array<byte>, q: nat, tmp1: Mpb, m: nat, e: int, radix: nat, mode: ExpMode) returns (end: nat)
    requires 2 <= radix <= RADIX_MAX && IsDouble(m, e) && -1073 <= e <= 1024
    requires tmp1.tab.Length >= DTOA_ROOM && q + BUFFER_ROOM <= buf.Length + 1
    modifies buf, tmp1`len, tmp1.tab
    ensures q <= end <= buf.Length && buf[..q] == old(buf[..q])
    ensures exists mant: nat, p: nat, exp: int ::
              Shortest(m, e, radix, mant, p, exp)
              && buf[q..end] == NumberText(mant, radix, p, exp, DTOA_MAX_DIGITS[radix - 2] + 4, mode)
  {
    hide IsDouble, NumberText, Value, NormalLimbs, RoundsTo, Nearest, ShorterOnlyAbove, FewestUnlessMissed, Symmetric,
      Numeral, DoubleValue, Pow;
    ghost var was := buf[..];
    var mant, p, exp := FreeFormat(tmp1, m, e, radix);
    MaxDigits(radix);
    assert p >= 1 by { CandidateNonempty(mant, radix, p); }
    var expMax := DTOA_MAX_DIGITS[radix - 2] + 4;
    MagnitudeBound(exp);
    end := PutNumber(buf, q, tmp1, radix, p, exp, expMax, mode);
    TextFrom(buf[..], was, q, end, NumberText(mant, radix, p, exp, expMax, mode));
    assert Shortest(m, e, radix, mant, p, exp);
  }

  lemma CandidateNonempty(n: int, radix: int, p: nat)
    requires HasDigits(n, radix, p)
    ensures p >= 1
  {
  }

  lemma MagnitudeBound(exp: int)
    ensures -1200 <= exp <= 1200 ==> Magnitude(exp) <= 1200
  {
  }

  /** The format with a number of significant digits. */
  method PutFixed(buf: array<byte>, q: nat, tmp1: Mpb, mantMax: Mpb, m: nat, e: int, radix: nat, p: nat, exp0: int,
                  mode: ExpMode)
    returns (end: nat)
    requires 2 <= radix <= RADIX_MAX && IsDouble(m, e) && -1073 <= e <= 1024 && FirstExponent(radix, e, exp0)
    requires 1 <= p <= DIGITS_MAX && tmp1.tab.Length >= DTOA_ROOM && mantMax.tab.Length >= 200
    requires mantMax != tmp1 && mantMax.tab != tmp1.tab && q + BUFFER_ROOM <= buf.Length + 1
    modifies buf, tmp1`len, tmp1.tab, mantMax`len, mantMax.tab
    ensures q <= end <= buf.Length && buf[..q] == old(buf[..q])
    ensures FixedText(m, e, radix, p, mode, p, buf[q..end])
  {
    hide IsDouble, FirstExponent, NumberText, Value, NormalLimbs, Candidate, DoubleValue, Pow, RoundedAt;
    ghost var was := buf[..];
    ExponentBound(radix, e, exp0);
    var exp := FixedFormat(tmp1, mantMax, m, e, radix, p, exp0);
    ghost var v := tmp1.Val();
    MagnitudeBound(exp);
    end := PutNumber(buf, q, tmp1, radix, p, exp, p, mode);
    TextFrom(buf[..], was, q, end, NumberText(v, radix, p, exp, p, mode));
    assert v == RoundedAt(m, e, radix, p - exp);
  }

  /** A finite nonzero magnitude. */
  method PutFinite(buf: array<byte>, q: nat, tmp1: Mpb, mantMax: Mpb, m: nat, e: int, radix: nat, style: Style)
    returns (end: nat)
    requires 2 <= radix <= RADIX_MAX && IsDouble(m, e) && -1073 <= e <= 1024 && StyleOk(style)
    requires tmp1.tab.Length >= DTOA_ROOM && mantMax.tab.Length >= 200
    requires mantMax != tmp1 && mantMax.tab != tmp1.tab && q + BUFFER_ROOM <= buf.Length + 1
    modifies buf, tmp1`len, tmp1.tab, mantMax`len, mantMax.tab
    ensures q <= end <= buf.Length && buf[..q] == old(buf[..q])
    ensures BodyText(m, e, radix, style, buf[q..end])
  {
    hide IsDouble, FirstExponent, NumberText, IntegerText, FracText, Shortest, FixedText, RoundedAt, Pow, FloorLog;
    DoubleFits(m, e);
    if style.format == Free && style.mode != Enabled && 1 <= e <= 53 {
      PowPositive(2, 53 - e);
      if m % Pow(2, 53 - e) == 0 {
        end := PutSmallInteger(buf, q, m, e, radix);
        return;
      }
    }
    match style.format
    case Free =>
      end := PutFree(buf, q, tmp1, m, e, radix, style.mode);
    case Fixed =>
      var exp0 := FirstExponentOf(e, radix);
      end := PutFixed(buf, q, tmp1, mantMax, m, e, radix, style.nDigits, exp0, style.mode);
    case Frac =>
      var exp0 := FirstExponentOf(e, radix);
      end := PutFrac(buf, q, tmp1, m, e, radix, style.nDigits, exp0);
  }

  /** E = 1 + mul_log2_radix(e - 1, radix). */
  method FirstExponentOf(e: int, radix: nat) returns (exp0: int)
    requires 2 <= radix <= RADIX_MAX && -1073 <= e <= 1024
    ensures FirstExponent(radix, e, exp0)
  {
    hide FloorLog;
    var log := MulLog2Radix(e - 1, radix);
    exp0 := 1 + log;
    IsFirstExponent(radix, e, exp0);
  }

  /** js_dtoa. */
  method JsDtoa(buf: array<byte>, bits: nat, radix: nat, style: Style, tmp1: Mpb, mantMax: Mpb) returns (len: nat)
    requires bits < 2 * TWO63 && 2 <= radix <= RADIX_MAX && StyleOk(style)
    requires tmp1.tab.Length >= DTOA_ROOM && mantMax.tab.Length >= 200 && buf.Length >= BUFFER_ROOM
    requires mantMax != tmp1 && mantMax.tab != tmp1.tab
    modifies buf, tmp1`len, tmp1.tab, mantMax`len, mantMax.tab
    ensures len <= buf.Length && Printed(bits, radix, style, buf[..len])
  {
    hide IsDouble, NumberText, BodyText, Decode, Value, NormalLimbs;
    var negative := bits / TWO63 == 1;
    var q := 0;
    DecodedIsDouble(bits % TWO63);
    match Decode(bits % TWO63)
    case NaN =>
      PutWord(buf, 0, NAN_TEXT);
      len := 3;
    case Infinite =>
      if negative {
        PutByte(buf, q, 45);
        q := q + 1;
      }
      PutWord(buf, q, INFINITY_WORD);
      len := q + 8;
    case Zero =>
      tmp1.len, tmp1.tab[0] := 1, 0;
      OneLimb(tmp1.tab[..1]);
      if negative && style.minusZero {
        PutByte(buf, q, 45);
        q := q + 1;
      }
      assert buf[..q] == SignText(negative && style.minusZero);
      len := PutNumber(buf, q, tmp1, radix, ZeroDigits(style), 1, ExpMax(radix, style), style.mode);
    case Finite(m, e) =>
      if negative {
        PutByte(buf, q, 45);
        q := q + 1;
      }
      assert buf[..q] == SignText(negative);
      len := PutFinite(buf, q, tmp1, mantMax, m, e, radix, style);
      assert buf[..len][..q] == buf[..q] && buf[..len][q..] == buf[q..len];
  }
}
