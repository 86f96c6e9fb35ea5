/** The digit scanner of js_atod: the digits of a numeral, gathered limb by limb into a bignum. */
module AtodDigits {
  import opened Bytes
  import opened Powers
  import opened Bits
  import opened Limbs
  import opened Bignum
  import opened DtoaTables
  import opened Scaling
  import opened RadixScaling

  const NO_SEPARATOR: int := 256
  const UNDERSCORE: int := 95
  const DOT: int := 46
  const ZERO: int := 48

  /** The byte at p, or the terminating zero. */
  function CharAt(s: seq<byte>, p: nat): int {
    if p < |s| then s[p] else 0
  }

  function ToDigit(c: int): (d: nat)
    ensures d <= 36
  {
    if 48 <= c <= 57 then c - 48
    else if 65 <= c <= 90 then c - 65 + 10
    else if 97 <= c <= 122 then c - 97 + 10
    else 36
  }

  /** The digits of the text from a to b, without the point and the separators. */
  function DigitsIn(s: seq<byte>, a: nat, b: nat, sep: int): (ds: seq<nat>)
    requires a <= b <= |s|
    decreases b
  {
    if a == b then []
    else
      var ds := DigitsIn(s, a, b - 1, sep);
      if s[b - 1] == DOT || s[b - 1] == sep then ds else ds + [ToDigit(s[b - 1])]
  }

  /** The number of digits before the point, or -1 when there is no point. */
  function PointIn(s: seq<byte>, a: nat, b: nat, sep: int): int
    requires a <= b <= |s|
    decreases b
  {
    if a == b then -1
    else
      var r := PointIn(s, a, b - 1, sep);
      if r < 0 && s[b - 1] == DOT then |DigitsIn(s, a, b - 1, sep)| else r
  }

  function DigitsValue(ds: seq<nat>, radix: nat): (v: nat)
  {
    if ds == [] then 0
    else
      var v := DigitsValue(ds[..|ds| - 1], radix);
      MulMonotone(0, v, 0, radix);
      v * radix + ds[|ds| - 1]
  }

  lemma DigitsSnoc(ds: seq<nat>, d: nat, radix: nat)
    ensures DigitsValue(ds + [d], radix) == DigitsValue(ds, radix) * radix + d
  {
    assert (ds + [d])[..|ds|] == ds;
  }

  /** All digits are below the radix. */
  ghost predicate DigitsBelow(ds: seq<nat>, radix: int) {
    forall i :: 0 <= i < |ds| ==> ds[i] < radix
  }

  lemma {:induction false} DigitsConcat(ds: seq<nat>, es: seq<nat>, radix: nat)
    requires DigitsBelow(ds, radix) && DigitsBelow(es, radix)
    ensures DigitsBelow(ds + es, radix)
    ensures DigitsValue(ds + es, radix) == DigitsValue(ds, radix) * Pow(radix, |es|) + DigitsValue(es, radix)
    decreases |es|
  {
    if es == [] {
      assert ds + es == ds;
    } else {
      var n := |es| - 1;
      DigitsConcat(ds, es[..n], radix);
      assert ds + es == (ds + es[..n]) + [es[n]];
      assert es == es[..n] + [es[n]];
      DigitsSnoc(ds + es[..n], es[n], radix);
      DigitsSnoc(es[..n], es[n], radix);
      ConcatStep(DigitsValue(ds, radix), Pow(radix, n), DigitsValue(es[..n], radix), radix);
    }
  }

  lemma ConcatStep(v: int, p: int, w: int, radix: int)
    ensures (v * p + w) * radix == v * (radix * p) + w * radix
  {
    Distribute(v * p, w, radix);
    MulAssociates(v, p, radix);
  }

  lemma {:induction false} DigitsBound(ds: seq<nat>, radix: nat)
    requires DigitsBelow(ds, radix) && radix >= 1
    ensures DigitsValue(ds, radix) < Pow(radix, |ds|)
    ensures |ds| > 0 && ds[0] > 0 ==> DigitsValue(ds, radix) >= Pow(radix, |ds| - 1)
  {
    if |ds| > 0 {
      var n := |ds| - 1;
      var v := DigitsValue(ds[..n], radix);
      DigitsBound(ds[..n], radix);
      BoundStep(v, Pow(radix, n), ds[n], radix);
      if n > 0 && ds[0] > 0 {
        MulMonotone(Pow(radix, n - 1), v, radix, radix);
      }
    }
  }

  lemma BoundStep(v: int, p: int, d: int, radix: int)
    requires v < p && 0 <= d < radix
    ensures v * radix + d < radix * p
  {
    MulMonotoneLeft(radix, v + 1, p);
    Distribute(v, 1, radix);
  }

  /** The multiplier that a table entry stands for: 0 means 2^32. */
  function RadixBase(entry: Limb): int {
    if entry == 0 then BASE else entry
  }

  /** mpb_mul1_base: r := r * base + a. */
  method Mul1Base(r: Mpb, radixBase: Limb, a: Limb)
    requires r.Valid() && r.Normal() && r.Room(2)
    modifies r`len, r.tab
    ensures r.Valid() && r.Normal() && r.len <= old(r.len) + 1
    ensures r.Val() == old(r.Val()) * RadixBase(radixBase) + a
  {
    hide Value, Unit;
    NonzeroLimbs(r.tab[..r.len]);
    if r.tab[0] == 0 && r.len == 1 {
      r.tab[0] := a;
      OneLimb(r.tab[..1]);
    } else {
      if radixBase == 0 {
        InsertLow(r, a);
      } else {
        ghost var s := r.tab[..r.len];
        var h := Mul1(r.tab, r.len, radixBase, a);
        ValueSnoc(r.tab[..r.len], h);
        r.Append(h);
      }
      r.Renorm();
    }
  }

  lemma NonzeroLimbs(s: seq<Limb>)
    requires |s| >= 1
    ensures |s| == 1 && s[0] == 0 ==> Value(s) == 0
  {
    if |s| == 1 { OneLimb(s); }
  }

  /** The loop that moves all limbs up by one place, and the new lowest limb. */
  method InsertLow(r: Mpb, a: Limb)
    requires r.Valid() && r.Room(2)
    modifies r`len, r.tab
    ensures r.Valid() && r.len == old(r.len) + 1 && r.Val() == old(r.Val()) * BASE + a
  {
    ghost var s := r.tab[..r.len];
    var i: int := r.len;
    while i >= 0
      invariant -1 <= i <= r.len == |s|
      invariant forall j :: i < j < r.len ==> r.tab[1 + j] == s[j]
      invariant forall j :: 0 <= j <= i && j < r.len ==> r.tab[j] == s[j]
    {
      r.tab[i + 1] := r.tab[i];
      i := i - 1;
    }
    r.tab[0] := a;
    r.len := r.len + 1;
    assert r.tab[..r.len] == [a] + s;
    ValueCons(a, s);
  }

  // ----- scanning -----

  /** What the scanner is told: the text, where its digits may begin, the radix, the separator and the flags. */
  datatype Source = Source(text: seq<byte>, start: nat, radix: nat, sep: int, intOnly: bool)

  ghost predicate SourceOk(s: Source) {
    2 <= s.radix <= RADIX_MAX && (s.sep == NO_SEPARATOR || s.sep == UNDERSCORE)
  }

  /** The point may stand at p. */
  predicate PointAllowed(s: Source, p: nat) {
    && CharAt(s.text, p) == DOT && (p > s.start || ToDigit(CharAt(s.text, p + 1)) < s.radix) && !s.intOnly
  }

  /** A separator at p stands between digits. */
  predicate SeparatorAt(s: Source, p: nat) {
    CharAt(s.text, p) == s.sep && p > s.start && ToDigit(CharAt(s.text, p + 1)) < s.radix
  }

  /**
   * Where the longest numeral ends whose rest begins at p; seen tells whether its point has been read. At most one
   * point is read, and separators only in front of digits.
   */
  function NumeralEnd(s: Source, p: nat, seen: bool): (end: nat)
    requires SourceOk(s)
    ensures p <= end
    decreases |s.text| - p
  {
    if PointAllowed(s, p) && seen then p
    else
      var q := if PointAllowed(s, p) then p + 1 else p;
      var r := if SeparatorAt(s, q) then q + 1 else q;
      if r < |s.text| && ToDigit(CharAt(s.text, r)) < s.radix then NumeralEnd(s, r + 1, seen || PointAllowed(s, p))
        else r
  }

  lemma PointNext(s: Source, p: nat)
    requires SourceOk(s) && PointAllowed(s, p)
    ensures NumeralEnd(s, p, false) == NumeralEnd(s, p + 1, true)
  {
  }

  lemma SeparatorNext(s: Source, p: nat, seen: bool)
    requires SourceOk(s) && SeparatorAt(s, p)
    ensures NumeralEnd(s, p, seen) == NumeralEnd(s, p + 1, seen)
  {
  }

  lemma DigitNext(s: Source, p: nat, seen: bool)
    requires SourceOk(s) && ToDigit(CharAt(s.text, p)) < s.radix
    ensures p < |s.text| && NumeralEnd(s, p, seen) == NumeralEnd(s, p + 1, seen)
  {
  }

  lemma NumeralStops(s: Source, p: nat, seen: bool)
    requires SourceOk(s) && (PointAllowed(s, p) ==> seen)
    requires PointAllowed(s, p) || (ToDigit(CharAt(s.text, p)) >= s.radix && !SeparatorAt(s, p))
    ensures NumeralEnd(s, p, seen) == p
  {
  }

  /** The digits from p0 to p, all zero, and the place of the point among them. */
  ghost predicate ZerosRead(s: Source, p0: nat, p: nat, pos: nat, dotPos: int) {
    && p0 <= p <= |s.text|
    && |DigitsIn(s.text, p0, p, s.sep)| == pos && (forall i :: 0 <= i < pos ==> DigitsIn(s.text, p0, p, s.sep)[i] == 0)
    && dotPos == PointIn(s.text, p0, p, s.sep)
  }

  lemma ReadMark(s: Source, p0: nat, p: nat)
    requires SourceOk(s) && p0 <= p < |s.text| && (CharAt(s.text, p) == DOT || CharAt(s.text, p) == s.sep)
    ensures DigitsIn(s.text, p0, p + 1, s.sep) == DigitsIn(s.text, p0, p, s.sep)
    ensures PointIn(s.text, p0, p + 1, s.sep)
         == if PointIn(s.text, p0, p, s.sep) < 0 && CharAt(s.text, p) == DOT then |DigitsIn(s.text, p0, p, s.sep)|
            else PointIn(s.text, p0, p, s.sep)
  {
  }

  lemma ReadDigit(s: Source, p0: nat, p: nat)
    requires SourceOk(s) && p0 <= p < |s.text| && ToDigit(CharAt(s.text, p)) < s.radix
    ensures DigitsIn(s.text, p0, p + 1, s.sep) == DigitsIn(s.text, p0, p, s.sep) + [ToDigit(CharAt(s.text, p))]
    ensures PointIn(s.text, p0, p + 1, s.sep) == PointIn(s.text, p0, p, s.sep)
  {
  }

  /** The loop that skips leading zeros. */
  method SkipZeros(s: Source, p0: nat) returns (p: nat, pos: nat, dotPos: int)
    requires SourceOk(s) && s.start <= p0 <= |s.text|
    ensures ZerosRead(s, p0, p, pos, dotPos)
    ensures NumeralEnd(s, p0, false) == NumeralEnd(s, p, dotPos >= 0)
    ensures CharAt(s.text, p) != ZERO
    ensures PointAllowed(s, p) ==> dotPos >= 0
    ensures CharAt(s.text, p) == s.sep && p > s.start ==> CharAt(s.text, p + 1) != ZERO
  {
    hide DigitsIn, PointIn, NumeralEnd;
    p, pos, dotPos := p0, 0, -1;
    NothingRead(s, p0);
    while true
      invariant ZerosRead(s, p0, p, pos, dotPos) && p0 <= p
      invariant NumeralEnd(s, p0, false) == NumeralEnd(s, p, dotPos >= 0)
      decreases |s.text| - p
    {
      if PointAllowed(s, p) {
        if dotPos >= 0 {
          break;
        }
        ReadMark(s, p0, p);
        PointNext(s, p);
        dotPos := pos;
        p := p + 1;
      }
      if CharAt(s.text, p) == s.sep && p > s.start && CharAt(s.text, p + 1) == ZERO {
        ReadMark(s, p0, p);
        SeparatorNext(s, p, dotPos >= 0);
        p := p + 1;
      }
      if CharAt(s.text, p) != ZERO {
        break;
      }
      ReadDigit(s, p0, p);
      DigitNext(s, p, dotPos >= 0);
      p := p + 1;
      pos := pos + 1;
    }
  }

  lemma NothingRead(s: Source, p0: nat)
    requires p0 <= |s.text|
    ensures ZerosRead(s, p0, p0, 0, -1) && DigitsIn(s.text, p0, p0, s.sep) == []
  {
  }

  /** The bignum and the partial limb together hold the value v. */
  ghost predicate Gathered(w: nat, cur: Limb, count: nat, radix: nat, v: nat) {
    && 2 <= radix <= RADIX_MAX && count < DIGITS_PER_LIMB[radix - 2]
    && cur < Pow(radix, count) && w * Pow(radix, count) + cur == v
  }

  lemma LimbPower(radix: nat, n: nat)
    requires 2 <= radix <= RADIX_MAX && n <= DIGITS_PER_LIMB[radix - 2]
    ensures 1 <= Pow(radix, n) <= BASE
    ensures n < DIGITS_PER_LIMB[radix - 2] ==> Pow(radix, n) < BASE
    ensures RADIX_BASE[radix - 2] < BASE && RadixBase(RADIX_BASE[radix - 2]) == Pow(radix, DIGITS_PER_LIMB[radix - 2])
    ensures DIGITS_PER_LIMB[radix - 2] >= 6
  {
    hide Pow, FastPow;
    AllRadixFacts(radix);
    var d := DIGITS_PER_LIMB[radix - 2];
    FastPowIsPow(radix, d);
    PowPositive(radix, n);
    PowMonotone(radix, n, d);
    if n < d {
      PowMonotone(radix, n + 1, d);
      MulMonotone(2, radix, Pow(radix, n), Pow(radix, n));
      PowStepOf(radix, n);
    }
  }

  lemma PowStepOf(b: int, n: nat)
    ensures Pow(b, n + 1) == b * Pow(b, n)
  {
  }

  /** One digit into the partial limb, which goes to the bignum when it is full. */
  method AddDigit(r: Mpb, radix: nat, cur: Limb, count: nat, c: nat, ghost v: nat) returns (cur1: Limb, count1: nat)
    requires 2 <= radix <= RADIX_MAX && c < radix
    requires r.Valid() && r.Normal() && r.Room(2) && Gathered(r.Val(), cur, count, radix, v)
    modifies r`len, r.tab
    ensures r.Valid() && r.Normal() && r.len <= old(r.len) + 1
    ensures Gathered(r.Val(), cur1, count1, radix, v * radix + c)
  {
    hide Pow, NormalLimbs, Value, RadixBase;
    LimbPower(radix, count);
    LimbPower(radix, count + 1);
    PowStepOf(radix, count);
    DigitAdded(r.Val(), cur, Pow(radix, count), radix, c, v);
    cur1 := (cur * radix + c) % BASE;
    count1 := count + 1;
    if count1 == DIGITS_PER_LIMB[radix - 2] {
      Mul1Base(r, RADIX_BASE[radix - 2], cur1);
      cur1 := 0;
      count1 := 0;
      PowZeroOne(radix);
    }
  }

  lemma DigitAdded(w: int, cur: int, p: int, radix: int, c: int, v: int)
    requires w * p + cur == v && 0 <= cur < p && 0 <= c < radix && radix * p <= BASE
    ensures w * (radix * p) + (cur * radix + c) == v * radix + c
    ensures 0 <= cur * radix + c < radix * p && (cur * radix + c) % BASE == cur * radix + c
  {
    Distribute(w * p, cur, radix);
    MulAssociates(w, p, radix);
    BoundStep(cur, p, c, radix);
    MulMonotone(0, cur, 0, radix);
    SmallDivision(cur * radix + c, BASE);
  }

  /** The last partial limb. */
  method FlushDigits(r: Mpb, radix: nat, cur: Limb, count: nat, ghost v: nat)
    requires r.Valid() && r.Normal() && r.Room(2) && Gathered(r.Val(), cur, count, radix, v)
    modifies r`len, r.tab
    ensures r.Valid() && r.Normal() && r.len <= old(r.len) + 1 && r.Val() == v
  {
    hide Pow, NormalLimbs, Value;
    LimbPower(radix, count);
    PowZeroOne(radix);
    if count != 0 {
      var b := PowUi(radix, count);
      Mul1Base(r, b, cur);
    }
  }

  /** The digits ds read so far: the first ones in the bignum and the partial limb, the others only ored together. */
  ghost predicate Scanned(ds: seq<nat>, radix: nat, w: nat, cur: Limb, count: nat, digits: nat, extra: nat) {
    && 2 <= radix <= RADIX_MAX && DigitsBelow(ds, radix)
    && digits == Min(|ds|, ATOD_MAX_DIGITS[radix - 2])
    && Gathered(w, cur, count, radix, DigitsValue(ds[..digits], radix))
    && (extra == 0 <==> forall i :: digits <= i < |ds| ==> ds[i] == 0)
  }

  lemma NothingScanned(radix: nat)
    requires 2 <= radix <= RADIX_MAX
    ensures Scanned([], radix, 0, 0, 0, 0, 0)
  {
    LimbPower(radix, 0);
    PowZeroOne(radix);
  }

  lemma ScannedIs(ds: seq<nat>, radix: nat, w: nat, cur: Limb, count: nat, digits: nat, extra: nat)
    requires Scanned(ds, radix, w, cur, count, digits, extra)
    ensures DigitsBelow(ds, radix) && digits == Min(|ds|, ATOD_MAX_DIGITS[radix - 2]) && digits <= |ds|
    ensures Gathered(w, cur, count, radix, DigitsValue(ds[..digits], radix))
    ensures extra == 0 <==> forall i :: digits <= i < |ds| ==> ds[i] == 0
  {
  }

  /** One more digit into the bignum. */
  lemma ScannedMore(ds: seq<nat>, c: nat, radix: nat, w: nat, cur: Limb, count: nat, digits: nat, extra: nat,
                    w1: nat, cur1: Limb, count1: nat)
    requires Scanned(ds, radix, w, cur, count, digits, extra) && c < radix && digits < ATOD_MAX_DIGITS[radix - 2]
    requires Gathered(w1, cur1, count1, radix, DigitsValue(ds[..digits], radix) * radix + c)
    ensures Scanned(ds + [c], radix, w1, cur1, count1, digits + 1, extra)
  {
    hide Gathered, DigitsValue;
    assert digits == |ds| && ds[..digits] == ds && (ds + [c])[..digits + 1] == ds + [c];
    DigitsSnoc(ds, c, radix);
  }

  /** One more digit beyond the limit. */
  lemma ScannedExtra(ds: seq<nat>, c: nat, radix: nat, w: nat, cur: Limb, count: nat, digits: nat, extra: nat)
    requires Scanned(ds, radix, w, cur, count, digits, extra) && c < radix && digits >= ATOD_MAX_DIGITS[radix - 2]
    ensures Scanned(ds + [c], radix, w, cur, count, digits, Or(extra, c))
  {
    hide Gathered, DigitsValue, Or;
    assert (ds + [c])[..digits] == ds[..digits];
    if forall i :: digits <= i < |ds + [c]| ==> (ds + [c])[i] == 0 {
      assert (ds + [c])[|ds|] == c;
      forall i | digits <= i < |ds| ensures ds[i] == 0 { assert (ds + [c])[i] == ds[i]; }
    }
  }

  /** The part of the digit loop that stores a digit. */
  method StoreDigit(r: Mpb, radix: nat, cur: Limb, count: nat, digits: nat, extra: nat, c: nat, ghost ds: seq<nat>)
    returns (cur1: Limb, count1: nat, digits1: nat, extra1: nat)
    requires 2 <= radix <= RADIX_MAX && c < radix
    requires r.Valid() && r.Normal() && r.Room(2) && Scanned(ds, radix, r.Val(), cur, count, digits, extra)
    modifies r`len, r.tab
    ensures r.Valid() && r.Normal() && r.len <= old(r.len) + digits1 - digits && digits <= digits1
    ensures Scanned(ds + [c], radix, r.Val(), cur1, count1, digits1, extra1)
  {
    hide Gathered, DigitsValue, Pow, NormalLimbs, Value, Or, Scanned, DigitsBelow;
    ScannedIs(ds, radix, r.Val(), cur, count, digits, extra);
    cur1, count1, digits1, extra1 := cur, count, digits, extra;
    if digits < ATOD_MAX_DIGITS[radix - 2] {
      ghost var w := r.Val();
      cur1, count1 := AddDigit(r, radix, cur, count, c, DigitsValue(ds[..digits], radix));
      ScannedMore(ds, c, radix, w, cur, count, digits, extra, r.Val(), cur1, count1);
      digits1 := digits + 1;
    } else {
      ScannedExtra(ds, c, radix, r.Val(), cur, count, digits, extra);
      extra1 := Or(extra, c);
    }
  }

  /** The state of the scan: the text read, its point, and the digits ds after the leading zeros. */
  ghost predicate DigitsRead(s: Source, begin: nat, p0: nat, p: nat, dotPos: int, ds: seq<nat>) {
    && begin <= p0 <= p <= |s.text|
    && DigitsIn(s.text, begin, p, s.sep) == DigitsIn(s.text, begin, p0, s.sep) + ds
    && dotPos == PointIn(s.text, begin, p, s.sep)
    && (forall i :: 0 <= i < |ds| ==> ds[i] < s.radix)
  }

  lemma NoDigitsRead(s: Source, begin: nat, p: nat, pos: nat, dotPos: int)
    requires ZerosRead(s, begin, p, pos, dotPos)
    ensures DigitsRead(s, begin, p, p, dotPos, [])
  {
    assert DigitsIn(s.text, begin, p, s.sep) + [] == DigitsIn(s.text, begin, p, s.sep);
  }

  lemma MarkRead(s: Source, begin: nat, p0: nat, p: nat, dotPos: int, ds: seq<nat>)
    requires SourceOk(s) && DigitsRead(s, begin, p0, p, dotPos, ds) && p < |s.text|
    requires (CharAt(s.text, p) == DOT && dotPos < 0) || (CharAt(s.text, p) == s.sep && CharAt(s.text, p) != DOT)
    ensures DigitsRead(s, begin, p0, p + 1,
                       if CharAt(s.text, p) == DOT then |DigitsIn(s.text, begin, p, s.sep)| else dotPos, ds)
  {
    hide DigitsIn, PointIn;
    ReadMark(s, begin, p);
  }

  lemma DigitRead(s: Source, begin: nat, p0: nat, p: nat, dotPos: int, ds: seq<nat>)
    requires SourceOk(s) && DigitsRead(s, begin, p0, p, dotPos, ds) && p < |s.text|
             && ToDigit(CharAt(s.text, p)) < s.radix
    ensures DigitsRead(s, begin, p0, p + 1, dotPos, ds + [ToDigit(CharAt(s.text, p))])
  {
    hide DigitsIn, PointIn;
    ReadDigit(s, begin, p);
    assert DigitsIn(s.text, begin, p0, s.sep) + ds + [ToDigit(CharAt(s.text, p))]
        == DigitsIn(s.text, begin, p0, s.sep) + (ds + [ToDigit(CharAt(s.text, p))]);
  }

  /**
   * The digit loop: it reads the digits ds from p0 on, keeps the value of the first ones in r, and notes whether one of
   * the others is not zero.
   */
  method ScanDigits(s: Source, r: Mpb, ghost begin: nat, p0: nat, pos0: nat, dot0: int)
    returns (p: nat, pos: nat, dotPos: int, digits: nat, extra: nat, ghost ds: seq<nat>)
    requires SourceOk(s) && s.start <= begin && ZerosRead(s, begin, p0, pos0, dot0)
    requires CharAt(s.text, p0) != ZERO && (PointAllowed(s, p0) ==> dot0 >= 0)
    requires CharAt(s.text, p0) == s.sep && p0 > s.start ==> CharAt(s.text, p0 + 1) != ZERO
    requires r.Valid() && r.Normal() && r.len == 1 && r.Val() == 0 && r.tab.Length >= 100
    modifies r`len, r.tab
    ensures r.Valid() && r.Normal() && r.len <= 82
    ensures DigitsRead(s, begin, p0, p, dotPos, ds) && pos == pos0 + |ds|
    ensures DigitsBelow(ds, s.radix) && digits == Min(|ds|, ATOD_MAX_DIGITS[s.radix - 2])
    ensures r.Val() == DigitsValue(ds[..digits], s.radix)
    ensures extra == 0 <==> forall i :: digits <= i < |ds| ==> ds[i] == 0
    ensures |ds| > 0 ==> ds[0] != 0
    ensures p == NumeralEnd(s, p0, dot0 >= 0)
  {
    hide DigitsIn, PointIn, Gathered, DigitsValue, ZerosRead, Pow, NormalLimbs, Value, DigitsRead, Or, Scanned,
      DigitsBelow, NumeralEnd;
    var radix := s.radix;
    p, pos, dotPos, digits, extra, ds := p0, pos0, dot0, 0, 0, [];
    var cur: Limb, count: nat := 0, 0;
    NothingScanned(radix);
    NoDigitsRead(s, begin, p0, pos0, dot0);
    MaxScanned(radix);
    while true
      invariant r.Valid() && r.Normal() && r.len <= 1 + digits && digits <= 80
      invariant DigitsRead(s, begin, p0, p, dotPos, ds) && p0 <= p <= |s.text| && pos == pos0 + |ds|
      invariant Scanned(ds, radix, r.Val(), cur, count, digits, extra)
      invariant NumeralEnd(s, p0, dot0 >= 0) == NumeralEnd(s, p, dotPos >= 0)
      invariant ds == [] ==> p == p0 && dotPos == dot0
      invariant |ds| > 0 ==> ds[0] != 0
      decreases |s.text| - p
    {
      var more;
      more, p, dotPos := ReadMarks(s, p, pos, dotPos, begin, p0, pos0, dot0, ds);
      if !more {
        break;
      }
      var c := ToDigit(CharAt(s.text, p));
      DigitNext(s, p, dotPos >= 0);
      DigitRead(s, begin, p0, p, dotPos, ds);
      p := p + 1;
      pos := pos + 1;
      cur, count, digits, extra := StoreDigit(r, radix, cur, count, digits, extra, c, ds);
      ds := ds + [c];
      ScannedIs(ds, radix, r.Val(), cur, count, digits, extra);
    }
    ScannedIs(ds, radix, r.Val(), cur, count, digits, extra);
    FlushDigits(r, radix, cur, count, DigitsValue(ds[..digits], radix));
  }

  lemma MaxScanned(radix: nat)
    requires 2 <= radix <= RADIX_MAX
    ensures 1 <= ATOD_MAX_DIGITS[radix - 2] <= 80
  {
  }

  /** The position counts the digits read. */
  /** Reads a point and a separator, and tells whether a digit follows. */
  method ReadMarks(s: Source, q: nat, pos: nat, dot: int, ghost begin: nat, ghost p0: nat, ghost pos0: nat,
                   ghost dot0: int, ghost ds: seq<nat>)
    returns (more: bool, p: nat, dotPos: int)
    requires SourceOk(s) && ZerosRead(s, begin, p0, pos0, dot0)
    requires DigitsRead(s, begin, p0, q, dot, ds) && q <= |s.text| && pos == pos0 + |ds|
    ensures DigitsRead(s, begin, p0, p, dotPos, ds) && q <= p <= |s.text|
    ensures NumeralEnd(s, q, dot >= 0) == NumeralEnd(s, p, dotPos >= 0)
    ensures p == q || (PointAllowed(s, q) && dot < 0) || (p == q + 1 && CharAt(s.text, q) == s.sep && q > s.start)
    ensures if more then ToDigit(CharAt(s.text, p)) < s.radix else NumeralEnd(s, p, dotPos >= 0) == p
  {
    hide DigitsIn, PointIn, ZerosRead, DigitsRead, NumeralEnd;
    more, p, dotPos := false, q, dot;
    if PointAllowed(s, p) {
      if dotPos >= 0 {
        NumeralStops(s, p, true);
        return;
      }
      PointNext(s, p);
      CountRead(s, begin, p0, p, pos0, dot0, dotPos, ds);
      MarkRead(s, begin, p0, p, dotPos, ds);
      dotPos := pos;
      p := p + 1;
    }
    if CharAt(s.text, p) == s.sep && p > s.start && ToDigit(CharAt(s.text, p + 1)) < s.radix {
      MarkRead(s, begin, p0, p, dotPos, ds);
      SeparatorNext(s, p, dotPos >= 0);
      p := p + 1;
    }
    more := ToDigit(CharAt(s.text, p)) < s.radix;
    if !more { NumeralStops(s, p, dotPos >= 0); }
  }

  lemma CountRead(s: Source, begin: nat, p0: nat, p: nat, pos0: nat, dot0: int, dotPos: int, ds: seq<nat>)
    requires DigitsRead(s, begin, p0, p, dotPos, ds) && ZerosRead(s, begin, p0, pos0, dot0)
    ensures |DigitsIn(s.text, begin, p, s.sep)| == pos0 + |ds|
  {
    hide DigitsIn, PointIn;
  }
}
