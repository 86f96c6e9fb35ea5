/** Character classes in bytecode: what re_emit_range writes and how the machine searches it. */
module RegexpClass {
  import opened Bytes
  import opened CharSets
  import opened RegexpOpcodes

  const MAX_INTERVALS: int := 65534

  /** The last finite point of the list: the one that decides between 16-bit and 32-bit intervals. */
  function LastFinite(p: Points): int
    requires |p| >= 2
  {
    if p[|p| - 1] == UINT32_MAX then p[|p| - 2] else p[|p| - 1]
  }

  function Narrow(p: Points): bool
    requires |p| >= 2
  {
    LastFinite(p) <= 0xffff
  }

  /** The inclusive upper bound stored for the exclusive bound v: 0xffff stands for infinity. */
  function High16(v: int): int {
    if v - 1 == UINT32_MAX - 1 then 0xffff else v - 1
  }

  function Pairs16(p: Points): (b: seq<byte>) {
    if |p| < 2 then [] else Pairs16(p[..|p| - 2]) + PutU16(p[|p| - 2]) + PutU16(High16(p[|p| - 1]))
  }

  function Pairs32(p: Points): (b: seq<byte>) {
    if |p| < 2 then [] else Pairs32(p[..|p| - 2]) + PutU32(p[|p| - 2]) + PutU32(p[|p| - 1] - 1)
  }

  /** The bytes that re_emit_range appends for a set of fewer than 65535 intervals. */
  function RangeCode(p: Points): seq<byte> {
    if |p| < 2 then [CHAR32] + PutU32(-1)
    else if Narrow(p) then [RANGE] + PutU16(|p| / 2) + Pairs16(p)
    else [RANGE32] + PutU16(|p| / 2) + Pairs32(p)
  }

  /** n stored intervals fit in the code from base on. */
  predicate Fits(code: seq<byte>, base: int, wide: bool, n: int) {
    0 <= base && base + Span(wide, n) <= |code|
  }

  /** Size in bytes of n stored intervals. */
  function Span(wide: bool, n: int): int { if wide then 8 * n else 4 * n }

  datatype Interval = Interval(low: int, high: int)

  function IntervalAt(code: seq<byte>, base: nat, wide: bool, k: nat): Interval
    requires Fits(code, base, wide, k + 1)
  {
    if wide then Interval(GetU32(code, base + 8 * k), GetU32(code, base + 8 * k + 4))
    else Interval(GetU16(code, base + 4 * k), GetU16(code, base + 4 * k + 2))
  }

  /** The n intervals stored at base. */
  function Table(code: seq<byte>, base: nat, wide: bool, n: nat): (t: seq<Interval>)
    requires Fits(code, base, wide, n)
    ensures |t| == n
  {
    seq(n, k requires 0 <= k < n => IntervalAt(code, base, wide, k))
  }

  function Search(t: seq<Interval>, c: int, lo: nat, hi: int): bool
    requires hi < |t|
    decreases hi - lo + 1
  {
    if lo > hi then false
    else
      var idx := (lo + hi) / 2;
      if c < t[idx].low then Search(t, c, lo, idx - 1)
      else if c > t[idx].high then Search(t, c, idx + 1, hi)
      else true
  }

  /** The outcome of REOP_range (or REOP_range32 when wide) on its table of intervals. */
  function RangeTest(t: seq<Interval>, wide: bool, c: int): bool
    requires |t| >= 1
  {
    if c < t[0].low then false
    else if !wide && c >= 0xffff && t[|t| - 1].high == 0xffff then true
    else if c > t[|t| - 1].high then false
    else Search(t, c, 0, |t| - 1)
  }

  method ReadInterval(code: seq<byte>, base: nat, wide: bool, n: nat, k: nat) returns (entry: Interval)
    requires Fits(code, base, wide, n) && k < n
    ensures entry == Table(code, base, wide, n)[k]
  {
    entry := IntervalAt(code, base, wide, k);
  }

  /** The search of the machine, on unsigned 32-bit indices that would wrap around below zero. */
  method RangeMatch(code: seq<byte>, base: nat, wide: bool, n: nat, c: int) returns (hit: bool)
    requires 1 <= n < TWO16 && Fits(code, base, wide, n)
    ensures hit == RangeTest(Table(code, base, wide, n), wide, c)
  {
    hide Table, Fits;
    ghost var t := Table(code, base, wide, n);
    var entry := ReadInterval(code, base, wide, n, 0);
    if c < entry.low {
      return false;
    }
    entry := ReadInterval(code, base, wide, n, n - 1);
    if !wide && c >= 0xffff && entry.high == 0xffff {
      return true;
    }
    if c > entry.high {
      return false;
    }
    var idxMin, idxMax := 0, n - 1;
    while idxMin <= idxMax
      invariant 0 <= idxMin <= n && 0 <= idxMax < n
      invariant Search(t, c, 0, n - 1) == Search(t, c, idxMin, idxMax)
      decreases idxMax - idxMin + 1
    {
      var idx := (idxMin + idxMax) / 2;
      entry := ReadInterval(code, base, wide, n, idx);
      if c < entry.low {
        Wrap32(idx - 1);
        idxMax := (idx - 1) % TWO32;
      } else if c > entry.high {
        Wrap32(idx + 1);
        idxMin := (idx + 1) % TWO32;
      } else {
        return true;
      }
    }
    return false;
  }

  // ----- what the stored bytes mean -----

  lemma {:induction false} Pairs16At(code: seq<byte>, base: nat, p: Points, k: nat)
    requires |p| % 2 == 0 && At(code, base, Pairs16(p)) && 2 * k + 1 < |p|
    ensures |Pairs16(p)| == 2 * |p|
    ensures base + 4 * (k + 1) <= |code|
    ensures GetU16(code, base + 4 * k) == p[2 * k] % TWO16
    ensures GetU16(code, base + 4 * k + 2) == High16(p[2 * k + 1]) % TWO16
    decreases |p|
  {
    Pairs16Length(p);
    var q := p[..|p| - 2];
    Pairs16Length(q);
    var lowBytes, highBytes := PutU16(p[|p| - 2]), PutU16(High16(p[|p| - 1]));
    AtSplit(code, base, Pairs16(q) + lowBytes, highBytes);
    AtSplit(code, base, Pairs16(q), lowBytes);
    if 2 * k + 2 == |p| {
      U16RoundTrip(code, base + |Pairs16(q)|, p[|p| - 2]);
      U16RoundTrip(code, base + |Pairs16(q)| + 2, High16(p[|p| - 1]));
    } else {
      Pairs16At(code, base, q, k);
    }
  }

  lemma {:induction false} Pairs16Length(p: Points)
    requires |p| % 2 == 0
    ensures |Pairs16(p)| == 2 * |p|
    decreases |p|
  {
    if |p| >= 2 { Pairs16Length(p[..|p| - 2]); }
  }

  lemma {:induction false} Pairs32Length(p: Points)
    requires |p| % 2 == 0
    ensures |Pairs32(p)| == 4 * |p|
    decreases |p|
  {
    if |p| >= 2 { Pairs32Length(p[..|p| - 2]); }
  }

  lemma {:induction false} Pairs32At(code: seq<byte>, base: nat, p: Points, k: nat)
    requires |p| % 2 == 0 && At(code, base, Pairs32(p)) && 2 * k + 1 < |p|
    ensures base + 8 * (k + 1) <= |code|
    ensures GetU32(code, base + 8 * k) == p[2 * k] % TWO32
    ensures GetU32(code, base + 8 * k + 4) == (p[2 * k + 1] - 1) % TWO32
    decreases |p|
  {
    Pairs32Length(p);
    var q := p[..|p| - 2];
    Pairs32Length(q);
    var lowBytes, highBytes := PutU32(p[|p| - 2]), PutU32(p[|p| - 1] - 1);
    AtSplit(code, base, Pairs32(q) + lowBytes, highBytes);
    AtSplit(code, base, Pairs32(q), lowBytes);
    if 2 * k + 2 == |p| {
      U32RoundTrip(code, base + |Pairs32(q)|, p[|p| - 2]);
      U32RoundTrip(code, base + |Pairs32(q)| + 4, p[|p| - 1] - 1);
    } else {
      Pairs32At(code, base, q, k);
    }
  }

  /** The inclusive intervals that stand for the points p. */
  ghost predicate Represents(t: seq<Interval>, wide: bool, p: Points) {
    && |p| == 2 * |t|
    && forall k :: 0 <= k < |t| ==>
         t[k] == Interval(p[2 * k], if wide then p[2 * k + 1] - 1 else High16(p[2 * k + 1]))
  }

  lemma NarrowPoints(p: Points, k: nat)
    requires Canonical(p) && 2 * k + 1 < |p| && Narrow(p)
    ensures p[2 * k] <= 0xffff
    ensures p[2 * k + 1] <= 0xffff || (p[2 * k + 1] == UINT32_MAX && 2 * k + 2 == |p|)
  {
    if 2 * k + 2 < |p| {
      assert p[2 * k + 1] < p[|p| - 2] < p[|p| - 1];
    }
    assert p[2 * k] < p[2 * k + 1];
  }

  lemma EmittedHeader(code: seq<byte>, pos: nat, p: Points)
    requires |p| % 2 == 0 && 2 <= |p| <= 2 * MAX_INTERVALS && At(code, pos, RangeCode(p))
    ensures pos + 3 <= |code| && GetU16(code, pos + 1) == |p| / 2
    ensures code[pos] == if Narrow(p) then RANGE else RANGE32
    ensures At(code, pos + 3, if Narrow(p) then Pairs16(p) else Pairs32(p))
    ensures Fits(code, pos + 3, !Narrow(p), |p| / 2)
    ensures |RangeCode(p)| == 3 + Span(!Narrow(p), |p| / 2)
  {
    hide GetU16, PutU16, PutU32, Pairs16, Pairs32, Narrow, At;
    var op := if Narrow(p) then [RANGE] else [RANGE32];
    var pairs := if Narrow(p) then Pairs16(p) else Pairs32(p);
    AtSplit(code, pos, op + PutU16(|p| / 2), pairs);
    AtSplit(code, pos, op, PutU16(|p| / 2));
    AtByte(code, pos, op[0]);
    U16RoundTrip(code, pos + 1, |p| / 2);
    Wrap16(|p| / 2);
    AtLength(code, pos + 3, pairs);
    if Narrow(p) { Pairs16Length(p); } else { Pairs32Length(p); }
  }

  lemma CanonicalEven(p: Points)
    requires Canonical(p)
    ensures |p| % 2 == 0
  {
  }

  /** The table that the machine reads is the set that was emitted. */
  lemma EmittedTable(code: seq<byte>, pos: nat, p: Points)
    requires Canonical(p) && 2 <= |p| <= 2 * MAX_INTERVALS && At(code, pos, RangeCode(p))
    ensures Fits(code, pos + 3, !Narrow(p), |p| / 2)
    ensures Represents(Table(code, pos + 3, !Narrow(p), |p| / 2), !Narrow(p), p)
  {
    hide GetU16, GetU32, PutU16, PutU32, Pairs16, Pairs32, RangeCode, Narrow, At, Canonical, High16, IntervalAt;
    CanonicalEven(p);
    EmittedHeader(code, pos, p);
    forall k | 0 <= k < |p| / 2
      ensures Table(code, pos + 3, !Narrow(p), |p| / 2)[k]
              == Interval(p[2 * k], if !Narrow(p) then p[2 * k + 1] - 1 else High16(p[2 * k + 1]))
    {
      if Narrow(p) { NarrowEntry(code, pos + 3, p, k); } else { WideEntry(code, pos + 3, p, k); }
    }
  }

  lemma NarrowEntry(code: seq<byte>, base: nat, p: Points, k: nat)
    requires Canonical(p) && 2 * k + 1 < |p| && Narrow(p) && At(code, base, Pairs16(p))
    ensures Fits(code, base, false, k + 1)
    ensures IntervalAt(code, base, false, k) == Interval(p[2 * k], High16(p[2 * k + 1]))
  {
    assert 0 <= p[2 * k] < p[2 * k + 1];
    Pairs16At(code, base, p, k);
    NarrowPoints(p, k);
    Wrap16(p[2 * k]);
    Wrap16(High16(p[2 * k + 1]));
  }

  lemma WideEntry(code: seq<byte>, base: nat, p: Points, k: nat)
    requires Canonical(p) && 2 * k + 1 < |p| && At(code, base, Pairs32(p))
    ensures Fits(code, base, true, k + 1)
    ensures IntervalAt(code, base, true, k) == Interval(p[2 * k], p[2 * k + 1] - 1)
  {
    assert 0 <= p[2 * k] < p[2 * k + 1] <= UINT32_MAX;
    Pairs32At(code, base, p, k);
    Wrap32(p[2 * k]);
    Wrap32(p[2 * k + 1] - 1);
  }

  /** Away from the 16-bit infinity, c is in the k-th stored interval exactly when it is in the k-th interval of p. */
  ghost predicate Plain(t: seq<Interval>, wide: bool, p: Points, c: int) {
    Represents(t, wide, p) && Canonical(p) && 0 <= c < UINT32_MAX
    && (wide || c < 0xffff || |p| == 0 || p[|p| - 1] != UINT32_MAX)
  }

  lemma EntryCompare(t: seq<Interval>, wide: bool, p: Points, c: int, k: nat)
    requires Plain(t, wide, p, c) && k < |t|
    ensures c < t[k].low <==> c < p[2 * k]
    ensures c > t[k].high <==> c >= p[2 * k + 1]
  {
    assert 2 * k + 1 < |p| - 1 ==> p[2 * k + 1] < p[|p| - 1];
  }

  /** Some interval of p between lo and hi contains c. */
  ghost predicate Found(p: Points, c: int, lo: int, hi: int) {
    exists k :: lo <= k <= hi && InInterval(p, k, c)
  }

  lemma FoundLeft(p: Points, c: int, lo: nat, idx: nat, hi: int)
    requires StrictlyIncreasing(p) && lo <= idx <= hi && 2 * idx + 1 < |p| && c < p[2 * idx]
    ensures Found(p, c, lo, hi) <==> Found(p, c, lo, idx - 1)
  {
    forall k | idx < k <= hi && 2 * k + 1 < |p| ensures !InInterval(p, k, c) {
      assert p[2 * idx] < p[2 * k];
    }
  }

  lemma FoundRight(p: Points, c: int, lo: nat, idx: nat, hi: int)
    requires StrictlyIncreasing(p) && lo <= idx <= hi && 2 * idx + 1 < |p| && c >= p[2 * idx + 1]
    ensures Found(p, c, lo, hi) <==> Found(p, c, idx + 1, hi)
  {
    forall k | lo <= k < idx ensures !InInterval(p, k, c) {
      assert p[2 * k + 1] < p[2 * idx + 1];
    }
  }

  /** Binary search over a table finds c exactly when an interval between lo and hi contains it. */
  lemma {:induction false} SearchFinds(t: seq<Interval>, wide: bool, p: Points, c: int, lo: nat, hi: int)
    requires Plain(t, wide, p, c) && hi < |t|
    ensures Search(t, c, lo, hi) <==> Found(p, c, lo, hi)
    decreases hi - lo + 1
  {
    hide Plain, Found;
    PlainTable(t, wide, p, c);
    if lo > hi {
      NoneFound(p, c, lo, hi);
    } else {
      var idx: nat := (lo + hi) / 2;
      EntryCompare(t, wide, p, c, idx);
      if c < t[idx].low {
        FoundLeft(p, c, lo, idx, hi);
        SearchFinds(t, wide, p, c, lo, idx - 1);
      } else if c > t[idx].high {
        FoundRight(p, c, lo, idx, hi);
        SearchFinds(t, wide, p, c, idx + 1, hi);
      } else {
        FoundAt(p, c, lo, idx, hi);
      }
    }
  }

  lemma PlainTable(t: seq<Interval>, wide: bool, p: Points, c: int)
    requires Plain(t, wide, p, c)
    ensures |p| == 2 * |t| && StrictlyIncreasing(p)
  {
  }

  lemma NoneFound(p: Points, c: int, lo: int, hi: int)
    requires lo > hi
    ensures !Found(p, c, lo, hi)
  {
  }

  lemma FoundAt(p: Points, c: int, lo: int, k: int, hi: int)
    requires lo <= k <= hi && InInterval(p, k, c)
    ensures Found(p, c, lo, hi)
  {
  }

  /** The class opcode succeeds on c exactly when c is in the set that was emitted. */
  lemma ClassTestIsMembership(code: seq<byte>, pos: nat, p: Points, c: int)
    requires Canonical(p) && 2 <= |p| <= 2 * MAX_INTERVALS && At(code, pos, RangeCode(p))
    requires 0 <= c < UINT32_MAX
    ensures Fits(code, pos + 3, !Narrow(p), |p| / 2)
    ensures RangeTest(Table(code, pos + 3, !Narrow(p), |p| / 2), !Narrow(p), c) <==> Member(p, c)
  {
    EmittedTable(code, pos, p);
    TableTest(Table(code, pos + 3, !Narrow(p), |p| / 2), !Narrow(p), p, c);
  }

  lemma BelowAll(p: Points, c: int)
    requires StrictlyIncreasing(p) && |p| >= 1 && c < p[0]
    ensures !Member(p, c)
  {
    forall k ensures !InInterval(p, k, c) {
      if 0 < k && 2 * k + 1 < |p| { assert p[0] < p[2 * k]; }
    }
  }

  lemma AboveAll(p: Points, c: int)
    requires StrictlyIncreasing(p) && |p| >= 1 && p[|p| - 1] <= c
    ensures !Member(p, c)
  {
    forall k ensures !InInterval(p, k, c) {
      if 0 <= k && 2 * k + 1 < |p| - 1 { assert p[2 * k + 1] < p[|p| - 1]; }
    }
  }

  lemma TableTest(t: seq<Interval>, wide: bool, p: Points, c: int)
    requires Canonical(p) && |p| >= 2 && Represents(t, wide, p) && (!wide ==> Narrow(p)) && 0 <= c < UINT32_MAX
    ensures RangeTest(t, wide, c) <==> Member(p, c)
  {
    hide Search, Found;
    var n := |t|;
    assert t[n - 1] == Interval(p[|p| - 2], if wide then p[|p| - 1] - 1 else High16(p[|p| - 1]));
    assert t[0].low == p[2 * 0];
    if c < t[0].low {
      BelowAll(p, c);
    } else if !wide && c >= 0xffff && t[n - 1].high == 0xffff {
      NarrowPoints(p, n - 1);
      assert InInterval(p, n - 1, c);
    } else {
      assert Plain(t, wide, p, c);
      EntryCompare(t, wide, p, c, n - 1);
      SearchFinds(t, wide, p, c, 0, n - 1);
      if c > t[n - 1].high { AboveAll(p, c); }
      FoundIsMember(p, c, n);
    }
  }

  lemma FoundIsMember(p: Points, c: int, n: nat)
    requires |p| == 2 * n
    ensures Found(p, c, 0, n - 1) <==> Member(p, c)
  {
    forall k | InInterval(p, k, c) ensures 0 <= k <= n - 1 {}
  }
}
