/** Little-endian byte buffers: the accessors of cutils.h that the bytecode is written and read with. */
module Bytes {

  type byte = x: int | 0 <= x < 256

  const TWO16: int := 0x1_0000
  const TWO31: int := 0x8000_0000
  const TWO32: int := 0x1_0000_0000

  /** The two bytes that put_u16 stores for v, taken modulo 2^16. */
  function PutU16(v: int): (b: seq<byte>)
    ensures |b| == 2
  {
    [v % 256, (v / 256) % 256]
  }

  /** The four bytes that put_u32 stores for v, taken modulo 2^32. */
  function PutU32(v: int): (b: seq<byte>)
    ensures |b| == 4
  {
    [v % 256, (v / 256) % 256, (v / 0x1_0000) % 256, (v / 0x100_0000) % 256]
  }

  function GetU16(b: seq<byte>, pos: nat): (v: nat)
    requires pos + 2 <= |b|
    ensures v < TWO16
  {
    b[pos] as int + 256 * (b[pos + 1] as int)
  }

  function GetU32(b: seq<byte>, pos: nat): (v: nat)
    requires pos + 4 <= |b|
    ensures v < TWO32
  {
    b[pos] as int + 256 * (b[pos + 1] as int) + 0x1_0000 * (b[pos + 2] as int) + 0x100_0000 * (b[pos + 3] as int)
  }

  /** The cast (int)val of a 32-bit word. */
  function ToInt32(v: int): int {
    if v >= TWO31 then v - TWO32 else v
  }

  function GetI32(b: seq<byte>, pos: nat): int
    requires pos + 4 <= |b|
  {
    ToInt32(GetU32(b, pos))
  }

  /** The buffer holds the bytes `part` at offset `pos`. */
  ghost predicate At(b: seq<byte>, pos: int, part: seq<byte>) {
    0 <= pos && pos + |part| <= |b| && forall i {:trigger part[i]} :: 0 <= i < |part| ==> b[pos + i] == part[i]
  }

  lemma AtSplit(b: seq<byte>, pos: int, x: seq<byte>, y: seq<byte>)
    requires At(b, pos, x + y)
    ensures At(b, pos, x) && At(b, pos + |x|, y)
  {
    var whole := x + y;
    forall i | 0 <= i < |x| ensures b[pos + i] == x[i] { assert whole[i] == x[i]; }
    forall i | 0 <= i < |y| ensures b[pos + |x| + i] == y[i] { assert whole[|x| + i] == y[i]; }
  }

  lemma AtLength(b: seq<byte>, pos: int, x: seq<byte>)
    requires At(b, pos, x)
    ensures 0 <= pos && pos + |x| <= |b|
  {
  }

  lemma AtByte(b: seq<byte>, pos: int, x: byte)
    requires At(b, pos, [x])
    ensures b[pos] == x
  {
    assert [x][0] == x;
  }

  lemma U16RoundTrip(b: seq<byte>, pos: int, v: int)
    requires At(b, pos, PutU16(v))
    ensures GetU16(b, pos) == v % TWO16
  {
    var s := PutU16(v);
    assert s[0] == v % 256 && s[1] == (v / 256) % 256;
    U16Digits(v);
  }

  lemma U16Digits(v: int)
    ensures v % 256 + 256 * ((v / 256) % 256) == v % TWO16
  {
    assert v / TWO16 == (v / 256) / 256;
  }

  /** What put_u32 stores, get_u32 reads back: modulo 2^32, and with the sign when it fits an int. */
  lemma U32RoundTrip(b: seq<byte>, pos: int, v: int)
    requires At(b, pos, PutU32(v))
    ensures GetU32(b, pos) == v % TWO32
    ensures -TWO31 <= v < TWO31 ==> GetI32(b, pos) == v
  {
    Wrap32(v);
    var s := PutU32(v);
    assert s[0] == v % 256 && s[1] == (v / 256) % 256;
    assert s[2] == (v / 0x1_0000) % 256 && s[3] == (v / 0x100_0000) % 256;
    U32Digits(v);
  }

  lemma Wrap32(v: int)
    ensures 0 <= v < TWO32 ==> v % TWO32 == v
    ensures -TWO32 <= v < 0 ==> v % TWO32 == v + TWO32
  {
  }

  lemma Wrap16(v: int)
    ensures 0 <= v < TWO16 ==> v % TWO16 == v
  {
  }

  lemma U32Digits(v: int)
    ensures v % 256 + 256 * ((v / 256) % 256) + 0x1_0000 * ((v / 0x1_0000) % 256)
            + 0x100_0000 * ((v / 0x100_0000) % 256) == v % TWO32
  {
    var a := v / 256;
    var c := v / 0x1_0000;
    var d := v / 0x100_0000;
    assert c == a / 256 && d == c / 256;
    assert v % TWO32 == v - TWO32 * (v / TWO32);
    assert v / TWO32 == d / 256;
  }
}
