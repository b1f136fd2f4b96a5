/**
 * Byte-level primitives of the Kafka wire format: big-endian layout of
 * fixed-width integers and the two's-complement reinterpretation that
 * PHP's pack/unpack perform on them.
 */
module Wire {

  /** One octet of a buffer. */
  type Byte = x: int | 0 <= x < 256

  /** PHP's native integer on a 64-bit platform. */
  type PhpInt = x: int | -0x8000_0000_0000_0000 <= x < 0x8000_0000_0000_0000

  const BYTE_MIN: int := -128
  const BYTE_MAX: int := 127
  const SHORT_MIN: int := -32768
  const SHORT_MAX: int := 32767
  const INT_MIN: int := -0x8000_0000
  const INT_MAX: int := 0x7fff_ffff
  const UNSIGNED_INT_MIN: int := 0
  const UNSIGNED_INT_MAX: int := 0xffff_ffff
  const LONG_MIN: int := -0x8000_0000_0000_0000
  const LONG_MAX: int := 0x7fff_ffff_ffff_ffff

  /** 256^n, the number of values an n-byte field can hold. */
  function Pow256(n: nat): (r: nat)
    ensures r >= 1
    ensures n >= 1 ==> r >= 256
  {
    if n == 0 then 1 else 256 * Pow256(n - 1)
  }

  /** The unsigned number `s` denotes, most significant byte first. */
  function FromBigEndian(s: seq<Byte>): (v: nat)
    ensures v < Pow256(|s|)
  {
    if s == [] then 0
    else
      var high := FromBigEndian(s[..|s| - 1]);
      assert high <= Pow256(|s| - 1) - 1;
      assert high * 256 <= Pow256(|s|) - 256;
      high * 256 + s[|s| - 1]
  }

  /**
   * The bytes pack() emits for `v` in a `width`-byte big-endian format: the
   * low eight bits last, the rest of the value before them; a negative value
   * comes out in two's complement.
   */
  function Pack(v: int, width: nat): (s: seq<Byte>)
    ensures |s| == width
    decreases width
  {
    if width == 0 then [] else Pack(v / 256, width - 1) + [v % 256]
  }

  /** What Pack keeps of `v`: its remainder modulo 256^width, read back as an unsigned number. */
  lemma {:induction false} PackValue(v: int, width: nat)
    ensures FromBigEndian(Pack(v, width)) == v % Pow256(width)
    decreases width
  {
    if width > 0 {
      var s := Pack(v, width);
      assert s[..width - 1] == Pack(v / 256, width - 1);
      PackValue(v / 256, width - 1);
      ModSplit(v, Pow256(width - 1));
    }
  }

  /** The remainder modulo 256 * m, split into its low byte and the rest. */
  lemma ModSplit(v: int, m: int)
    requires m >= 1
    ensures v % (256 * m) == (v / 256) % m * 256 + v % 256
  {
    var a, b := v / 256, v % 256;
    var q, r := a / m, a % m;
    assert v == 256 * a + b;
    assert a == m * q + r;
    assert v == (256 * m) * q + (r * 256 + b);
    ModUnique(v, 256 * m, q, r * 256 + b);
  }

  /** Euclidean division is unique: a quotient and a remainder in [0, d) are the ones `/` and `%` give. */
  lemma ModUnique(v: int, d: int, q: int, r: int)
    requires d > 0 && 0 <= r < d && v == d * q + r
    ensures v % d == r
  {
    var k := q - v / d;
    assert d * k == v % d - r;
    if k >= 1 {
      MulGrows(d, k);
      assert false;
    } else if k <= -1 {
      MulGrows(d, -k);
      assert false;
    }
  }

  /** A positive multiple of d is at least d. */
  lemma {:induction false} MulGrows(d: int, k: int)
    requires d > 0 && k >= 1
    ensures d * k >= d
    decreases k
  {
    if k > 1 {
      MulGrows(d, k - 1);
      assert d * k == d * (k - 1) + d;
    }
  }

  /**
   * The signed reading of an unsigned number `v`: values above `max` are
   * shifted down by `sub` (Message::convertToSigned).
   */
  function ConvertToSigned(v: int, max: int, sub: int): int {
    if v <= max then v else v - sub
  }

  /** Euclidean remainder of a value already in [0, m). */
  lemma ModOfSmall(v: int, m: int)
    requires 0 <= v < m
    ensures v % m == v
  {
  }

  /** Euclidean remainder of a value in [-m, 0): it wraps up by m. */
  lemma ModOfNegative(v: int, m: int)
    requires -m <= v < 0
    ensures v % m == v + m
  {
    assert (v + m) % m == v + m;
    assert v == (v + m) - m;
  }

  /**
   * Reading back what Pack wrote, with the two's-complement conversion for
   * the same width, gives the original value whenever it fits the width.
   */
  lemma PackSignedRoundTrip(v: int, width: nat)
    requires width >= 1
    requires -(Pow256(width) as int) / 2 <= v < Pow256(width) / 2
    ensures ConvertToSigned(FromBigEndian(Pack(v, width)), Pow256(width) / 2 - 1, Pow256(width)) == v
  {
    var m: int := Pow256(width);
    PackValue(v, width);
    if v >= 0 {
      ModOfSmall(v, m);
    } else {
      ModOfNegative(v, m);
    }
  }

  /** The unsigned counterpart: a value in [0, 256^width) reads back unchanged. */
  lemma PackUnsignedRoundTrip(v: int, width: nat)
    requires 0 <= v < Pow256(width)
    ensures FromBigEndian(Pack(v, width)) == v
  {
    PackValue(v, width);
    ModOfSmall(v, Pow256(width));
  }
}
