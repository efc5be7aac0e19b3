/**
 * Fixed-width unsigned integers of the target and the little-endian
 * decoding of the multi-byte fields that the firmware copies out of
 * packed structures.
 */
module Bytes {

  type byte = x: int | 0 <= x < 0x100
  type uint16 = x: int | 0 <= x < 0x1_0000
  type uint32 = x: int | 0 <= x < 0x1_0000_0000

  /** A 16-bit little-endian field: low byte first. */
  function Le16(lo: byte, hi: byte): (v: uint16)
    ensures v % 0x100 == lo && v / 0x100 == hi
  {
    lo + 0x100 * hi
  }

  /** The two bytes that store `v` little-endian. */
  function Le16Bytes(v: uint16): (b: seq<byte>)
    ensures |b| == 2
  {
    [v % 0x100, v / 0x100]
  }

  /** A 32-bit little-endian field: `b[0]` is the least significant byte. */
  function Le32(b: seq<byte>): (v: uint32)
    requires |b| == 4
    ensures v % 0x1_0000 == Le16(b[0], b[1]) && v / 0x1_0000 == Le16(b[2], b[3])
  {
    var lo, hi := Le16(b[0], b[1]), Le16(b[2], b[3]);
    DivModUnique(lo + 0x1_0000 * hi, hi, lo, 0x1_0000);
    lo + 0x1_0000 * hi
  }

  /** The four bytes that store `v` little-endian. */
  function Le32Bytes(v: uint32): (b: seq<byte>)
    ensures |b| == 4
  {
    Le16Bytes(v % 0x1_0000) + Le16Bytes(v / 0x1_0000)
  }

  lemma Le16RoundTrip(v: uint16)
    ensures Le16(Le16Bytes(v)[0], Le16Bytes(v)[1]) == v
  {
  }

  lemma Le16BytesRoundTrip(b: seq<byte>)
    requires |b| == 2
    ensures Le16Bytes(Le16(b[0], b[1])) == b
  {
  }

  lemma Le32RoundTrip(v: uint32)
    ensures Le32(Le32Bytes(v)) == v
  {
    var b := Le32Bytes(v);
    Le16RoundTrip(v % 0x1_0000);
    Le16RoundTrip(v / 0x1_0000);
    assert b[..2] == Le16Bytes(v % 0x1_0000);
    assert b[2..] == Le16Bytes(v / 0x1_0000);
  }

  lemma Le32BytesRoundTrip(b: seq<byte>)
    requires |b| == 4
    ensures Le32Bytes(Le32(b)) == b
  {
    var v := Le32(b);
    Le16BytesRoundTrip(b[..2]);
    Le16BytesRoundTrip(b[2..]);
    assert Le16Bytes(v % 0x1_0000) == b[..2];
    assert Le16Bytes(v / 0x1_0000) == b[2..];
    assert b == b[..2] + b[2..];
  }

  /** Quotient and remainder are the only such pair: `x == q * m + r` with `0 <= r < m` fixes both. */
  lemma DivModUnique(x: int, q: int, r: int, m: int)
    requires 0 < m && 0 <= r < m && x == q * m + r
    ensures x / m == q && x % m == r
  {
    var q', r' := x / m, x % m;
    assert (q - q') * m == r' - r;
    if q > q' {
      MulAtLeast(q - q', m);
    } else if q < q' {
      MulAtLeast(q' - q, m);
    }
  }

  lemma MulAtLeast(a: int, m: int)
    requires a >= 1 && m > 0
    ensures a * m >= m
  {
    assert a * m == (a - 1) * m + m;
  }
}
