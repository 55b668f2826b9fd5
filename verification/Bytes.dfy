/** Fixed-width integers and their little-endian bytes. */
module Bytes {

  const U16_LIMIT := 0x1_0000
  const U32_LIMIT := 0x1_0000_0000
  const U64_LIMIT := 0x1_0000_0000_0000_0000

  type byte = x: int | 0 <= x < 256
  type u16 = x: int | 0 <= x < U16_LIMIT
  type u32 = x: int | 0 <= x < U32_LIMIT
  type u64 = x: int | 0 <= x < U64_LIMIT

  function U16Bytes(v: u16): (b: seq<byte>)
    ensures |b| == 2
  {
    [v % 256, v / 256]
  }

  function U32Bytes(v: u32): (b: seq<byte>)
    ensures |b| == 4
  {
    [v % 256, v / 256 % 256, v / 256 / 256 % 256, v / 256 / 256 / 256]
  }

  function U64Bytes(v: u64): (b: seq<byte>)
    ensures |b| == 8
  {
    U32Bytes(v % U32_LIMIT) + U32Bytes(v / U32_LIMIT)
  }

  function U16Of(b0: byte, b1: byte): u16 {
    var (i0: int, i1: int) := (b0, b1);
    i0 + 256 * i1
  }

  lemma U16RoundTrip(v: u16)
    ensures var b := U16Bytes(v); U16Of(b[0], b[1]) == v
  {
    var q: int := v / 256;
    assert v == 256 * q + v % 256;
  }

  function U32Of(b0: byte, b1: byte, b2: byte, b3: byte): u32 {
    var (i0: int, i1: int, i2: int, i3: int) := (b0, b1, b2, b3);
    i0 + 256 * i1 + 0x1_0000 * i2 + 0x100_0000 * i3
  }

  lemma U32RoundTrip(v: u32)
    ensures var b := U32Bytes(v); U32Of(b[0], b[1], b[2], b[3]) == v
  {
    var q1: int, q2: int, q3: int := v / 256, v / 256 / 256, v / 256 / 256 / 256;
    assert v == 256 * q1 + v % 256;
    assert q1 == 256 * q2 + q1 % 256;
    assert q2 == 256 * q3 + q2 % 256;
  }

  /** Four bytes are the encoding of the word they spell. */
  lemma U32Spelled(b: seq<byte>)
    requires |b| == 4
    ensures U32Bytes(U32Of(b[0], b[1], b[2], b[3])) == b
  {
    var b0: int, b1: int, b2: int, b3: int := b[0], b[1], b[2], b[3];
    var v: int := U32Of(b[0], b[1], b[2], b[3]);
    assert v == b0 + 256 * (b1 + 256 * (b2 + 256 * b3));
    assert v / 256 == b1 + 256 * (b2 + 256 * b3) && v % 256 == b0;
    assert v / 256 / 256 == b2 + 256 * b3;
    assert v / 256 / 256 / 256 == b3;
  }

  lemma U64RoundTrip(v: u64)
    ensures var b := U64Bytes(v);
      U32Of(b[0], b[1], b[2], b[3]) + U32_LIMIT * U32Of(b[4], b[5], b[6], b[7]) == v
  {
    U32RoundTrip(v % U32_LIMIT);
    U32RoundTrip(v / U32_LIMIT);
  }
}
