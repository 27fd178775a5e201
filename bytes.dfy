/** The blob as a sequence of bytes and the little-endian field readers the original
    performs with `struct.unpack_from`.  A reader is only applied where the caller has
    checked that the field fits; the caller turns a field that does not fit into
    `Err(Truncated)`, the model of `struct.error`. */
module Bytes {
  import opened Arith

  type byte = b: int | 0 <= b < 256

  /** Unsigned little-endian value of a byte string. */
  function LeValue(s: seq<byte>): (r: nat)
    ensures r < Pow2(8 * |s|)
  {
    if |s| == 0 then 0
    else
      Pow2Add(8, 8 * (|s| - 1));
      s[0] + 256 * LeValue(s[1..])
  }

  /** The k low-order bytes of x, least significant first: the format's writer. */
  function LeBytes(x: nat, k: nat): (r: seq<byte>)
    ensures |r| == k
  {
    if k == 0 then [] else [x % 256] + LeBytes(x / 256, k - 1)
  }

  lemma {:induction false} LeRoundTrip(x: nat, k: nat)
    requires x < Pow2(8 * k)
    ensures LeValue(LeBytes(x, k)) == x
  {
    if k > 0 {
      Pow2Add(8, 8 * (k - 1));
      assert x / 256 < Pow2(8 * (k - 1));
      LeRoundTrip(x / 256, k - 1);
      assert LeBytes(x, k)[1..] == LeBytes(x / 256, k - 1);
    }
  }

  /** ceil(bits / 8): the bytes that hold `bits` bits, as bitmask and read_qval
      both compute it. */
  function ByteLength(bits: nat): (r: nat)
    ensures bits <= 8 * r < bits + 8
  {
    (bits + 7) / 8
  }

  /** Appending a byte adds it at the next significance. */
  lemma {:induction false} LeValueSnoc(s: seq<byte>, b: byte)
    ensures LeValue(s + [b]) == LeValue(s) + b * Pow2(8 * |s|)
  {
    if |s| > 0 {
      assert (s + [b])[1..] == s[1..] + [b];
      LeValueSnoc(s[1..], b);
      Pow2Add(8, 8 * (|s| - 1));
      Pow2Constants();
      ShiftedSum(s[0], LeValue(s[1..]), b, Pow2(8 * (|s| - 1)));
    }
  }

  lemma ShiftedSum(a: int, v: int, b: int, p: int)
    ensures a + 256 * (v + b * p) == (a + 256 * v) + b * (256 * p)
  {
  }

  function U8(blob: seq<byte>, off: nat): byte
    requires off + 1 <= |blob|
  {
    blob[off]
  }

  /** struct "b": a signed byte. */
  function I8(blob: seq<byte>, off: nat): (r: int)
    requires off + 1 <= |blob|
    ensures -128 <= r < 128
  {
    if blob[off] >= 128 then blob[off] as int - 256 else blob[off] as int
  }

  /** struct "<H". */
  function U16(blob: seq<byte>, off: nat): (r: nat)
    requires off + 2 <= |blob|
    ensures r < 0x1_0000
  {
    blob[off] as int + 0x100 * blob[off + 1] as int
  }

  /** struct "<h": two's complement. */
  function I16(blob: seq<byte>, off: nat): (r: int)
    requires off + 2 <= |blob|
    ensures -0x8000 <= r < 0x8000
  {
    var u := U16(blob, off);
    if u >= 0x8000 then u - 0x1_0000 else u
  }

  /** struct "<I". */
  function U32(blob: seq<byte>, off: nat): (r: nat)
    requires off + 4 <= |blob|
    ensures r < 0x1_0000_0000
  {
    Pow2Constants();
    LeValue(blob[off..off + 4])
  }

  /** struct "<Q" (used for the 64-bit float field). */
  function U64(blob: seq<byte>, off: nat): (r: nat)
    requires off + 8 <= |blob|
  {
    LeValue(blob[off..off + 8])
  }

  /** The two bytes a writer stores for the 16-bit count c, two's complement. */
  function I16Bytes(c: int): (r: seq<byte>)
    ensures |r| == 2
  {
    var u := c % 0x1_0000;
    [u % 0x100, u / 0x100]
  }

  lemma I16RoundTrip(c: int, blob: seq<byte>, off: nat)
    requires -0x8000 <= c < 0x8000
    requires off + 2 <= |blob| && blob[off..off + 2] == I16Bytes(c)
    ensures I16(blob, off) == c
  {
    assert blob[off] == blob[off..off + 2][0] && blob[off + 1] == blob[off..off + 2][1];
  }
}
