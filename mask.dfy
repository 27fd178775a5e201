/** The validity mask (`bitmask`): one bit per pixel in row-major order, the first
    pixel of each byte in its most significant bit. */
module Mask {
  import opened Failures
  import opened Arith
  import opened Bytes
  import opened Bits

  datatype Bitmask = Bitmask(w: nat, h: nat, data: seq<byte>)

  /** bitmask(w, h, val, data): the given bytes, or ByteLength(w * h) copies of `val`
      when there are none. */
  function NewBitmask(w: nat, h: nat, val: byte, data: Option<seq<byte>>): (m: Bitmask)
    ensures m.w == w && m.h == h
  {
    match data
    case Some(bytes) => Bitmask(w, h, bytes)
    case None => Bitmask(w, h, seq(ByteLength(w * h), _ => val))
  }

  /** The bit position of pixel (x, y). */
  function Index(m: Bitmask, x: nat, y: nat): nat
  {
    y * m.w + x
  }

  /** at(x, y): the bit 128 >> (l % 8) of byte l / 8, for l = y * w + x; a byte
      index past the stored bytes is an IndexError. */
  function At(m: Bitmask, x: nat, y: nat): Result<bool>
  {
    var l := Index(m, x, y);
    if l / 8 < |m.data| then Ok((m.data[l / 8] / Pow2(7 - l % 8)) % 2 == 1)
    else Err(MaskIndex)
  }

  /** `at` reads the mask as the bit string of its bytes, each most significant bit
      first, and fails exactly past its end. */
  lemma AtBit(m: Bitmask, x: nat, y: nat)
    ensures At(m, x, y).Ok? <==> Index(m, x, y) < |Bits8(m.data)|
    ensures At(m, x, y).Ok? ==> At(m, x, y).value == Bits8(m.data)[Index(m, x, y)]
  {
    var l := Index(m, x, y);
    if l / 8 < |m.data| {
      Bits8At(m.data, l / 8, l % 8);
      ToBitsAt(m.data[l / 8], 8, l % 8);
      assert 8 * (l / 8) + l % 8 == l;
    }
  }

  /** A pixel of an image of m.w columns and `rows` rows lies within the first
      m.w * rows bits. */
  lemma PixelIndex(m: Bitmask, x: nat, y: nat, rows: nat)
    requires x < m.w && y < rows
    ensures Index(m, x, y) < m.w * rows
  {
    MulBoundLeft(y + 1, rows, m.w);
  }

  /** A mask whose bytes cover the image answers for every pixel of it. */
  lemma AtInside(m: Bitmask, x: nat, y: nat)
    requires x < m.w && y < m.h && |m.data| >= ByteLength(m.w * m.h)
    ensures At(m, x, y).Ok?
  {
    PixelIndex(m, x, y, m.h);
  }

  /** A mask filled with 255 (mask value 1.0) sets every pixel of the image. */
  lemma FilledAt(w: nat, h: nat, x: nat, y: nat)
    requires x < w && y < h
    ensures At(NewBitmask(w, h, 255, None), x, y) == Ok(true)
  {
    var m := NewBitmask(w, h, 255, None);
    PixelIndex(m, x, y, m.h);
    FullByte(7 - Index(m, x, y) % 8);
  }

  /** A mask filled with 0 (mask value 0.0) clears every pixel of the image. */
  lemma EmptyAt(w: nat, h: nat, x: nat, y: nat)
    requires x < w && y < h
    ensures At(NewBitmask(w, h, 0, None), x, y) == Ok(false)
  {
    var m := NewBitmask(w, h, 0, None);
    PixelIndex(m, x, y, m.h);
  }

  /** Every bit of the byte 255 is set. */
  lemma FullByte(j: nat)
    requires j < 8
    ensures (255 / Pow2(j)) % 2 == 1
  {
    assert Pow2(1) == 2 && Pow2(2) == 4 && Pow2(3) == 8 && Pow2(4) == 16;
    assert Pow2(5) == 32 && Pow2(6) == 64 && Pow2(7) == 128;
  }
}
