/** What the session promises: which blobs give a valid header, what the mask is,
    that the block walk never writes outside the image, and how caching the mask
    behaves. */
module CodecProps {
  import opened Failures
  import opened Arith
  import opened Bytes
  import opened Floats
  import opened Rle
  import opened QVal
  import opened QValProps
  import opened Mask
  import opened Grid
  import opened Block
  import opened BlockProps
  import opened Codec

  /** a | b is zero exactly when both are. */
  lemma {:induction false} BitOrZero(a: nat, b: nat)
    ensures BitOr(a, b) == 0 <==> a == 0 && b == 0
    decreases a + b
  {
    if a != 0 && b != 0 && a % 2 == 0 && b % 2 == 0 {
      BitOrZero(a / 2, b / 2);
    }
  }

  /** The mask test accepts exactly the descriptors with no block rows or columns and
      a maximum value of +0.0, -0.0 or 1.0. */
  lemma MaskDescriptorBits(blob: seq<byte>, off: nat)
    requires off + 16 <= |blob|
    ensures IsMaskDescriptor(blob, off) <==>
      U32(blob, off) == 0 && U32(blob, off + 4) == 0 &&
      (U32(blob, off + 12) == 0 || U32(blob, off + 12) == 0x8000_0000 || U32(blob, off + 12) == 0x3F80_0000)
  {
    var bits := U32(blob, off + 12);
    BitOrZero(U32(blob, off + 4), U32(blob, off));
    Float32Zero(bits);
    Float32One(bits);
    SignedZeros(bits);
  }

  /** The 32-bit patterns whose low 31 bits are clear: +0.0 and -0.0. */
  lemma SignedZeros(bits: nat)
    requires bits < 0x1_0000_0000
    ensures bits % 0x8000_0000 == 0 <==> bits == 0 || bits == 0x8000_0000
  {
    if bits < 0x8000_0000 {
      DivModUnique(bits, 0x8000_0000, 0, bits);
    } else {
      DivModUnique(bits, 0x8000_0000, 1, bits - 0x8000_0000);
    }
  }

  /** A session is valid exactly when the blob has the magic bytes, at least the 50
      bytes of the header and first descriptor, version 11 and type 8, and, when the
      first descriptor is taken for the mask's, passes the mask test.  The mask
      descriptor is present exactly when the blob has 66 + nB bytes, and the value
      descriptor then follows the mask data. */
  lemma HeaderValid(blob: seq<byte>)
    ensures ParseHeader(blob).Some? <==>
      |blob| >= 50 && blob[..10] == Magic && U32(blob, 10) == 11 && U32(blob, 14) == 8 &&
      (|blob| >= 66 + U32(blob, 42) ==>
        U32(blob, 34) == 0 && U32(blob, 38) == 0 &&
        (U32(blob, 46) == 0 || U32(blob, 46) == 0x8000_0000 || U32(blob, 46) == 0x3F80_0000))
    ensures ParseHeader(blob).Some? ==>
      var hd := ParseHeader(blob).value;
      hd.h == U32(blob, 18) && hd.w == U32(blob, 22) &&
      (hd.mask.Some? <==> |blob| >= 66 + U32(blob, 42)) &&
      (hd.mask.Some? ==> hd.mask.value.nB == U32(blob, 42) && hd.values == DescriptorAt(blob, 50 + U32(blob, 42))) &&
      (hd.mask.None? ==> hd.values == DescriptorAt(blob, 34))
  {
    if |blob| >= 50 {
      MaskDescriptorBits(blob, 34);
    }
  }

  /** A mask without run-length data is all set for a maximum value of 1.0 and all
      clear for 0.0. */
  lemma MaskFill(w: nat, h: nat, d: Descriptor, blob: seq<byte>, x: nat, y: nat)
    requires d.nB == 0 && (d.maxVal == 1.0 || d.maxVal == 0.0) && x < w && y < h
    ensures MaskSpec(w, h, Some(d), blob).Ok?
    ensures At(MaskSpec(w, h, Some(d), blob).value, x, y) == Ok(d.maxVal == 1.0)
  {
    if d.maxVal == 1.0 {
      FilledAt(w, h, x, y);
    } else {
      EmptyAt(w, h, x, y);
    }
  }

  /** The mask from run-length data holds the decoded bytes. */
  lemma MaskFromRuns(w: nat, h: nat, d: Descriptor, blob: seq<byte>, runs: seq<Run>)
    requires d.nB == |Encode(runs)| && d.nB > 0
    requires forall i :: 0 <= i < |runs| ==> WellFormed(runs[i])
    requires 50 + |Encode(runs)| <= |blob| && blob[50..50 + |Encode(runs)|] == Encode(runs)
    ensures MaskSpec(w, h, Some(d), blob) == Ok(Bitmask(w, h, Expand(runs)))
  {
    RleRoundTrip(blob, 50, runs, []);
    assert [] + Expand(runs) == Expand(runs);
  }

  /** The run-length data of the mask lacks its end marker: decode_RLE returns None. */
  predicate MissingMarker(md: Option<Descriptor>, blob: seq<byte>)
  {
    md.Some? && md.value.nB > 0 && RleFrom(blob, 50, md.value.nB, []) == Ok(None)
  }

  /** As written, mask data whose end marker is missing yields a mask with every
      pixel set. */
  lemma MissingEndMarker(w: nat, h: nat, d: Descriptor, blob: seq<byte>, x: nat, y: nat)
    requires MissingMarker(Some(d), blob) && x < w && y < h
    ensures MaskSpec(w, h, Some(d), blob) == Ok(NewBitmask(w, h, 255, None))
    ensures At(MaskSpec(w, h, Some(d), blob).value, x, y) == Ok(true)
  {
    FilledAt(w, h, x, y);
  }

  /** decode_mask as evidently intended: run-length data without its end marker is
      a failure. */
  function CorrectedMaskSpec(w: nat, h: nat, md: Option<Descriptor>, blob: seq<byte>): Result<Bitmask>
  {
    match md
    case None => Err(NoMaskDescriptor)
    case Some(d) =>
      if d.nB == 0 then Ok(NewBitmask(w, h, FillByte(d.maxVal), None))
      else
        match RleFrom(blob, 50, d.nB, [])
        case Err(e) => Err(e)
        case Ok(None) => Err(BadEndMarker)
        case Ok(Some(bytes)) => Ok(Bitmask(w, h, bytes))
  }

  /** decode as evidently intended, on a session with no mask cached. */
  function CorrectedDecodeSpec(hd: Option<Header>, blob: seq<byte>): Result<Decoded>
  {
    match hd
    case None => Ok(Invalid)
    case Some(hd) => DecodeWith(hd, CorrectedMaskSpec(hd.w, hd.h, hd.mask, blob), blob)
  }

  /** The corrected mask decoder differs from the original exactly when the end
      marker is missing, and then fails; a mask it decodes from run-length data is
      the decoded bytes of a stream that ends in the marker. */
  lemma CorrectedMask(w: nat, h: nat, md: Option<Descriptor>, blob: seq<byte>)
    ensures CorrectedMaskSpec(w, h, md, blob) != MaskSpec(w, h, md, blob) <==> MissingMarker(md, blob)
    ensures MissingMarker(md, blob) ==> CorrectedMaskSpec(w, h, md, blob) == Err(BadEndMarker)
    ensures var r := CorrectedMaskSpec(w, h, md, blob);
      r.Ok? ==> md.Some? && (md.value.nB > 0 ==> RleFrom(blob, 50, md.value.nB, []) == Ok(Some(r.value.data)))
  {
  }

  /** On a session whose mask data lacks its end marker, the corrected decode fails
      where the original decodes the samples under a mask with every pixel set; on
      every other session the two agree. */
  lemma CorrectedDecode(hd: Header, blob: seq<byte>)
    ensures MissingMarker(hd.mask, blob) ==>
      CorrectedDecodeSpec(Some(hd), blob) == Err(BadEndMarker) &&
      DecodeSpec(Some(hd), None, blob) == DecodeWith(hd, Ok(NewBitmask(hd.w, hd.h, 255, None)), blob)
    ensures !MissingMarker(hd.mask, blob) ==> CorrectedDecodeSpec(Some(hd), blob) == DecodeSpec(Some(hd), None, blob)
  {
    CorrectedMask(hd.w, hd.h, hd.mask, blob);
  }

  /** A 69-byte blob of a 1 x 1 image: version 11, type 8, any maximum error; a mask
      descriptor with nB = 2 and maximum 0.0, whose two bytes of run-length data are 0
      where the end marker -32768 belongs; a value descriptor of one block; and one
      constant block (flags 2, minimum 0.0). */
  predicate Markerless(b: seq<byte>)
  {
    && |b| == 69 && b[..10] == Magic
    && b[10..14] == [11, 0, 0, 0] && b[14..18] == [8, 0, 0, 0]
    && b[18..22] == [1, 0, 0, 0] && b[22..26] == [1, 0, 0, 0]
    && b[34..38] == [0, 0, 0, 0] && b[38..42] == [0, 0, 0, 0]
    && b[42..46] == [2, 0, 0, 0] && b[46..50] == [0, 0, 0, 0]
    && b[50..52] == [0, 0]
    && b[52..56] == [1, 0, 0, 0] && b[56..60] == [1, 0, 0, 0]
    && b[60..64] == [0, 0, 0, 0] && b[64..68] == [0, 0, 0, 0]
    && b[68] == 2
  }

  /** As written such a blob decodes to the single sample 0.0; the corrected
      decoder rejects it. */
  lemma MarkerlessDecode(b: seq<byte>)
    requires Markerless(b)
    ensures DecodeSpec(ParseHeader(b), None, b) == Ok(Samples([0.0]))
    ensures CorrectedDecodeSpec(ParseHeader(b), b) == Err(BadEndMarker)
  {
    MarkerlessHeader(b);
    var hd := ParseHeader(b).value;
    assert MissingMarker(hd.mask, b) by {
      assert b[50] == b[50..52][0] && b[51] == b[50..52][1];
      assert I16(b, 50) == 0;
    }
    CorrectedDecode(hd, b);
    MarkerlessTiles(b, NewBitmask(1, 1, 255, None), hd.u);
  }

  lemma MarkerlessHeader(b: seq<byte>)
    requires Markerless(b)
    ensures ParseHeader(b).Some?
    ensures var hd := ParseHeader(b).value;
      hd.h == 1 && hd.w == 1 && hd.mask == Some(Descriptor(0, 0, 2, 0.0)) && hd.values == Descriptor(1, 1, 0, 0.0)
  {
    U32Of(b, 10, 11); U32Of(b, 14, 8); U32Of(b, 18, 1); U32Of(b, 22, 1);
    MarkerlessDescriptors(b);
  }

  /** The two descriptors of such a blob: a mask descriptor without run-length data
      and maximum 2 * 0.0, and a one-block value descriptor. */
  lemma MarkerlessDescriptors(b: seq<byte>)
    requires Markerless(b)
    ensures DescriptorAt(b, 34) == Descriptor(0, 0, 2, 0.0) && IsMaskDescriptor(b, 34)
    ensures DescriptorAt(b, 52) == Descriptor(1, 1, 0, 0.0)
  {
    U32Of(b, 34, 0); U32Of(b, 38, 0); U32Of(b, 42, 2); U32Of(b, 46, 0);
    U32Of(b, 52, 1); U32Of(b, 56, 1); U32Of(b, 60, 0); U32Of(b, 64, 0);
    assert Float32Value(0) == 0.0 && IsFinite32(0);
  }

  /** The one constant block of such a blob sets the one sample to 0.0, whatever the
      mask. */
  lemma MarkerlessTiles(b: seq<byte>, m: Bitmask, q: real)
    requires Markerless(b) && m.w == 1
    ensures TilesSpec(1, 1, Descriptor(1, 1, 0, 0.0), 2, m, q, b) == Ok([0.0])
  {
    assert Origins(1, 1, 1, 1) == [(0, 0)] by {
      assert RangeStep(0, 1, 1) == [0];
    }
    assert Range(0, 0 + Extent(0, 1, 1)) == [0];
    assert Dloop([0], [0]) == [(0, 0)];
    assert ConstantCells(ZeroGrid(1), [(0, 0)], m, 0.0) == Ok([0.0]) by {
      assert Index(m, 0, 0) == 0;
      assert ZeroGrid(1)[0 := 0.0] == [0.0];
    }
    assert BlockSpec(ZeroGrid(1), [0], [0], m, q, 0.0, b, 68) == Ok(Written([0.0], 69));
  }

  /** The four bytes at off are v < 256 and three zeros. */
  lemma U32Of(blob: seq<byte>, off: nat, v: nat)
    requires off + 4 <= |blob| && v < 256 && blob[off..off + 4] == [v, 0, 0, 0]
    ensures U32(blob, off) == v
  {
    var s := blob[off..off + 4];
    assert LeValue(s[3..]) == 0 by {
      assert s[3..][1..] == [];
    }
    assert s[2..][1..] == s[3..] && s[1..][1..] == s[2..];
    assert LeValue(s[2..]) == 0;
    assert LeValue(s[1..]) == 0;
    assert LeValue(s) == v;
  }

  /** A valid session without a mask descriptor cannot decode. */
  lemma NoMaskFails(blob: seq<byte>, cached: Option<Bitmask>)
    requires ParseHeader(blob).Some? && ParseHeader(blob).value.mask.None?
    ensures DecodeSpec(ParseHeader(blob), cached, blob) == Err(NoMaskDescriptor)
  {
  }

  /** Decoding with the cached mask gives what decoding the mask again would. */
  lemma CachedMask(hd: Header, m: Bitmask, blob: seq<byte>)
    requires MaskSpec(hd.w, hd.h, hd.mask, blob) == Ok(m)
    ensures DecodeSpec(Some(hd), Some(m), blob) == DecodeSpec(Some(hd), None, blob)
  {
  }

  /** More block columns than pixel columns give blocks of width 0, which fail. */
  lemma TooManyColumns(h: nat, w: nat, vd: Descriptor, maskBytes: nat, m: Bitmask, q: real, blob: seq<byte>)
    requires vd.nbY > 0 && vd.nbX > w
    ensures TilesSpec(h, w, vd, maskBytes, m, q, blob) == Err(ZeroBlockSize)
  {
    DivModUnique(w, vd.nbX, 0, w);
  }

  /** The block walk of a session whose mask has the image's width never writes past
      the w * h samples. */
  lemma TilesInside(h: nat, w: nat, vd: Descriptor, maskBytes: nat, m: Bitmask, q: real, blob: seq<byte>)
    requires m.w == w
    ensures TilesSpec(h, w, vd, maskBytes, m, q, blob) != Err(DataIndex)
  {
    if vd.nbY > 0 && vd.nbX > 0 {
      var bh, bw := h / vd.nbY, w / vd.nbX;
      if bw > 0 && bh > 0 {
        WalkInside(h, w, bh, bw, m, q, vd.maxVal, blob, 66 + maskBytes);
      } else {
        assert TilesSpec(h, w, vd, maskBytes, m, q, blob) == Err(ZeroBlockSize);
      }
    } else {
      assert TilesSpec(h, w, vd, maskBytes, m, q, blob) == Err(ZeroBlockCount);
    }
  }

  lemma WalkInside(h: nat, w: nat, bh: nat, bw: nat, m: Bitmask, q: real, maxVal: real, blob: seq<byte>, off: nat)
    requires bw > 0 && bh > 0 && m.w == w
    ensures BlocksFrom(ZeroGrid(w * h), Origins(w, h, bw, bh), w, h, bw, bh, m, q, maxVal, blob, off) != Err(DataIndex)
  {
    var tiles := Origins(w, h, bw, bh);
    BlocksInside(ZeroGrid(w * h), tiles, w, h, bw, bh, m, q, maxVal, blob, off);
  }

  lemma {:induction false} BlocksInside(data: seq<real>, tiles: seq<(nat, nat)>, w: nat, h: nat, bw: nat, bh: nat,
                                        m: Bitmask, q: real, maxVal: real, blob: seq<byte>, off: nat)
    requires bw > 0 && bh > 0 && m.w == w && |data| == w * h
    requires forall k :: 0 <= k < |tiles| ==> tiles[k] in Origins(w, h, bw, bh)
    ensures BlocksFrom(data, tiles, w, h, bw, bh, m, q, maxVal, blob, off) != Err(DataIndex)
    decreases |tiles|
  {
    if |tiles| > 0 {
      var tx, ty := tiles[0].0, tiles[0].1;
      var xs, ys := Range(tx, tx + Extent(tx, bw, w)), Range(ty, ty + Extent(ty, bh, h));
      TileIndices(w, h, bw, bh, tx, ty, m);
      BlockInBounds(data, xs, ys, m, q, maxVal, blob, off);
      var first := BlockSpec(data, xs, ys, m, q, maxVal, blob, off);
      if first.Ok? {
        assert forall k :: 0 <= k < |tiles[1..]| ==> tiles[1..][k] == tiles[k + 1];
        BlocksInside(first.value.data, tiles[1..], w, h, bw, bh, m, q, maxVal, blob, first.value.next);
      }
    }
  }

  /** The samples of a block's pixels lie among the first w * h. */
  lemma TileIndices(w: nat, h: nat, bw: nat, bh: nat, tx: nat, ty: nat, m: Bitmask)
    requires bw > 0 && bh > 0 && m.w == w && (tx, ty) in Origins(w, h, bw, bh)
    ensures forall p :: p in BlockCells(tx, ty, w, h, bw, bh) ==> Index(m, p.0, p.1) < w * h
  {
    forall p | p in BlockCells(tx, ty, w, h, bw, bh)
      ensures Index(m, p.0, p.1) < w * h
    {
      BlockInside(w, h, bw, bh, tx, ty, p.0, p.1);
      PixelIndex(m, p.0, p.1, h);
    }
  }

  /** A block whose pixels' samples are all inside the array never fails with an
      out-of-range write. */
  lemma BlockInBounds(data: seq<real>, xs: seq<nat>, ys: seq<nat>, m: Bitmask, q: real, maxVal: real,
                      blob: seq<byte>, off: nat)
    requires forall p :: p in Dloop(xs, ys) ==> Index(m, p.0, p.1) < |data|
    ensures BlockSpec(data, xs, ys, m, q, maxVal, blob, off) != Err(DataIndex)
  {
    var pts := Dloop(xs, ys);
    if off < |blob| && blob[off] % 64 < 4 {
      var mf, mode := blob[off] / 64, blob[off] % 64;
      if mode == 0 {
        MaskedInBounds(data, pts, m, Floats32(blob, off + 1), 0, Truncated);
      } else {
        var mn := MinimumAt(blob, off + 1, mf, mode % 2 == 1);
        if mn.Ok? {
          if mode / 2 == 1 {
            ConstantInBounds(data, pts, m, mn.value.value);
          } else {
            QValErrors(blob, mn.value.next);
            var qv := ReadQValSpec(blob, mn.value.next);
            if qv.Ok? && qv.value.codes.Some? {
              MaskedInBounds(data, pts, m, Quantized(qv.value.codes.value, mn.value.value, q, maxVal), 0, NoCodes);
            }
          }
        }
      }
    }
  }

  lemma {:induction false} MaskedInBounds(data: seq<real>, pts: seq<(nat, nat)>, m: Bitmask, vals: seq<real>, k: nat, short: Error)
    requires short != DataIndex
    requires forall p :: p in pts ==> Index(m, p.0, p.1) < |data|
    ensures MaskedCells(data, pts, m, vals, k, short) != Err(DataIndex)
    decreases |pts|
  {
    if |pts| > 0 {
      assert pts[0] in pts;
      assert forall p :: p in pts[1..] ==> p in pts;
      var x, y := pts[0].0, pts[0].1;
      if At(m, x, y) == Ok(true) {
        if k < |vals| {
          MaskedInBounds(data[Index(m, x, y) := vals[k]], pts[1..], m, vals, k + 1, short);
        }
      } else {
        MaskedInBounds(data, pts[1..], m, vals, k, short);
      }
    }
  }

  lemma {:induction false} ConstantInBounds(data: seq<real>, pts: seq<(nat, nat)>, m: Bitmask, v: real)
    requires forall p :: p in pts ==> Index(m, p.0, p.1) < |data|
    ensures ConstantCells(data, pts, m, v).Ok?
    decreases |pts|
  {
    if |pts| > 0 {
      assert pts[0] in pts;
      assert forall p :: p in pts[1..] ==> p in pts;
      ConstantInBounds(data[Index(m, pts[0].0, pts[0].1) := v], pts[1..], m, v);
    }
  }
}
