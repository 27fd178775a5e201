/** The decoding session (`lerc`): the header, the mask and the block grid.

    Layout of a blob: the 10 magic bytes "CntZImage "; at 10 the u32 version (11),
    u32 image type (8), u32 height, u32 width and the float64 maximum error; at 34 a
    16-byte descriptor (u32 block rows nbY, u32 block columns nbX, u32 byte count nB,
    float32 maximum value).  When the blob has at least 66 + nB bytes that first
    descriptor is the mask's, its nB bytes of run-length data follow at 50, and the
    value descriptor sits at 50 + nB; the value blocks start at 66 + nB. */
module Codec {
  import opened Failures
  import opened Arith
  import opened Bytes
  import opened Floats
  import opened Rle
  import opened Mask
  import opened Grid
  import opened Block

  /** "CntZImage " */
  const Magic: seq<byte> := [67, 110, 116, 90, 73, 109, 97, 103, 101, 32]

  datatype Descriptor = Descriptor(nbY: nat, nbX: nat, nB: nat, maxVal: real)

  /** What `__init__` leaves in a valid session: the image size, the quantization
      step (twice the maximum error), the mask descriptor when the blob has one, and
      the value descriptor. */
  datatype Header = Header(h: nat, w: nat, u: real, mask: Option<Descriptor>, values: Descriptor)

  /** The outcome of `decode`: the three-None tuple of an invalid session, or the
      samples in row-major order. */
  datatype Decoded = Invalid | Samples(data: seq<real>)

  /** struct "<IIIf" at off. */
  function DescriptorAt(blob: seq<byte>, off: nat): Descriptor
    requires off + 16 <= |blob|
  {
    Descriptor(U32(blob, off), U32(blob, off + 4), U32(blob, off + 8), Float32Value(U32(blob, off + 12)))
  }

  /** Python's `a | b` on non-negative integers. */
  function BitOr(a: nat, b: nat): nat
    decreases a + b
  {
    if a == 0 then b
    else if b == 0 then a
    else 2 * BitOr(a / 2, b / 2) + (if a % 2 == 1 || b % 2 == 1 then 1 else 0)
  }

  /** The mask test of `__init__`: nbX | nbY == 0 and a maximum value of 1.0 or 0.0
      (a NaN or an infinity is neither). */
  predicate IsMaskDescriptor(blob: seq<byte>, off: nat)
    requires off + 16 <= |blob|
  {
    var bits := U32(blob, off + 12);
    BitOr(U32(blob, off + 4), U32(blob, off)) == 0
      && IsFinite32(bits) && (Float32Value(bits) == 1.0 || Float32Value(bits) == 0.0)
  }

  /** lerc(blob): the header of a valid session, None for an invalid one (every
      exception `__init__` catches). */
  function ParseHeader(blob: seq<byte>): Option<Header>
  {
    if |blob| < 10 || blob[..10] != Magic then None
    else if |blob| < 34 then None
    else if U32(blob, 10) != 11 || U32(blob, 14) != 8 then None
    else if |blob| < 50 then None
    else
      var h, w, u := U32(blob, 18), U32(blob, 22), 2.0 * Float64Value(U64(blob, 26));
      var first := DescriptorAt(blob, 34);
      if |blob| >= 66 + first.nB then
        if !IsMaskDescriptor(blob, 34) then None
        else Some(Header(h, w, u, Some(first), DescriptorAt(blob, 50 + first.nB)))
      else Some(Header(h, w, u, None, first))
  }

  /** int(maxVal * 255): the fill byte of a mask without run-length data, whose
      maximum value the header admits only as 1.0 or 0.0. */
  function FillByte(maxVal: real): byte
  {
    if maxVal == 1.0 then 255 else 0
  }

  /** decode_mask(blob): the fill of a mask without run-length data, or the decoded
      run-length bytes.  decode_RLE's None for a missing end marker reaches bitmask
      as "no data", which fills the mask with 255. */
  function MaskSpec(w: nat, h: nat, md: Option<Descriptor>, blob: seq<byte>): Result<Bitmask>
  {
    match md
    case None => Err(NoMaskDescriptor)
    case Some(d) =>
      if d.nB == 0 then Ok(NewBitmask(w, h, FillByte(d.maxVal), None))
      else
        match RleFrom(blob, 50, d.nB, [])
        case Err(e) => Err(e)
        case Ok(data) => Ok(NewBitmask(w, h, 255, data))
  }

  /** The blocks of `read_tiles` from the k-th origin on: each block is read at the
      offset the previous one returned. */
  function BlocksFrom(data: seq<real>, tiles: seq<(nat, nat)>, w: nat, h: nat, bw: nat, bh: nat,
                      m: Bitmask, q: real, maxVal: real, blob: seq<byte>, off: nat): (r: Result<Written>)
    ensures r.Ok? ==> |r.value.data| == |data|
    decreases |tiles|
  {
    if |tiles| == 0 then Ok(Written(data, off))
    else
      var tx, ty := tiles[0].0, tiles[0].1;
      match BlockSpec(data, Range(tx, tx + Extent(tx, bw, w)), Range(ty, ty + Extent(ty, bh, h)), m, q, maxVal, blob, off)
      case Err(e) => Err(e)
      case Ok(wr) => BlocksFrom(wr.data, tiles[1..], w, h, bw, bh, m, q, maxVal, blob, wr.next)
  }

  /** The n zero samples `read_tiles` starts from. */
  function ZeroGrid(n: nat): (r: seq<real>)
    ensures |r| == n
  {
    seq(n, _ => 0.0)
  }

  /** read_tiles(blob): block sizes h // nbY and w // nbX, a zero-filled w * h grid,
      and the blocks from offset 66 + nB of the mask data. */
  function TilesSpec(h: nat, w: nat, vd: Descriptor, maskBytes: nat, m: Bitmask, q: real, blob: seq<byte>): (r: Result<seq<real>>)
    ensures r.Ok? ==> |r.value| == w * h
  {
    if vd.nbY == 0 || vd.nbX == 0 then Err(ZeroBlockCount)
    else
      var bh, bw := h / vd.nbY, w / vd.nbX;
      if bw == 0 || bh == 0 then Err(ZeroBlockSize)
      else
        match BlocksFrom(ZeroGrid(w * h), Origins(w, h, bw, bh), w, h, bw, bh, m, q, vd.maxVal, blob, 66 + maskBytes)
        case Err(e) => Err(e)
        case Ok(wr) => Ok(wr.data)
  }

  /** decode(blob) on a valid session once its mask is known: the samples, or the
      failure of the mask or of the block walk. */
  function DecodeWith(hd: Header, mr: Result<Bitmask>, blob: seq<byte>): Result<Decoded>
  {
    match mr
    case Err(e) => Err(e)
    case Ok(m) =>
      if hd.mask.None? then Err(NoMaskDescriptor)
      else
        match TilesSpec(hd.h, hd.w, hd.values, hd.mask.value.nB, m, hd.u, blob)
        case Err(e) => Err(e)
        case Ok(data) => Ok(Samples(data))
  }

  /** decode(blob) on a session in the given state: the cached mask, when there is
      one, is used instead of decoding the mask again. */
  function DecodeSpec(hd: Option<Header>, cached: Option<Bitmask>, blob: seq<byte>): Result<Decoded>
  {
    match hd
    case None => Ok(Invalid)
    case Some(hd) =>
      DecodeWith(hd, if cached.Some? then Ok(cached.value) else MaskSpec(hd.w, hd.h, hd.mask, blob), blob)
  }

  /** The block loop of `read_tiles`, threading the offset from block to block. */
  method ReadBlocks(data: array<real>, tiles: seq<(nat, nat)>, w: nat, h: nat, bw: nat, bh: nat,
                    m: Bitmask, q: real, maxVal: real, blob: seq<byte>, offset: nat) returns (r: Result<nat>)
    modifies data
    ensures Outcome(r, data[..]) == BlocksFrom(old(data[..]), tiles, w, h, bw, bh, m, q, maxVal, blob, offset)
  {
    var off := offset;
    var i := 0;
    ghost var goal := BlocksFrom(data[..], tiles, w, h, bw, bh, m, q, maxVal, blob, offset);
    while i < |tiles|
      invariant 0 <= i <= |tiles|
      invariant BlocksFrom(data[..], tiles[i..], w, h, bw, bh, m, q, maxVal, blob, off) == goal
    {
      var tx, ty := tiles[i].0, tiles[i].1;
      var xs, ys := Range(tx, tx + Extent(tx, bw, w)), Range(ty, ty + Extent(ty, bh, h));
      ghost var cur := data[..];
      ghost var first := BlockSpec(cur, xs, ys, m, q, maxVal, blob, off);
      assert tiles[i..][0] == tiles[i] && tiles[i..][1..] == tiles[i + 1..];
      BlocksStep(cur, tiles[i..], w, h, bw, bh, m, q, maxVal, blob, off);
      var next := ReadBlock(data, xs, ys, m, q, maxVal, blob, off);
      assert Outcome(next, data[..]) == first;
      if next.Err? {
        return Err(next.error);
      }
      off := next.value;
      i := i + 1;
    }
    return Ok(off);
  }

  /** One block of the walk: the first block is read where the walk starts, and the
      rest of the walk continues from the samples and offset it leaves. */
  lemma BlocksStep(data: seq<real>, tiles: seq<(nat, nat)>, w: nat, h: nat, bw: nat, bh: nat,
                   m: Bitmask, q: real, maxVal: real, blob: seq<byte>, off: nat)
    requires |tiles| > 0
    ensures var tx, ty := tiles[0].0, tiles[0].1;
      var first := BlockSpec(data, Range(tx, tx + Extent(tx, bw, w)), Range(ty, ty + Extent(ty, bh, h)), m, q, maxVal, blob, off);
      BlocksFrom(data, tiles, w, h, bw, bh, m, q, maxVal, blob, off)
        == if first.Err? then Err(first.error)
           else BlocksFrom(first.value.data, tiles[1..], w, h, bw, bh, m, q, maxVal, blob, first.value.next)
  {
  }

  /** A decoding session over one header. */
  class Lerc {
    var valid: bool
    var h: nat
    var w: nat
    var u: real
    var maskDesc: Option<Descriptor>
    var values: Descriptor
    var mask: Option<Bitmask>

    /** The header the fields hold, when the session is valid. */
    function State(): Option<Header>
      reads this
    {
      if valid then Some(Header(h, w, u, maskDesc, values)) else None
    }

    /** A cached mask was decoded from a mask descriptor. */
    ghost predicate Consistent()
      reads this
    {
      mask.Some? ==> valid && maskDesc.Some?
    }

    /** lerc(blob): reads the header; the session is valid exactly when it parses. */
    constructor(blob: seq<byte>)
      ensures State() == ParseHeader(blob) && mask == None && Consistent()
    {
      var hd := ParseHeader(blob);
      valid := hd.Some?;
      if hd.Some? {
        h, w, u := hd.value.h, hd.value.w, hd.value.u;
        maskDesc, values := hd.value.mask, hd.value.values;
      } else {
        h, w, u := 0, 0, 0.0;
        maskDesc, values := None, Descriptor(0, 0, 0, 0.0);
      }
      mask := None;
    }

    /** decode_mask(blob). */
    method DecodeMask(blob: seq<byte>) returns (r: Result<Bitmask>)
      ensures r == MaskSpec(w, h, maskDesc, blob)
    {
      if maskDesc.None? {
        return Err(NoMaskDescriptor);
      }
      var d := maskDesc.value;
      if d.nB == 0 {
        return Ok(NewBitmask(w, h, FillByte(d.maxVal), None));
      }
      var data := DecodeRle(blob, 50, d.nB);
      if data.Err? {
        return Err(data.error);
      }
      // a missing end marker gives None, which bitmask takes for "no data"
      return Ok(NewBitmask(w, h, 255, data.value));
    }

    /** read_tiles(blob), for a session whose mask is decoded. */
    method ReadTiles(blob: seq<byte>) returns (r: Result<seq<real>>)
      requires maskDesc.Some? && mask.Some?
      ensures r == TilesSpec(h, w, values, maskDesc.value.nB, mask.value, u, blob)
    {
      if values.nbY == 0 || values.nbX == 0 {
        return Err(ZeroBlockCount);
      }
      var bh := h / values.nbY;
      var bw := w / values.nbX;
      var offset: nat := 66 + maskDesc.value.nB;
      if bw == 0 || bh == 0 {
        return Err(ZeroBlockSize);
      }
      var result := new real[w * h](_ => 0.0);
      assert result[..] == ZeroGrid(w * h);
      var next := ReadBlocks(result, Origins(w, h, bw, bh), w, h, bw, bh, mask.value, u, values.maxVal, blob, offset);
      if next.Err? {
        return Err(next.error);
      }
      return Ok(result[..]);
    }

    /** decode(blob): Invalid for an invalid session; otherwise the mask is decoded
        and cached on first use, and the samples are read.  A cached mask is reused
        for every later blob. */
    method Decode(blob: seq<byte>) returns (r: Result<Decoded>)
      requires Consistent()
      modifies this
      ensures r == DecodeSpec(old(State()), old(mask), blob)
      ensures State() == old(State()) && Consistent()
      ensures mask == if !valid || old(mask).Some? then old(mask)
                      else match MaskSpec(w, h, maskDesc, blob)
                           case Ok(m) => Some(m)
                           case Err(_) => None
    {
      if !valid {
        return Ok(Invalid);
      }
      if mask.None? {
        var m := DecodeMask(blob);
        if m.Err? {
          return Err(m.error);
        }
        mask := Some(m.value);
      }
      if maskDesc.None? {
        return Err(NoMaskDescriptor);
      }
      var data := ReadTiles(blob);
      if data.Err? {
        return Err(data.error);
      }
      return Ok(Samples(data.value));
    }
  }
}
