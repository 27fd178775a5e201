/** One block of samples (`read_block`).  A flags byte at the cursor holds the block
    mode in its low 6 bits and, in its top 2 bits, the width selector of the optional
    minimum.  Mode 0 stores a float32 per mask-set pixel; modes 2 and 3 fill the whole
    block with the minimum (0.0 in mode 2); mode 1 reads a minimum and a `read_qval`
    code array, and each mask-set pixel gets min(minimum + q * code, maxVal).
    Pixels are visited y outer, x inner, and pixel (x, y) is sample y * w + x. */
module Block {
  import opened Failures
  import opened Bytes
  import opened Floats
  import opened QVal
  import opened Mask
  import opened Grid

  /** The samples after a run of writes and a cursor: the offset after the block, or
      the number of values a masked loop consumed. */
  datatype Written = Written(data: seq<real>, next: nat)

  /** A method's result combined with the array it updated, to compare with a
      specification function. */
  function Outcome(r: Result<nat>, data: seq<real>): Result<Written>
  {
    match r
    case Ok(n) => Ok(Written(data, n))
    case Err(e) => Err(e)
  }

  /** min(v, maxVal), which keeps v on a tie. */
  function Clamp(v: real, maxVal: real): (r: real)
    ensures r <= maxVal && (r == v || r == maxVal)
  {
    if maxVal < v then maxVal else v
  }

  /** The float32 values stored back to back from `off`, as many as fit in the blob. */
  function Floats32(blob: seq<byte>, off: nat): (r: seq<real>)
    ensures off + 4 <= |blob| ==> |r| >= 1 && r[0] == Float32Value(U32(blob, off))
    decreases |blob| - off
  {
    if off + 4 <= |blob| then [Float32Value(U32(blob, off))] + Floats32(blob, off + 4) else []
  }

  /** The sample of a quantized code: min(mval + q * code, maxVal). */
  function Level(code: nat, mval: real, q: real, maxVal: real): (r: real)
    ensures r <= maxVal
  {
    Clamp(mval + q * (code as real), maxVal)
  }

  /** The quantized samples of a code array. */
  function Quantized(codes: seq<nat>, mval: real, q: real, maxVal: real): (r: seq<real>)
    ensures |r| == |codes|
  {
    if |codes| == 0 then []
    else [Level(codes[0], mval, q, maxVal)] + Quantized(codes[1..], mval, q, maxVal)
  }

  lemma {:induction false} QuantizedAt(codes: seq<nat>, mval: real, q: real, maxVal: real, k: nat)
    requires k < |codes|
    ensures Quantized(codes, mval, q, maxVal)[k] == Level(codes[k], mval, q, maxVal)
  {
    if k > 0 {
      QuantizedAt(codes[1..], mval, q, maxVal, k - 1);
    }
  }

  /** The masked loop shared by modes 0 and 1: for each pixel in order whose mask bit
      is set, take the next value vals[k] (failing with `short` when there is none)
      and write it at the pixel's sample.  The cursor of the result is the index of
      the first value left unused. */
  function MaskedCells(data: seq<real>, pts: seq<(nat, nat)>, m: Bitmask, vals: seq<real>, k: nat, short: Error): (r: Result<Written>)
    ensures r.Ok? ==> |r.value.data| == |data|
    decreases |pts|
  {
    if |pts| == 0 then Ok(Written(data, k))
    else
      var x, y := pts[0].0, pts[0].1;
      match At(m, x, y)
      case Err(e) => Err(e)
      case Ok(bit) =>
        if !bit then MaskedCells(data, pts[1..], m, vals, k, short)
        else if k >= |vals| then Err(short)
        else if Index(m, x, y) >= |data| then Err(DataIndex)
        else MaskedCells(data[Index(m, x, y) := vals[k]], pts[1..], m, vals, k + 1, short)
  }

  /** The constant loop of modes 2 and 3: every pixel gets v, mask or no mask. */
  function ConstantCells(data: seq<real>, pts: seq<(nat, nat)>, m: Bitmask, v: real): (r: Result<seq<real>>)
    ensures r.Ok? ==> |r.value| == |data|
    decreases |pts|
  {
    if |pts| == 0 then Ok(data)
    else if Index(m, pts[0].0, pts[0].1) >= |data| then Err(DataIndex)
    else ConstantCells(data[Index(m, pts[0].0, pts[0].1) := v], pts[1..], m, v)
  }

  datatype Minimum = Minimum(value: real, next: nat)

  /** The block minimum: absent (0.0), or a float32, int16 or int8 chosen by the
      selector mf; a selector of 3 indexes past the three formats. */
  function MinimumAt(blob: seq<byte>, p: nat, mf: nat, present: bool): Result<Minimum>
  {
    if !present then Ok(Minimum(0.0, p))
    else if mf >= 3 then Err(BadSelector)
    else if p + Width(mf) > |blob| then Err(Truncated)
    else
      var v :=
        if mf == 0 then Float32Value(U32(blob, p))
        else if mf == 1 then I16(blob, p) as real
        else I8(blob, p) as real;
      Ok(Minimum(v, p + Width(mf)))
  }

  /** read_block(data, xs, ys, mask, q, maxVal, blob, offset): the samples after the
      block and the offset after its bytes. */
  function BlockSpec(data: seq<real>, xs: seq<nat>, ys: seq<nat>, m: Bitmask, q: real, maxVal: real,
                     blob: seq<byte>, offset: nat): (r: Result<Written>)
    ensures r.Ok? ==> |r.value.data| == |data|
  {
    if offset + 1 > |blob| then Err(Truncated)
    else
      var mf, mode := blob[offset] / 64, blob[offset] % 64;
      var pts := Dloop(xs, ys);
      if mode >= 4 then Err(BadMode)
      else if mode == 0 then
        match MaskedCells(data, pts, m, Floats32(blob, offset + 1), 0, Truncated)
        case Err(e) => Err(e)
        case Ok(w) => Ok(Written(w.data, offset + 1 + 4 * w.next))
      else
        match MinimumAt(blob, offset + 1, mf, mode % 2 == 1)
        case Err(e) => Err(e)
        case Ok(mn) =>
          if mode / 2 == 1 then
            match ConstantCells(data, pts, m, mn.value)
            case Err(e) => Err(e)
            case Ok(d) => Ok(Written(d, mn.next))
          else
            match ReadQValSpec(blob, mn.next)
            case Err(e) => Err(e)
            case Ok(qv) =>
              if qv.codes.None? then Err(NoCodeArray)
              else
                match MaskedCells(data, pts, m, Quantized(qv.codes.value, mn.value, q, maxVal), 0, NoCodes)
                case Err(e) => Err(e)
                case Ok(w) => Ok(Written(w.data, qv.next))
  }

  /** read_block: decodes one block into `data` and returns the offset after it. */
  method ReadBlock(data: array<real>, xs: seq<nat>, ys: seq<nat>, m: Bitmask, q: real, maxVal: real,
                   blob: seq<byte>, offset: nat) returns (r: Result<nat>)
    modifies data
    ensures Outcome(r, data[..]) == BlockSpec(old(data[..]), xs, ys, m, q, maxVal, blob, offset)
  {
    if offset + 1 > |blob| {
      return Err(Truncated);
    }
    var flags := blob[offset];
    var off := offset + 1;
    var mf := flags / 64;
    var mode := flags % 64;
    if mode >= 4 {
      return Err(BadMode);
    }
    var pts := Dloop(xs, ys);
    if mode == 0 {
      r := StoreCells(data, pts, m, blob, off);
      return;
    }
    var mn := MinimumAt(blob, off, mf, mode % 2 == 1);
    if mn.Err? {
      return Err(mn.error);
    }
    if mode / 2 == 1 {
      var done := FillCells(data, pts, m, mn.value.value);
      if done.Err? {
        return Err(done.error);
      }
      return Ok(mn.value.next);
    }
    var qv := ReadQVal(blob, mn.value.next);
    if qv.Err? {
      return Err(qv.error);
    }
    if qv.value.codes.None? {
      return Err(NoCodeArray);
    }
    var done := QuantizeCells(data, pts, m, qv.value.codes.value, mn.value.value, q, maxVal);
    if done.Err? {
      return Err(done.error);
    }
    return Ok(qv.value.next);
  }

  /** The loop of mode 0: a float32 from the blob for each mask-set pixel. */
  method StoreCells(data: array<real>, pts: seq<(nat, nat)>, m: Bitmask, blob: seq<byte>, p: nat)
    returns (r: Result<nat>)
    modifies data
    ensures match MaskedCells(old(data[..]), pts, m, Floats32(blob, p), 0, Truncated)
      case Ok(w) => r == Ok(p + 4 * w.next) && data[..] == w.data
      case Err(e) => r == Err(e)
  {
    var off := p;
    var i := 0;
    ghost var k := 0;
    while i < |pts|
      invariant 0 <= i <= |pts| && off == p + 4 * k
      invariant MaskedCells(data[..], pts[i..], m, Floats32(blob, p), k, Truncated)
             == MaskedCells(old(data[..]), pts, m, Floats32(blob, p), 0, Truncated)
    {
      var x, y := pts[i].0, pts[i].1;
      assert pts[i..][1..] == pts[i + 1..];
      var bit := At(m, x, y);
      if bit.Err? {
        return Err(bit.error);
      }
      if bit.value {
        FloatsAt(blob, p, k);
        if off + 4 > |blob| {
          return Err(Truncated);
        }
        var l := Index(m, x, y);
        if l >= data.Length {
          return Err(DataIndex);
        }
        data[l] := Float32Value(U32(blob, off));
        off := off + 4;
        k := k + 1;
      }
      i := i + 1;
    }
    return Ok(off);
  }

  /** The k-th stored float32 exists exactly when its 4 bytes fit, and is read there. */
  lemma {:induction false} FloatsAt(blob: seq<byte>, p: nat, k: nat)
    ensures k < |Floats32(blob, p)| <==> p + 4 * k + 4 <= |blob|
    ensures k < |Floats32(blob, p)| ==> Floats32(blob, p)[k] == Float32Value(U32(blob, p + 4 * k))
    decreases k
  {
    if k > 0 && p + 4 <= |blob| {
      FloatsAt(blob, p + 4, k - 1);
    }
  }

  /** The loop of modes 2 and 3. */
  method FillCells(data: array<real>, pts: seq<(nat, nat)>, m: Bitmask, v: real) returns (r: Result<()>)
    modifies data
    ensures match ConstantCells(old(data[..]), pts, m, v)
      case Ok(d) => r == Ok(()) && data[..] == d
      case Err(e) => r == Err(e)
  {
    var i := 0;
    while i < |pts|
      invariant 0 <= i <= |pts|
      invariant ConstantCells(data[..], pts[i..], m, v) == ConstantCells(old(data[..]), pts, m, v)
    {
      assert pts[i..][1..] == pts[i + 1..];
      var l := Index(m, pts[i].0, pts[i].1);
      if l >= data.Length {
        return Err(DataIndex);
      }
      data[l] := v;
      i := i + 1;
    }
    return Ok(());
  }

  /** The loop of mode 1: the next code for each mask-set pixel. */
  method QuantizeCells(data: array<real>, pts: seq<(nat, nat)>, m: Bitmask, codes: seq<nat>,
                       mval: real, q: real, maxVal: real) returns (r: Result<()>)
    modifies data
    ensures match MaskedCells(old(data[..]), pts, m, Quantized(codes, mval, q, maxVal), 0, NoCodes)
      case Ok(w) => r == Ok(()) && data[..] == w.data
      case Err(e) => r == Err(e)
  {
    ghost var vals := Quantized(codes, mval, q, maxVal);
    var i, j := 0, 0;
    while i < |pts|
      invariant 0 <= i <= |pts|
      invariant MaskedCells(data[..], pts[i..], m, vals, j, NoCodes)
             == MaskedCells(old(data[..]), pts, m, vals, 0, NoCodes)
    {
      var x, y := pts[i].0, pts[i].1;
      assert pts[i..][1..] == pts[i + 1..];
      var bit := At(m, x, y);
      if bit.Err? {
        return Err(bit.error);
      }
      if bit.value {
        if j >= |codes| {
          return Err(NoCodes);
        }
        var v := Level(codes[j], mval, q, maxVal);
        QuantizedAt(codes, mval, q, maxVal, j);
        j := j + 1;
        var l := Index(m, x, y);
        if l >= data.Length {
          return Err(DataIndex);
        }
        data[l] := v;
      }
      i := i + 1;
    }
    return Ok(());
  }
}
