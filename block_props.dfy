/** What a block does to the samples and to the cursor, mode by mode. */
module BlockProps {
  import opened Failures
  import opened Arith
  import opened Bytes
  import opened Floats
  import opened QVal
  import opened Mask
  import opened Grid
  import opened Block

  /** The number of pixels of pts whose mask bit is set. */
  function SetCount(m: Bitmask, pts: seq<(nat, nat)>): nat
  {
    if |pts| == 0 then 0
    else (if At(m, pts[0].0, pts[0].1) == Ok(true) then 1 else 0) + SetCount(m, pts[1..])
  }

  /** The samples of the pixels of pts whose mask bit is set. */
  function Targets(m: Bitmask, pts: seq<(nat, nat)>): set<nat>
  {
    if |pts| == 0 then {}
    else
      var first := if At(m, pts[0].0, pts[0].1) == Ok(true) then {Index(m, pts[0].0, pts[0].1)} else {};
      first + Targets(m, pts[1..])
  }

  /** The samples of all pixels of pts. */
  function Indices(m: Bitmask, pts: seq<(nat, nat)>): set<nat>
  {
    if |pts| == 0 then {} else {Index(m, pts[0].0, pts[0].1)} + Indices(m, pts[1..])
  }

  /** The masked loop takes one value per mask-set pixel, and only succeeds when there
      are enough. */
  lemma {:induction false} MaskedCount(data: seq<real>, pts: seq<(nat, nat)>, m: Bitmask, vals: seq<real>, k: nat, short: Error)
    requires k <= |vals|
    ensures MaskedCells(data, pts, m, vals, k, short).Ok? ==>
      MaskedCells(data, pts, m, vals, k, short).value.next == k + SetCount(m, pts) <= |vals|
    decreases |pts|
  {
    if |pts| > 0 {
      var x, y := pts[0].0, pts[0].1;
      if At(m, x, y) == Ok(true) {
        if k < |vals| && Index(m, x, y) < |data| {
          MaskedCount(data[Index(m, x, y) := vals[k]], pts[1..], m, vals, k + 1, short);
        }
      } else {
        MaskedCount(data, pts[1..], m, vals, k, short);
      }
    }
  }

  /** The masked loop leaves every sample outside its mask-set pixels as it was. */
  lemma {:induction false} MaskedUnchanged(data: seq<real>, pts: seq<(nat, nat)>, m: Bitmask, vals: seq<real>, k: nat, short: Error)
    ensures var r := MaskedCells(data, pts, m, vals, k, short);
      r.Ok? ==> forall i :: 0 <= i < |data| && i !in Targets(m, pts) ==> r.value.data[i] == data[i]
    decreases |pts|
  {
    if |pts| > 0 {
      var x, y := pts[0].0, pts[0].1;
      if At(m, x, y) == Ok(true) {
        if k < |vals| && Index(m, x, y) < |data| {
          MaskedUnchanged(data[Index(m, x, y) := vals[k]], pts[1..], m, vals, k + 1, short);
        }
      } else {
        MaskedUnchanged(data, pts[1..], m, vals, k, short);
      }
    }
  }

  /** The pixels of pts whose mask bit is set, in order. */
  function SetPixels(m: Bitmask, pts: seq<(nat, nat)>): (r: seq<(nat, nat)>)
    ensures |r| == SetCount(m, pts)
  {
    if |pts| == 0 then []
    else (if At(m, pts[0].0, pts[0].1) == Ok(true) then [pts[0]] else []) + SetPixels(m, pts[1..])
  }

  /** No two pixels of pts share a sample. */
  predicate Distinct(m: Bitmask, pts: seq<(nat, nat)>)
  {
    forall i, j :: 0 <= i < j < |pts| ==> Index(m, pts[i].0, pts[i].1) != Index(m, pts[j].0, pts[j].1)
  }

  /** Each pixel sp[j] names a sample below n that out holds as vals[k + j]. */
  predicate Placed(out: seq<real>, sp: seq<(nat, nat)>, m: Bitmask, vals: seq<real>, k: nat, n: nat)
  {
    forall j :: 0 <= j < |sp| ==>
      Index(m, sp[j].0, sp[j].1) < n && Index(m, sp[j].0, sp[j].1) < |out| && k + j < |vals| &&
      out[Index(m, sp[j].0, sp[j].1)] == vals[k + j]
  }

  /** The masked loop gives the j-th mask-set pixel the value vals[k + j], when no
      two pixels share a sample. */
  lemma {:induction false} MaskedValues(data: seq<real>, pts: seq<(nat, nat)>, m: Bitmask, vals: seq<real>, k: nat, short: Error)
    requires Distinct(m, pts)
    ensures var r := MaskedCells(data, pts, m, vals, k, short);
      r.Ok? ==> Placed(r.value.data, SetPixels(m, pts), m, vals, k, |data|)
    decreases |pts|
  {
    if |pts| > 0 {
      var x, y := pts[0].0, pts[0].1;
      DistinctRest(m, pts);
      if At(m, x, y) == Ok(true) {
        var l := Index(m, x, y);
        if k < |vals| && l < |data| {
          MaskedValues(data[l := vals[k]], pts[1..], m, vals, k + 1, short);
          PlacedSet(data, pts, m, vals, k, short);
        }
      } else {
        MaskedValues(data, pts[1..], m, vals, k, short);
        PlacedSkip(data, pts, m, vals, k, short);
      }
    }
  }

  /** The induction step of MaskedValues at a mask-set pixel. */
  lemma PlacedSet(data: seq<real>, pts: seq<(nat, nat)>, m: Bitmask, vals: seq<real>, k: nat, short: Error)
    requires |pts| > 0 && Distinct(m, pts) && At(m, pts[0].0, pts[0].1) == Ok(true)
    requires k < |vals| && Index(m, pts[0].0, pts[0].1) < |data|
    requires var r := MaskedCells(data[Index(m, pts[0].0, pts[0].1) := vals[k]], pts[1..], m, vals, k + 1, short);
      r.Ok? ==> Placed(r.value.data, SetPixels(m, pts[1..]), m, vals, k + 1, |data|)
    ensures var r := MaskedCells(data, pts, m, vals, k, short);
      r.Ok? ==> Placed(r.value.data, SetPixels(m, pts), m, vals, k, |data|)
  {
    PlacedHead(data, pts, m, vals, k, short);
    var r := MaskedCells(data, pts, m, vals, k, short);
    if r.Ok? {
      PlacedCons(r.value.data, pts[0], SetPixels(m, pts[1..]), m, vals, k, |data|);
    }
  }

  /** The induction step of MaskedValues at a pixel whose mask bit is clear. */
  lemma PlacedSkip(data: seq<real>, pts: seq<(nat, nat)>, m: Bitmask, vals: seq<real>, k: nat, short: Error)
    requires |pts| > 0 && At(m, pts[0].0, pts[0].1) != Ok(true)
    requires var r := MaskedCells(data, pts[1..], m, vals, k, short);
      r.Ok? ==> Placed(r.value.data, SetPixels(m, pts[1..]), m, vals, k, |data|)
    ensures var r := MaskedCells(data, pts, m, vals, k, short);
      r.Ok? ==> Placed(r.value.data, SetPixels(m, pts), m, vals, k, |data|)
  {
    match At(m, pts[0].0, pts[0].1)
    case Err(e) =>
      assert MaskedCells(data, pts, m, vals, k, short) == Err(e);
    case Ok(bit) =>
      assert MaskedCells(data, pts, m, vals, k, short) == MaskedCells(data, pts[1..], m, vals, k, short);
      assert SetPixels(m, pts) == [] + SetPixels(m, pts[1..]);
  }

  /** The loop's first step on a mask-set pixel: the rest of the loop never writes
      the sample it wrote, and that pixel heads the mask-set pixels. */
  lemma PlacedHead(data: seq<real>, pts: seq<(nat, nat)>, m: Bitmask, vals: seq<real>, k: nat, short: Error)
    requires |pts| > 0 && Distinct(m, pts) && At(m, pts[0].0, pts[0].1) == Ok(true)
    requires k < |vals| && Index(m, pts[0].0, pts[0].1) < |data|
    ensures var l := Index(m, pts[0].0, pts[0].1);
      var r := MaskedCells(data[l := vals[k]], pts[1..], m, vals, k + 1, short);
      && MaskedCells(data, pts, m, vals, k, short) == r
      && (r.Ok? ==> r.value.data[l] == vals[k])
      && SetPixels(m, pts) == [pts[0]] + SetPixels(m, pts[1..])
  {
    var l := Index(m, pts[0].0, pts[0].1);
    DistinctTail(m, pts);
    NotTarget(m, pts[1..], l);
    MaskedKeeps(data[l := vals[k]], pts[1..], m, vals, k + 1, short, l);
  }

  /** One sample outside the loop's targets keeps its value. */
  lemma MaskedKeeps(data: seq<real>, pts: seq<(nat, nat)>, m: Bitmask, vals: seq<real>, k: nat, short: Error, i: nat)
    requires i < |data| && i !in Targets(m, pts)
    ensures var r := MaskedCells(data, pts, m, vals, k, short);
      r.Ok? ==> r.value.data[i] == data[i]
  {
    MaskedUnchanged(data, pts, m, vals, k, short);
  }

  /** Placing p at vals[k] in front of pixels placed from vals[k + 1] on. */
  lemma PlacedCons(out: seq<real>, p: (nat, nat), sp: seq<(nat, nat)>, m: Bitmask, vals: seq<real>, k: nat, n: nat)
    requires Placed(out, sp, m, vals, k + 1, n)
    requires Index(m, p.0, p.1) < n && Index(m, p.0, p.1) < |out| && k < |vals| && out[Index(m, p.0, p.1)] == vals[k]
    ensures Placed(out, [p] + sp, m, vals, k, n)
  {
    var all := [p] + sp;
    forall j | 0 <= j < |all|
      ensures Index(m, all[j].0, all[j].1) < n && Index(m, all[j].0, all[j].1) < |out| && k + j < |vals| &&
        out[Index(m, all[j].0, all[j].1)] == vals[k + j]
    {
      if j > 0 {
        assert all[j] == sp[j - 1];
      }
    }
  }

  /** The j-th placed pixel, spelled out. */
  lemma PlacedAt(out: seq<real>, sp: seq<(nat, nat)>, m: Bitmask, vals: seq<real>, k: nat, n: nat, j: nat)
    requires Placed(out, sp, m, vals, k, n) && j < |sp|
    ensures Index(m, sp[j].0, sp[j].1) < n && Index(m, sp[j].0, sp[j].1) < |out| && k + j < |vals|
    ensures out[Index(m, sp[j].0, sp[j].1)] == vals[k + j]
  {
  }

  /** The pixels after the first are distinct. */
  lemma DistinctRest(m: Bitmask, pts: seq<(nat, nat)>)
    requires Distinct(m, pts) && |pts| > 0
    ensures Distinct(m, pts[1..])
  {
    var rest := pts[1..];
    forall i, j | 0 <= i < j < |rest|
      ensures Index(m, rest[i].0, rest[i].1) != Index(m, rest[j].0, rest[j].1)
    {
      assert rest[i] == pts[i + 1] && rest[j] == pts[j + 1];
    }
  }

  /** No pixel after the first shares the first's sample. */
  lemma DistinctTail(m: Bitmask, pts: seq<(nat, nat)>)
    requires Distinct(m, pts) && |pts| > 0
    ensures forall j :: 0 <= j < |pts[1..]| ==> Index(m, pts[1..][j].0, pts[1..][j].1) != Index(m, pts[0].0, pts[0].1)
  {
    forall j | 0 <= j < |pts[1..]|
      ensures Index(m, pts[1..][j].0, pts[1..][j].1) != Index(m, pts[0].0, pts[0].1)
    {
      assert pts[1..][j] == pts[j + 1];
    }
  }

  /** A sample that no pixel of pts maps to is not among the loop's targets. */
  lemma {:induction false} NotTarget(m: Bitmask, pts: seq<(nat, nat)>, l: nat)
    requires forall j :: 0 <= j < |pts| ==> Index(m, pts[j].0, pts[j].1) != l
    ensures l !in Targets(m, pts)
    decreases |pts|
  {
    if |pts| > 0 {
      NotTarget(m, pts[1..], l) by {
        forall j | 0 <= j < |pts[1..]|
          ensures Index(m, pts[1..][j].0, pts[1..][j].1) != l
        {
          assert pts[1..][j] == pts[j + 1];
        }
      }
      assert Index(m, pts[0].0, pts[0].1) != l;
    }
  }

  /** The pixels of a block whose columns lie within the mask's width have distinct
      samples. */
  lemma BlockDistinct(m: Bitmask, x0: nat, x1: int, y0: nat, y1: int)
    requires x1 <= m.w
    ensures Distinct(m, Dloop(Range(x0, x1), Range(y0, y1)))
  {
    var pts := Dloop(Range(x0, x1), Range(y0, y1));
    forall i, j | 0 <= i < j < |pts|
      ensures Index(m, pts[i].0, pts[i].1) != Index(m, pts[j].0, pts[j].1)
    {
      var n := x1 - x0;
      BlockPixel(m, x0, x1, y0, y1, i);
      BlockPixel(m, x0, x1, y0, y1, j);
      if Index(m, pts[i].0, pts[i].1) == Index(m, pts[j].0, pts[j].1) {
        var v := Index(m, pts[i].0, pts[i].1);
        DivModUnique(v, m.w, y0 + i / n, x0 + i % n);
        DivModUnique(v, m.w, y0 + j / n, x0 + j % n);
        DivMod(i, n);
        DivMod(j, n);
      }
    }
  }

  /** The p-th pixel of a block is (x0 + p % n, y0 + p / n) for its width n, and lies
      within the mask's width. */
  lemma BlockPixel(m: Bitmask, x0: nat, x1: int, y0: nat, y1: int, p: nat)
    requires x1 <= m.w && p < |Dloop(Range(x0, x1), Range(y0, y1))|
    ensures x1 > x0 && x0 + p % (x1 - x0) < m.w
    ensures Dloop(Range(x0, x1), Range(y0, y1))[p] == (x0 + p % (x1 - x0), y0 + p / (x1 - x0))
  {
    var xs, ys := Range(x0, x1), Range(y0, y1);
    DloopLength(xs, ys);
    PixelAt(xs, ys, p);
  }

  /** The p-th pixel of the double loop is (xs[p % |xs|], ys[p / |xs|]). */
  lemma PixelAt(xs: seq<nat>, ys: seq<nat>, p: nat)
    requires p < |xs| * |ys|
    ensures |xs| > 0 && p / |xs| < |ys| && p < |Dloop(xs, ys)|
    ensures Dloop(xs, ys)[p] == (xs[p % |xs|], ys[p / |xs|])
  {
    var n := |xs|;
    DloopLength(xs, ys);
    assert n > 0;
    DivMod(p, n);
    var q: nat, r: nat := p / n, p % n;
    assert q * n + r == p;
    assert q < |ys| by {
      if q >= |ys| {
        MulBoundLeft(|ys|, q, n);
      }
    }
    DloopAt(xs, ys, r, q);
  }

  /** When every value is at most `bound`, so is every sample the masked loop writes. */
  lemma {:induction false} MaskedBound(data: seq<real>, pts: seq<(nat, nat)>, m: Bitmask, vals: seq<real>, k: nat, short: Error, bound: real)
    requires forall j :: 0 <= j < |vals| ==> vals[j] <= bound
    ensures var r := MaskedCells(data, pts, m, vals, k, short);
      r.Ok? ==> forall i :: 0 <= i < |data| && i in Targets(m, pts) ==> r.value.data[i] <= bound
    decreases |pts|
  {
    if |pts| > 0 {
      var x, y := pts[0].0, pts[0].1;
      if At(m, x, y) == Ok(true) {
        var l := Index(m, x, y);
        if k < |vals| && l < |data| {
          var next := data[l := vals[k]];
          MaskedBound(next, pts[1..], m, vals, k + 1, short, bound);
          MaskedUnchanged(next, pts[1..], m, vals, k + 1, short);
        }
      } else {
        MaskedBound(data, pts[1..], m, vals, k, short, bound);
      }
    }
  }

  /** The constant loop succeeds exactly when every pixel's sample is inside the
      array, and then sets the samples of its pixels to v and no other. */
  lemma {:induction false} ConstantWrites(data: seq<real>, pts: seq<(nat, nat)>, m: Bitmask, v: real)
    ensures ConstantCells(data, pts, m, v).Ok?
      <==> forall j :: 0 <= j < |pts| ==> Index(m, pts[j].0, pts[j].1) < |data|
    ensures var r := ConstantCells(data, pts, m, v);
      r.Ok? ==> forall i :: 0 <= i < |data| ==> r.value[i] == if i in Indices(m, pts) then v else data[i]
    decreases |pts|
  {
    if |pts| > 0 {
      var l := Index(m, pts[0].0, pts[0].1);
      if l < |data| {
        ConstantWrites(data[l := v], pts[1..], m, v);
      }
      assert forall j :: 1 <= j < |pts| ==> pts[j] == pts[1..][j - 1];
    }
  }

  /** Mode 0 reads no minimum and consumes exactly 4 bytes per mask-set pixel. */
  lemma StoredBlock(data: seq<real>, xs: seq<nat>, ys: seq<nat>, m: Bitmask, q: real, maxVal: real,
                    blob: seq<byte>, offset: nat)
    requires offset < |blob| && blob[offset] % 64 == 0
    ensures var r := BlockSpec(data, xs, ys, m, q, maxVal, blob, offset);
      r.Ok? ==>
        r.value.next == offset + 1 + 4 * SetCount(m, Dloop(xs, ys)) &&
        forall i :: 0 <= i < |data| && i !in Targets(m, Dloop(xs, ys)) ==> r.value.data[i] == data[i]
  {
    var vals := Floats32(blob, offset + 1);
    MaskedCount(data, Dloop(xs, ys), m, vals, 0, Truncated);
    MaskedUnchanged(data, Dloop(xs, ys), m, vals, 0, Truncated);
  }

  /** Mode 0 gives the j-th mask-set pixel of the block the j-th stored float32, when
      no two pixels of the block share a sample (BlockDistinct). */
  lemma StoredValues(data: seq<real>, xs: seq<nat>, ys: seq<nat>, m: Bitmask, q: real, maxVal: real,
                     blob: seq<byte>, offset: nat)
    requires offset < |blob| && blob[offset] % 64 == 0
    requires Distinct(m, Dloop(xs, ys))
    ensures var r := BlockSpec(data, xs, ys, m, q, maxVal, blob, offset);
      var sp := SetPixels(m, Dloop(xs, ys));
      r.Ok? ==> forall j :: 0 <= j < |sp| ==>
        Index(m, sp[j].0, sp[j].1) < |data| && offset + 1 + 4 * j + 4 <= |blob| &&
        r.value.data[Index(m, sp[j].0, sp[j].1)] == Float32Value(U32(blob, offset + 1 + 4 * j))
  {
    var pts := Dloop(xs, ys);
    var vals := Floats32(blob, offset + 1);
    var r := BlockSpec(data, xs, ys, m, q, maxVal, blob, offset);
    StoredResult(data, xs, ys, m, q, maxVal, blob, offset);
    if r.Ok? {
      MaskedValues(data, pts, m, vals, 0, Truncated);
      var cells := MaskedCells(data, pts, m, vals, 0, Truncated);
      assert r.value.data == cells.value.data;
      StoredPlaced(r.value.data, SetPixels(m, pts), m, blob, offset + 1, |data|);
    }
  }

  /** Pixels placed from the float32s stored at p hold those floats, in order. */
  lemma StoredPlaced(out: seq<real>, sp: seq<(nat, nat)>, m: Bitmask, blob: seq<byte>, p: nat, n: nat)
    requires Placed(out, sp, m, Floats32(blob, p), 0, n)
    ensures forall j :: 0 <= j < |sp| ==>
      Index(m, sp[j].0, sp[j].1) < n && Index(m, sp[j].0, sp[j].1) < |out| && p + 4 * j + 4 <= |blob| &&
      out[Index(m, sp[j].0, sp[j].1)] == Float32Value(U32(blob, p + 4 * j))
  {
    forall j | 0 <= j < |sp|
      ensures Index(m, sp[j].0, sp[j].1) < n && Index(m, sp[j].0, sp[j].1) < |out| && p + 4 * j + 4 <= |blob| &&
        out[Index(m, sp[j].0, sp[j].1)] == Float32Value(U32(blob, p + 4 * j))
    {
      PlacedAt(out, sp, m, Floats32(blob, p), 0, n, j);
      FloatsAt(blob, p, j);
    }
  }

  /** A mode-0 block that succeeds is the masked loop over the stored float32s. */
  lemma StoredResult(data: seq<real>, xs: seq<nat>, ys: seq<nat>, m: Bitmask, q: real, maxVal: real,
                     blob: seq<byte>, offset: nat)
    requires offset < |blob| && blob[offset] % 64 == 0
    ensures var r := BlockSpec(data, xs, ys, m, q, maxVal, blob, offset);
      var cells := MaskedCells(data, Dloop(xs, ys), m, Floats32(blob, offset + 1), 0, Truncated);
      r.Ok? ==> cells.Ok? && r.value == Written(cells.value.data, offset + 1 + 4 * cells.value.next)
  {
  }

  /** Modes 2 and 3 set every pixel of the block to the minimum (0.0 in mode 2),
      whatever the mask, and consume only the flags byte and the minimum. */
  lemma ConstantBlock(data: seq<real>, xs: seq<nat>, ys: seq<nat>, m: Bitmask, q: real, maxVal: real,
                      blob: seq<byte>, offset: nat)
    requires offset < |blob| && blob[offset] % 64 / 2 == 1
    ensures var r := BlockSpec(data, xs, ys, m, q, maxVal, blob, offset);
      var mf, present := blob[offset] / 64, blob[offset] % 64 == 3;
      var mn := MinimumAt(blob, offset + 1, mf, present);
      r.Ok? ==>
        mn.Ok? &&
        r.value.next == offset + 1 + (if present then Width(mf) else 0) &&
        (!present ==> mn.value.value == 0.0) &&
        forall i :: 0 <= i < |data| ==>
          r.value.data[i] == if i in Indices(m, Dloop(xs, ys)) then mn.value.value else data[i]
  {
    var mn := MinimumAt(blob, offset + 1, blob[offset] / 64, blob[offset] % 64 == 3);
    if mn.Ok? {
      ConstantWrites(data, Dloop(xs, ys), m, mn.value.value);
    }
  }

  /** Mode 1 writes only mask-set pixels, each with a value at most maxVal; it needs a
      code per mask-set pixel, ignores surplus codes and ends where the code array
      ends. */
  lemma QuantizedBlock(data: seq<real>, xs: seq<nat>, ys: seq<nat>, m: Bitmask, q: real, maxVal: real,
                       blob: seq<byte>, offset: nat)
    requires offset < |blob| && blob[offset] % 64 == 1
    ensures var r := BlockSpec(data, xs, ys, m, q, maxVal, blob, offset);
      var mn := MinimumAt(blob, offset + 1, blob[offset] / 64, true);
      r.Ok? ==>
        mn.Ok? && ReadQValSpec(blob, mn.value.next).Ok? &&
        QuantizedOutcome(data, Dloop(xs, ys), m, ReadQValSpec(blob, mn.value.next).value, maxVal, r.value)
  {
    var r := BlockSpec(data, xs, ys, m, q, maxVal, blob, offset);
    var mn := MinimumAt(blob, offset + 1, blob[offset] / 64, true);
    QuantizedResult(data, xs, ys, m, q, maxVal, blob, offset);
    if r.Ok? {
      QuantizedCells(data, Dloop(xs, ys), m, ReadQValSpec(blob, mn.value.next).value, mn.value.value, q, maxVal);
    }
  }

  /** Mode 1 gives the j-th mask-set pixel of the block the level of the j-th code,
      min(minimum + q * code, maxVal), when no two pixels of the block share a sample
      (BlockDistinct). */
  lemma QuantizedValues(data: seq<real>, xs: seq<nat>, ys: seq<nat>, m: Bitmask, q: real, maxVal: real,
                        blob: seq<byte>, offset: nat)
    requires offset < |blob| && blob[offset] % 64 == 1
    requires Distinct(m, Dloop(xs, ys))
    ensures var r := BlockSpec(data, xs, ys, m, q, maxVal, blob, offset);
      var mn := MinimumAt(blob, offset + 1, blob[offset] / 64, true);
      var sp := SetPixels(m, Dloop(xs, ys));
      r.Ok? ==>
        mn.Ok? && ReadQValSpec(blob, mn.value.next).Ok? &&
        var codes := ReadQValSpec(blob, mn.value.next).value.codes;
        codes.Some? &&
        forall j :: 0 <= j < |sp| ==>
          Index(m, sp[j].0, sp[j].1) < |data| && j < |codes.value| &&
          r.value.data[Index(m, sp[j].0, sp[j].1)] == Level(codes.value[j], mn.value.value, q, maxVal)
  {
    var pts := Dloop(xs, ys);
    var r := BlockSpec(data, xs, ys, m, q, maxVal, blob, offset);
    var mn := MinimumAt(blob, offset + 1, blob[offset] / 64, true);
    QuantizedResult(data, xs, ys, m, q, maxVal, blob, offset);
    if r.Ok? {
      var codes := ReadQValSpec(blob, mn.value.next).value.codes.value;
      var vals := Quantized(codes, mn.value.value, q, maxVal);
      MaskedValues(data, pts, m, vals, 0, NoCodes);
      var cells := MaskedCells(data, pts, m, vals, 0, NoCodes);
      assert cells.Ok? && r.value.data == cells.value.data;
      var sp := SetPixels(m, pts);
      forall j | 0 <= j < |sp|
        ensures Index(m, sp[j].0, sp[j].1) < |data| && j < |codes| &&
          r.value.data[Index(m, sp[j].0, sp[j].1)] == Level(codes[j], mn.value.value, q, maxVal)
      {
        PlacedAt(cells.value.data, sp, m, vals, 0, |data|, j);
        QuantizedAt(codes, mn.value.value, q, maxVal, j);
      }
    }
  }

  /** A mode-1 block that succeeds is the masked loop over the levels of its codes. */
  lemma QuantizedResult(data: seq<real>, xs: seq<nat>, ys: seq<nat>, m: Bitmask, q: real, maxVal: real,
                        blob: seq<byte>, offset: nat)
    requires offset < |blob| && blob[offset] % 64 == 1
    ensures var r := BlockSpec(data, xs, ys, m, q, maxVal, blob, offset);
      var mn := MinimumAt(blob, offset + 1, blob[offset] / 64, true);
      r.Ok? ==>
        mn.Ok? && ReadQValSpec(blob, mn.value.next).Ok? &&
        var qv := ReadQValSpec(blob, mn.value.next).value;
        qv.codes.Some? &&
        var cells := MaskedCells(data, Dloop(xs, ys), m, Quantized(qv.codes.value, mn.value.value, q, maxVal), 0, NoCodes);
        cells.Ok? && r.value == Written(cells.value.data, qv.next)
  {
    var r := BlockSpec(data, xs, ys, m, q, maxVal, blob, offset);
    var mn := MinimumAt(blob, offset + 1, blob[offset] / 64, true);
    if mn.Err? {
      assert r == Err(mn.error);
    } else {
      var qr := ReadQValSpec(blob, mn.value.next);
      if qr.Err? {
        assert r == Err(qr.error);
      } else if qr.value.codes.None? {
        assert r == Err(NoCodeArray);
      } else {
        var cells := MaskedCells(data, Dloop(xs, ys), m, Quantized(qr.value.codes.value, mn.value.value, q, maxVal), 0, NoCodes);
        if cells.Err? {
          assert r == Err(cells.error);
        } else {
          assert r == Ok(Written(cells.value.data, qr.value.next));
        }
      }
    }
  }

  /** The code array holds a code per mask-set pixel, the block ends where the code
      array ends, the samples of mask-set pixels are at most maxVal and no other
      sample changes. */
  ghost predicate QuantizedOutcome(data: seq<real>, pts: seq<(nat, nat)>, m: Bitmask, qv: QVal, maxVal: real, w: Written)
  {
    && qv.codes.Some? && SetCount(m, pts) <= |qv.codes.value| && w.next == qv.next
    && |w.data| == |data|
    && (forall i :: 0 <= i < |data| && i !in Targets(m, pts) ==> w.data[i] == data[i])
    && (forall i :: 0 <= i < |data| && i in Targets(m, pts) ==> w.data[i] <= maxVal)
  }

  lemma QuantizedCells(data: seq<real>, pts: seq<(nat, nat)>, m: Bitmask, qv: QVal, mval: real, q: real, maxVal: real)
    requires qv.codes.Some?
    ensures var r := MaskedCells(data, pts, m, Quantized(qv.codes.value, mval, q, maxVal), 0, NoCodes);
      r.Ok? ==> QuantizedOutcome(data, pts, m, qv, maxVal, Written(r.value.data, qv.next))
  {
    var vals := Quantized(qv.codes.value, mval, q, maxVal);
    MaskedCount(data, pts, m, vals, 0, NoCodes);
    MaskedUnchanged(data, pts, m, vals, 0, NoCodes);
    QuantizedBelow(qv.codes.value, mval, q, maxVal);
    MaskedBound(data, pts, m, vals, 0, NoCodes, maxVal);
  }

  lemma QuantizedBelow(codes: seq<nat>, mval: real, q: real, maxVal: real)
    ensures forall j :: 0 <= j < |codes| ==> Quantized(codes, mval, q, maxVal)[j] <= maxVal
  {
    forall j | 0 <= j < |codes|
      ensures Quantized(codes, mval, q, maxVal)[j] <= maxVal
    {
      QuantizedAt(codes, mval, q, maxVal, j);
    }
  }

  /** A quantized block whose code array has bit width 0 fails, even when no pixel of
      the block is set in the mask. */
  lemma NoCodesBlock(data: seq<real>, xs: seq<nat>, ys: seq<nat>, m: Bitmask, q: real, maxVal: real,
                     blob: seq<byte>, offset: nat)
    requires offset < |blob| && blob[offset] % 64 == 1
    requires var mn := MinimumAt(blob, offset + 1, blob[offset] / 64, true);
      mn.Ok? && mn.value.next < |blob| && blob[mn.value.next] % 64 == 0
    ensures BlockSpec(data, xs, ys, m, q, maxVal, blob, offset) == Err(NoCodeArray)
  {
  }
}
