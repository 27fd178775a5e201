/** Pixel enumeration: Python's `range`, the double loop `dloop` (x inner, y outer)
    and the block grid that `read_tiles` walks. */
module Grid {
  import opened Arith

  /** range(lo, hi): lo, lo + 1, ..., hi - 1. */
  function Range(lo: nat, hi: int): (r: seq<nat>)
    ensures |r| == (if hi > lo then hi - lo else 0)
  {
    seq(if hi > lo then hi - lo else 0, i => lo + i)
  }

  /** range(lo, hi, step) for a positive step. */
  function RangeStep(lo: nat, hi: nat, step: nat): seq<nat>
    requires step > 0
    decreases hi - lo
  {
    if lo >= hi then [] else [lo] + RangeStep(lo + step, hi, step)
  }

  /** dloop(xs, ys): every (x, y), y outer and x inner. */
  function Dloop<X, Y>(xs: seq<X>, ys: seq<Y>): seq<(X, Y)>
  {
    if |ys| == 0 then [] else Row(xs, ys[0]) + Dloop(xs, ys[1..])
  }

  /** One pass of the inner loop: every x of xs paired with y. */
  function Row<X, Y>(xs: seq<X>, y: Y): (r: seq<(X, Y)>)
    ensures |r| == |xs|
  {
    seq(|xs|, i requires 0 <= i < |xs| => (xs[i], y))
  }

  /** min(b, size - origin): the extent of the block starting at `origin` along an
      axis of `size` pixels, for a block size b. */
  function Extent(origin: nat, b: nat, size: nat): int
  {
    if size - origin < b then size - origin else b
  }

  /** The block origins of `read_tiles`: range(0, w, bw) inner, range(0, h, bh) outer. */
  function Origins(w: nat, h: nat, bw: nat, bh: nat): seq<(nat, nat)>
    requires bw > 0 && bh > 0
  {
    Dloop(RangeStep(0, w, bw), RangeStep(0, h, bh))
  }

  /** The pixels of the block with origin (x, y), clipped to a w x h image. */
  function BlockCells(x: nat, y: nat, w: nat, h: nat, bw: nat, bh: nat): seq<(nat, nat)>
  {
    Dloop(Range(x, x + Extent(x, bw, w)), Range(y, y + Extent(y, bh, h)))
  }

  /** The double loop visits |xs| * |ys| pairs, the (j * |xs| + i)-th being (xs[i], ys[j]). */
  lemma {:induction false} DloopAt<X, Y>(xs: seq<X>, ys: seq<Y>, i: nat, j: nat)
    requires i < |xs| && j < |ys|
    ensures |Dloop(xs, ys)| == |xs| * |ys|
    ensures j * |xs| + i < |Dloop(xs, ys)| && Dloop(xs, ys)[j * |xs| + i] == (xs[i], ys[j])
  {
    DloopLength(xs, ys);
    if j > 0 {
      DloopAt(xs, ys[1..], i, j - 1);
      assert j * |xs| == |xs| + (j - 1) * |xs|;
      assert Dloop(xs, ys) == Row(xs, ys[0]) + Dloop(xs, ys[1..]);
    }
  }

  lemma {:induction false} DloopLength<X, Y>(xs: seq<X>, ys: seq<Y>)
    ensures |Dloop(xs, ys)| == |xs| * |ys|
  {
    if |ys| > 0 {
      DloopLength(xs, ys[1..]);
      assert |xs| * |ys| == |xs| + |xs| * (|ys| - 1);
    }
  }

  /** The double loop yields (x, y) exactly when x is in xs and y in ys. */
  lemma {:induction false} DloopMember<X, Y>(xs: seq<X>, ys: seq<Y>, x: X, y: Y)
    ensures (x, y) in Dloop(xs, ys) <==> x in xs && y in ys
  {
    if |ys| > 0 {
      DloopMember(xs, ys[1..], x, y);
      assert (x, y) in Row(xs, ys[0]) <==> x in xs && y == ys[0] by {
        if x in xs && y == ys[0] {
          var i :| 0 <= i < |xs| && xs[i] == x;
          assert Row(xs, ys[0])[i] == (x, y);
        }
      }
      assert y in ys <==> y == ys[0] || y in ys[1..] by {
        assert ys == [ys[0]] + ys[1..];
      }
    }
  }

  /** An origin is in range(lo, hi, step) exactly when it is a step multiple past lo
      and below hi. */
  lemma {:induction false} RangeStepMember(lo: nat, hi: nat, step: nat, t: int)
    requires step > 0
    ensures t in RangeStep(lo, hi, step) <==> lo <= t < hi && (t - lo) % step == 0
    decreases hi - lo
  {
    if lo < hi {
      assert RangeStep(lo, hi, step) == [lo] + RangeStep(lo + step, hi, step);
      RangeStepMember(lo + step, hi, step, t);
      if lo + step <= t {
        var d := t - lo - step;
        var k, r := d / step, d % step;
        assert (k + 1) * step == k * step + step;
        DivModUnique(t - lo, step, k + 1, r);
      } else if lo < t {
        DivModUnique(t - lo, step, 0, t - lo);
      }
    }
  }

  /** range(lo, hi, step) is strictly increasing, so no origin is visited twice. */
  lemma {:induction false} RangeStepIncreasing(lo: nat, hi: nat, step: nat, i: nat, j: nat)
    requires step > 0
    requires i < j < |RangeStep(lo, hi, step)|
    ensures RangeStep(lo, hi, step)[i] < RangeStep(lo, hi, step)[j]
    decreases hi - lo
  {
    var r := RangeStep(lo, hi, step);
    assert r == [lo] + RangeStep(lo + step, hi, step);
    if i > 0 {
      RangeStepIncreasing(lo + step, hi, step, i - 1, j - 1);
    } else {
      RangeStepMember(lo + step, hi, step, r[j]);
    }
  }

  /** Along one axis of `size` pixels, pixel x < size lies in the block at origin t
      of range(0, size, b) exactly when t is x rounded down to a multiple of b. */
  lemma AxisCover(size: nat, b: nat, x: nat, t: nat)
    requires b > 0 && x < size
    ensures (t in RangeStep(0, size, b) && x in Range(t, t + Extent(t, b, size)))
      <==> t == x - x % b
  {
    RangeStepMember(0, size, b, t);
    RangeMember(t, t + Extent(t, b, size), x);
    var r := x - x % b;
    DivModUnique(r, b, x / b, 0);
    if t % b == 0 && t <= x < t + b {
      DivModUnique(t, b, t / b, 0);
      DivModUnique(x, b, t / b, x - t);
    }
  }

  lemma RangeMember(lo: nat, hi: int, x: int)
    ensures x in Range(lo, hi) <==> lo <= x < hi
  {
    if lo <= x < hi {
      assert Range(lo, hi)[x - lo] == x;
    }
  }

  /** The blocks of `read_tiles` cover every pixel of the image once: pixel (x, y)
      lies in the block at origin (tx, ty) exactly when tx and ty are x and y rounded
      down to multiples of bw and bh. */
  lemma TileCover(w: nat, h: nat, bw: nat, bh: nat, x: nat, y: nat, tx: nat, ty: nat)
    requires bw > 0 && bh > 0 && x < w && y < h
    ensures ((tx, ty) in Origins(w, h, bw, bh) && (x, y) in BlockCells(tx, ty, w, h, bw, bh))
      <==> tx == x - x % bw && ty == y - y % bh
  {
    DloopMember(RangeStep(0, w, bw), RangeStep(0, h, bh), tx, ty);
    DloopMember(Range(tx, tx + Extent(tx, bw, w)), Range(ty, ty + Extent(ty, bh, h)), x, y);
    AxisCover(w, bw, x, tx);
    AxisCover(h, bh, y, ty);
  }

  /** Every pixel of a block lies inside the image. */
  lemma BlockInside(w: nat, h: nat, bw: nat, bh: nat, tx: nat, ty: nat, x: nat, y: nat)
    requires bw > 0 && bh > 0 && (tx, ty) in Origins(w, h, bw, bh)
    requires (x, y) in BlockCells(tx, ty, w, h, bw, bh)
    ensures x < w && y < h
  {
    DloopMember(RangeStep(0, w, bw), RangeStep(0, h, bh), tx, ty);
    DloopMember(Range(tx, tx + Extent(tx, bw, w)), Range(ty, ty + Extent(ty, bh, h)), x, y);
    RangeMember(tx, tx + Extent(tx, bw, w), x);
    RangeMember(ty, ty + Extent(ty, bh, h), y);
    RangeStepMember(0, w, bw, tx);
    RangeStepMember(0, h, bh, ty);
  }
}
