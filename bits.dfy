/** Bit strings, most significant bit first: the order in which the format packs
    codes into 32-bit words and mask pixels into bytes. */
module Bits {
  import opened Arith
  import opened Bytes

  /** The number a bit string denotes, first bit most significant. */
  function FromBits(bs: seq<bool>): (r: nat)
    ensures r < Pow2(|bs|)
  {
    if |bs| == 0 then 0
    else 2 * FromBits(bs[..|bs| - 1]) + (if bs[|bs| - 1] then 1 else 0)
  }

  /** The n low-order bits of x, most significant first. */
  function ToBits(x: nat, n: nat): (r: seq<bool>)
    ensures |r| == n
  {
    if n == 0 then [] else ToBits(x / 2, n - 1) + [x % 2 == 1]
  }

  /** The bits of a byte string, each byte most significant bit first. */
  function Bits8(s: seq<byte>): (r: seq<bool>)
    ensures |r| == 8 * |s|
  {
    if |s| == 0 then [] else Bits8(s[..|s| - 1]) + ToBits(s[|s| - 1], 8)
  }

  lemma {:induction false} FromBitsAppend(a: seq<bool>, b: seq<bool>)
    ensures FromBits(a + b) == FromBits(a) * Pow2(|b|) + FromBits(b)
  {
    if |b| == 0 {
      assert a + b == a;
    } else {
      var b0 := b[..|b| - 1];
      assert (a + b)[..|a + b| - 1] == a + b0;
      assert (a + b)[|a + b| - 1] == b[|b| - 1];
      FromBitsAppend(a, b0);
      var bit := if b[|b| - 1] then 1 else 0;
      assert FromBits(a + b) == 2 * FromBits(a + b0) + bit;
      assert FromBits(b) == 2 * FromBits(b0) + bit;
      Reassociate(FromBits(a), Pow2(|b0|));
    }
  }

  lemma Reassociate(a: int, p: int)
    ensures 2 * (a * p) == a * (2 * p)
  {
  }

  lemma {:induction false} FromToBits(x: nat, n: nat)
    ensures FromBits(ToBits(x, n)) == x % Pow2(n)
  {
    if n > 0 {
      var bs := ToBits(x, n);
      assert bs[..n - 1] == ToBits(x / 2, n - 1);
      FromToBits(x / 2, n - 1);
      HalfRemainder(x, Pow2(n - 1));
    }
  }

  lemma HalfRemainder(x: nat, p: nat)
    requires p >= 1
    ensures x % (2 * p) == 2 * ((x / 2) % p) + x % 2
  {
    var q, r := (x / 2) / p, (x / 2) % p;
    assert x / 2 == q * p + r;
    assert x == q * (2 * p) + (2 * r + x % 2);
    DivModUnique(x, 2 * p, q, 2 * r + x % 2);
  }

  lemma {:induction false} ToFromBits(bs: seq<bool>)
    ensures ToBits(FromBits(bs), |bs|) == bs
  {
    if |bs| > 0 {
      var init := bs[..|bs| - 1];
      var x := FromBits(bs);
      var bit := if bs[|bs| - 1] then 1 else 0;
      DivModUnique(x, 2, FromBits(init), bit);
      ToFromBits(init);
      assert bs == init + [bs[|bs| - 1]];
    }
  }

  /** Two adjacent fields read as one. */
  lemma FromBitsConcat(s: seq<bool>, i: nat, j: nat, k: nat, len: nat)
    requires i <= j <= k <= |s| && len == k - j
    ensures FromBits(s[i..k]) == FromBits(s[i..j]) * Pow2(len) + FromBits(s[j..k])
  {
    assert s[i..k] == s[i..j] + s[j..k];
    FromBitsAppend(s[i..j], s[j..k]);
  }

  /** Dropping the low s bits is a division by 2^s; keeping them is a remainder.
      k is the length of the part that remains after the drop. */
  lemma FromBitsSplit(bs: seq<bool>, s: nat, k: nat)
    requires k + s == |bs|
    ensures FromBits(bs) / Pow2(s) == FromBits(bs[..k])
    ensures FromBits(bs) % Pow2(s) == FromBits(bs[k..])
  {
    var hi, lo := bs[..k], bs[k..];
    assert bs == hi + lo;
    FromBitsAppend(hi, lo);
    DivModUnique(FromBits(bs), Pow2(s), FromBits(hi), FromBits(lo));
  }

  /** The field of n bits that starts at position p of a bit string. */
  lemma FromBitsField(bs: seq<bool>, p: nat, n: nat, low: nat)
    requires p + n + low == |bs|
    ensures (FromBits(bs) / Pow2(low)) % Pow2(n) == FromBits(bs[p..p + n])
  {
    FromBitsSplit(bs, low, p + n);
    var hi := bs[..p + n];
    FromBitsSplit(hi, n, p);
    assert hi[p..] == bs[p..p + n];
  }

  /** A slice of a slice, with the outer bounds given as lo and hi. */
  lemma SliceOfSlice<T>(s: seq<T>, a: nat, b: nat, i: nat, k: nat, lo: nat, hi: nat)
    requires a <= b <= |s| && i <= k <= b - a && lo == a + i && hi == a + k
    ensures s[a..b][i..k] == s[lo..hi]
  {
  }

  lemma {:induction false} Bits8Append(a: seq<byte>, b: seq<byte>)
    ensures Bits8(a + b) == Bits8(a) + Bits8(b)
  {
    if |b| == 0 {
      assert a + b == a;
    } else {
      assert (a + b)[..|a + b| - 1] == a + b[..|b| - 1];
      assert (a + b)[|a + b| - 1] == b[|b| - 1];
      Bits8Append(a, b[..|b| - 1]);
    }
  }

  /** Bit k of ToBits(x, n), counted from the most significant end, is bit n - 1 - k
      of x. */
  lemma {:induction false} ToBitsAt(x: nat, n: nat, k: nat)
    requires k < n
    ensures ToBits(x, n)[k] == ((x / Pow2(n - 1 - k)) % 2 == 1)
  {
    if k < n - 1 {
      ToBitsAt(x / 2, n - 1, k);
      HalfDiv(x, Pow2(n - 2 - k));
    }
  }

  lemma HalfDiv(x: nat, p: nat)
    requires p >= 1
    ensures (x / 2) / p == x / (2 * p)
  {
    var q, r := (x / 2) / p, (x / 2) % p;
    assert x == q * (2 * p) + (2 * r + x % 2);
    DivModUnique(x, 2 * p, q, 2 * r + x % 2);
  }

  /** Bit 8 * i + k of a byte string is bit k, most significant first, of byte i. */
  lemma {:induction false} Bits8At(s: seq<byte>, i: nat, k: nat)
    requires i < |s| && k < 8
    ensures Bits8(s)[8 * i + k] == ToBits(s[i], 8)[k]
  {
    var init := s[..|s| - 1];
    assert Bits8(s) == Bits8(init) + ToBits(s[|s| - 1], 8);
    if i < |s| - 1 {
      Bits8At(init, i, k);
      assert init[i] == s[i];
    }
  }
}
