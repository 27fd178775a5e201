/** Powers of two and the division facts the bit- and byte-level proofs rely on.
    Python's shifts on non-negative integers are multiplication and floor division by
    powers of two, and an `&` with a mask of `n` low one-bits is a remainder modulo 2^n. */
module Arith {

  function Pow2(n: nat): (r: nat)
    ensures r >= 1
  {
    if n == 0 then 1 else 2 * Pow2(n - 1)
  }

  lemma {:induction false} Pow2Add(a: nat, b: nat)
    ensures Pow2(a + b) == Pow2(a) * Pow2(b)
  {
    if a > 0 {
      Pow2Add(a - 1, b);
      assert Pow2(a + b) == 2 * Pow2(a - 1 + b);
    }
  }

  lemma Pow2Constants()
    ensures Pow2(8) == 0x100 && Pow2(16) == 0x1_0000 && Pow2(24) == 0x100_0000
    ensures Pow2(32) == 0x1_0000_0000
  {
    assert Pow2(2) == 4;
    assert Pow2(4) == 16;
    assert Pow2(6) == 64;
    assert Pow2(8) == 256;
    Pow2Add(8, 8);
    Pow2Add(16, 8);
    Pow2Add(16, 16);
  }

  lemma {:induction false} Pow2Monotone(a: nat, b: nat)
    requires a <= b
    ensures Pow2(a) <= Pow2(b)
  {
    if a < b {
      Pow2Monotone(a, b - 1);
    }
  }

  /** x is its quotient times d plus its remainder. */
  lemma DivMod(x: nat, d: nat)
    requires d > 0
    ensures x == (x / d) * d + x % d && 0 <= x % d < d && 0 <= x / d
  {
  }

  /** Division and remainder are determined by any decomposition with a remainder in range. */
  lemma DivModUnique(x: int, d: int, q: int, r: int)
    requires d > 0 && 0 <= r < d && x == q * d + r
    ensures x / d == q && x % d == r
  {
    var q0, r0 := x / d, x % d;
    assert q0 * d + r0 == x;
    var t := q - q0;
    assert t * d == q * d - q0 * d;
    assert t * d == r0 - r;
    if t >= 1 {
      MulAtLeast(t, d);
    } else if t <= -1 {
      MulAtLeast(-t, d);
    }
  }

  lemma {:induction false} MulAtLeast(t: int, d: int)
    requires t >= 1 && d >= 0
    ensures t * d >= d
  {
    if t > 1 {
      MulAtLeast(t - 1, d);
      assert t * d == (t - 1) * d + d;
    }
  }

  lemma MulBoundLeft(a: nat, b: nat, c: nat)
    requires a <= b
    ensures a * c <= b * c
  {
    if a < b {
      MulAtLeast(b - a, c);
      assert b * c == a * c + (b - a) * c;
    }
  }

  lemma MulStrict(a: nat, b: nat, c: nat)
    requires a < b && c >= 1
    ensures a * c < b * c
  {
    MulBoundLeft(a + 1, b, c);
    assert (a + 1) * c == a * c + c;
  }

  /** Shifting left by k and keeping n bits keeps the low n - k bits of x. */
  lemma ShiftLeftMod(x: nat, k: nat, n: nat)
    requires k <= n
    ensures (x * Pow2(k)) % Pow2(n) == (x % Pow2(n - k)) * Pow2(k)
  {
    var m, p, big := Pow2(n - k), Pow2(k), Pow2(n);
    Pow2Add(n - k, k);
    ScaledDecomposition(x, m, p, big);
  }

  lemma ScaledDecomposition(x: nat, m: nat, p: nat, big: nat)
    requires m >= 1 && p >= 1 && big == m * p
    ensures (x * p) % big == (x % m) * p
  {
    var q, r := x / m, x % m;
    assert x == q * m + r;
    assert x * p == q * big + r * p by {
      assert x * p == (q * m) * p + r * p;
      assert (q * m) * p == q * (m * p);
    }
    MulBoundLeft(r + 1, m, p);
    assert (r + 1) * p == r * p + p;
    DivModUnique(x * p, big, q, r * p);
  }
}
