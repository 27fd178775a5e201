/** The IEEE 754 binary32 and binary64 fields of the format (`struct` "<f" and "<d"),
    read as the exact real numbers their bit patterns denote.  Infinities and NaNs
    have no real value; they read as 0.0 here, and `IsFinite32` tells them apart
    where the decoder's behaviour depends on it. */
module Floats {
  import opened Arith

  /** 2^k for any integer k. */
  function RealPow2(k: int): (r: real)
    ensures r > 0.0
    decreases if k < 0 then -k else k
  {
    if k == 0 then 1.0
    else if k > 0 then 2.0 * RealPow2(k - 1)
    else RealPow2(k + 1) / 2.0
  }

  /** The magnitude of a finite pattern with biased exponent field e and fraction
      field m, in a format with `fraction` fraction bits and the given bias:
      1.m * 2^(e - bias) for normal numbers, 0.m * 2^(1 - bias) for e == 0. */
  function Magnitude(e: nat, m: nat, fraction: nat, bias: nat): real
  {
    var significand := (if e == 0 then 0 else Pow2(fraction)) + m;
    var exponent := if e == 0 then 1 else e;
    significand as real * RealPow2(exponent - bias - fraction)
  }

  /** A binary32 pattern whose exponent field is not all ones. */
  predicate IsFinite32(bits: nat)
  {
    (bits / 0x80_0000) % 0x100 != 0xFF
  }

  /** The value of a binary32 pattern: sign bit 31, exponent bits 30..23 (bias 127),
      fraction bits 22..0. */
  function Float32Value(bits: nat): real
  {
    var e, m := (bits / 0x80_0000) % 0x100, bits % 0x80_0000;
    var magnitude := if e == 0xFF then 0.0 else Magnitude(e, m, 23, 127);
    if (bits / 0x8000_0000) % 2 == 1 then -magnitude else magnitude
  }

  /** The value of a binary64 pattern: sign bit 63, exponent bits 62..52 (bias 1023),
      fraction bits 51..0. */
  function Float64Value(bits: nat): real
  {
    var e, m := (bits / 0x10_0000_0000_0000) % 0x800, bits % 0x10_0000_0000_0000;
    var magnitude := if e == 0x7FF then 0.0 else Magnitude(e, m, 52, 1023);
    if (bits / 0x8000_0000_0000_0000) % 2 == 1 then -magnitude else magnitude
  }

  /** The binary32 patterns that read as 0.0 are exactly +0.0 and -0.0. */
  lemma Float32Zero(bits: nat)
    requires bits < 0x1_0000_0000
    ensures IsFinite32(bits) && Float32Value(bits) == 0.0 <==> bits % 0x8000_0000 == 0
  {
    var e, m := (bits / 0x80_0000) % 0x100, bits % 0x80_0000;
    Fields32(bits);
    MagnitudeSign(e, m, 23, 127);
  }

  /** The only binary32 pattern that reads as 1.0 is 0x3F800000. */
  lemma Float32One(bits: nat)
    requires bits < 0x1_0000_0000
    ensures IsFinite32(bits) && Float32Value(bits) == 1.0 <==> bits == 0x3F80_0000
  {
    var e, m := (bits / 0x80_0000) % 0x100, bits % 0x80_0000;
    Fields32(bits);
    if bits == 0x3F80_0000 {
      assert e == 127 && m == 0;
      OneMagnitude(e, 23, 127);
    }
    if IsFinite32(bits) && Float32Value(bits) == 1.0 {
      MagnitudeSign(e, m, 23, 127);
      MagnitudeOne(e, m);
    }
  }

  /** The sign, exponent and fraction fields recompose the pattern. */
  lemma Fields32(bits: nat)
    requires bits < 0x1_0000_0000
    ensures var s, e, m := (bits / 0x8000_0000) % 2, (bits / 0x80_0000) % 0x100, bits % 0x80_0000;
      bits == s * 0x8000_0000 + e * 0x80_0000 + m && bits % 0x8000_0000 == e * 0x80_0000 + m
  {
  }

  /** A magnitude is never negative, and it is zero only for e == 0 and m == 0. */
  lemma MagnitudeSign(e: nat, m: nat, fraction: nat, bias: nat)
    ensures Magnitude(e, m, fraction, bias) >= 0.0
    ensures Magnitude(e, m, fraction, bias) == 0.0 <==> e == 0 && m == 0
  {
    var significand := (if e == 0 then 0 else Pow2(fraction)) + m;
    var exponent := if e == 0 then 1 else e;
    if significand > 0 {
      PositiveProduct(significand as real, RealPow2(exponent - bias - fraction));
    }
  }

  lemma PositiveProduct(a: real, b: real)
    requires a > 0.0 && b > 0.0
    ensures a * b > 0.0
  {
  }

  /** Exponent field equal to the bias with fraction 0 is 2^f * 2^-f == 1. */
  lemma OneMagnitude(e: nat, fraction: nat, bias: nat)
    requires e == bias && e >= 1
    ensures Magnitude(e, 0, fraction, bias) == 1.0
  {
    assert e - bias - fraction == -(fraction as int);
    RealPow2Inverse(fraction);
    RealPow2Nat(fraction);
  }

  /** A binary32 magnitude of exactly 1.0 has exponent field 127 and fraction 0. */
  lemma MagnitudeOne(e: nat, m: nat)
    requires e < 0xFF && m < 0x80_0000 && Magnitude(e, m, 23, 127) == 1.0
    ensures e == 127 && m == 0
  {
    var significand: nat := (if e == 0 then 0 else Pow2(23)) + m;
    var exponent := if e == 0 then 1 else e;
    var k := exponent - 127 - 23;
    assert significand as real * RealPow2(k) == 1.0;
    Pow2Constants();
    Pow2Add(16, 7);
    if k >= 0 {
      ScaledUp(significand, k);
      assert false;
    } else {
      var j: nat := -k;
      assert k == -(j as int);
      SignificandPower(significand, j);
      Pow2Range(j);
    }
  }

  /** Scaling by 2^k with k >= 0 never makes a count smaller. */
  lemma ScaledUp(significand: nat, k: nat)
    ensures significand as real * RealPow2(k) >= significand as real
  {
    RealPow2Nat(k);
    RealScaleUp(significand as real, RealPow2(k));
  }

  /** significand * 2^-j == 1 makes significand == 2^j. */
  lemma SignificandPower(significand: nat, j: nat)
    requires significand as real * RealPow2(-(j as int)) == 1.0
    ensures significand == Pow2(j)
  {
    RealPow2Inverse(j);
    ScaleInverse(significand as real, RealPow2(-(j as int)), RealPow2(j));
    RealPow2Nat(j);
  }

  /** 2^j below 2^24 means j <= 23, and 2^j at least 2^23 means j >= 23. */
  lemma Pow2Range(j: nat)
    ensures Pow2(j) < 0x100_0000 ==> j <= 23
    ensures Pow2(j) >= 0x80_0000 ==> j >= 23
  {
    Pow2Constants();
    Pow2Add(16, 7);
    Pow2Add(16, 8);
    if j >= 24 {
      Pow2Monotone(24, j);
    } else if j <= 22 {
      Pow2Monotone(j, 22);
      Pow2Add(16, 6);
    }
  }

  lemma ScaleInverse(a: real, p: real, q: real)
    requires p * q == 1.0 && a * p == 1.0
    ensures a == q
  {
    calc {
      a;
   == a * (p * q);
   == (a * p) * q;
   == q;
    }
  }

  lemma RealScaleUp(a: real, b: real)
    requires a >= 0.0 && b >= 1.0
    ensures a * b >= a
  {
    assert a * b == a + a * (b - 1.0);
    NonNegativeProduct(a, b - 1.0);
  }

  lemma NonNegativeProduct(a: real, b: real)
    requires a >= 0.0 && b >= 0.0
    ensures a * b >= 0.0
  {
  }

  lemma {:induction false} RealPow2Inverse(k: nat)
    ensures RealPow2(-(k as int)) * RealPow2(k) == 1.0
  {
    if k > 0 {
      RealPow2Inverse(k - 1);
      assert RealPow2(-(k as int)) == RealPow2(-((k - 1) as int)) / 2.0;
      assert RealPow2(k) == 2.0 * RealPow2(k - 1);
    }
  }

  lemma {:induction false} RealPow2Nat(k: nat)
    ensures RealPow2(k) == Pow2(k) as real
  {
    if k > 0 {
      RealPow2Nat(k - 1);
    }
  }

  /** Setting the sign bit of a binary32 pattern negates its value. */
  lemma Float32Negate(bits: nat)
    requires bits < 0x8000_0000
    ensures Float32Value(bits + 0x8000_0000) == -Float32Value(bits)
    ensures IsFinite32(bits + 0x8000_0000) == IsFinite32(bits)
  {
    SignBitFields(bits, 0x80_0000, 0x100, 0x8000_0000);
  }

  /** Setting the sign bit of a binary64 pattern negates its value. */
  lemma Float64Negate(bits: nat)
    requires bits < 0x8000_0000_0000_0000
    ensures Float64Value(bits + 0x8000_0000_0000_0000) == -Float64Value(bits)
  {
    SignBitFields(bits, 0x10_0000_0000_0000, 0x800, 0x8000_0000_0000_0000);
  }

  /** With the sign bit s = f * e added, the fraction and exponent fields stay put
      and the sign field becomes 1. */
  lemma SignBitFields(bits: nat, f: nat, e: nat, s: nat)
    requires f >= 1 && e >= 1 && s == f * e && bits < s
    ensures (bits + s) % f == bits % f
    ensures ((bits + s) / f) % e == (bits / f) % e
    ensures ((bits + s) / s) % 2 == 1 && (bits / s) % 2 == 0
  {
    var q := bits / f;
    assert bits + s == (q + e) * f + bits % f;
    DivModUnique(bits + s, f, q + e, bits % f);
    DivModUnique(q + e, e, q / e + 1, q % e);
    DivModUnique(bits + s, s, 1, bits);
    DivModUnique(bits, s, 0, bits);
  }
}
