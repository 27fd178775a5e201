/** What `read_qval` promises about its result: where the cursor ends, how many
    codes it returns, and that for bit widths 1..32 the codes are the consecutive
    MSB-first fields of the words, each below 2^n, which makes the unpack the inverse
    of an MSB-first packer. */
module QValProps {
  import opened Failures
  import opened Arith
  import opened Bytes
  import opened Bits
  import opened QVal

  /** The count field of a header whose selector is bc, read at p. */
  function CountAt(blob: seq<byte>, p: nat, bc: nat): nat
    requires bc < 3 && p + Width(bc) <= |blob|
  {
    LeValue(blob[p..p + Width(bc)])
  }

  /** read_qval fails only for a blob that runs out, a count selector of 3, a word
      iterator that runs dry, a negative shift or a code wider than 32 bits. */
  lemma QValErrors(blob: seq<byte>, offset: nat)
    ensures var r := ReadQValSpec(blob, offset);
      r.Err? ==> r.error in {Truncated, BadSelector, NoCodes, NegativeShift, CodeOverflow}
  {
    if offset + 1 <= |blob| {
      var bc, n := blob[offset] / 64, blob[offset] % 64;
      var p0 := offset + 1;
      if n != 0 && bc != 3 && p0 + Width(bc) <= |blob| {
        CodesErrors(blob, p0 + Width(bc), n, LeValue(blob[p0..p0 + Width(bc)]));
      }
    }
  }

  lemma CodesErrors(blob: seq<byte>, p: nat, n: nat, count: nat)
    ensures var r := CodesSpec(blob, p, n, count);
      r.Err? ==> r.error in {Truncated, NoCodes, NegativeShift, CodeOverflow}
  {
    var nbytes := PackedLength(count, n);
    if p + nbytes <= |blob| && count != 0 {
      UnpackErrors(WordBits(PackedWords(blob, p, nbytes)), n, 0, count);
    }
  }

  lemma {:induction false} UnpackErrors(S: seq<bool>, n: nat, c: nat, k: nat)
    ensures var r := Unpack(S, n, c, k);
      r.Err? ==> r.error in {NoCodes, NegativeShift, CodeOverflow}
    decreases k
  {
    if k > 0 && FirstCode(S, n, c).Ok? {
      UnpackErrors(S, n, c + n, k - 1);
    }
  }

  /** A successful read: no codes and one header byte for bit width 0, otherwise
      exactly count codes and a cursor right after the count and the
      ceil(count * n / 8) packed bytes. */
  lemma QValLayout(blob: seq<byte>, offset: nat)
    requires ReadQValSpec(blob, offset).Ok?
    ensures offset < |blob|
    ensures var q, n, bc := ReadQValSpec(blob, offset).value, blob[offset] % 64, blob[offset] / 64;
      if n == 0 then q == QVal(None, offset + 1)
      else
        bc < 3 && offset + 1 + Width(bc) <= |blob| && q.codes.Some?
        && |q.codes.value| == CountAt(blob, offset + 1, bc)
        && q.next == offset + 1 + Width(bc) + PackedLength(CountAt(blob, offset + 1, bc), n)
  {
    var n, bc := blob[offset] % 64, blob[offset] / 64;
    if n != 0 {
      var p := offset + 1 + Width(bc);
      var count := CountAt(blob, offset + 1, bc);
      var nbytes := PackedLength(count, n);
      UnpackLength(WordBits(PackedWords(blob, p, nbytes)), n, 0, count);
    }
  }

  lemma {:induction false} UnpackLength(S: seq<bool>, n: nat, c: nat, k: nat)
    ensures Unpack(S, n, c, k).Ok? ==> |Unpack(S, n, c, k).value| == k
    decreases k
  {
    if k > 0 {
      UnpackLength(S, n, c + n, k - 1);
    }
  }

  /** Past a header with bit width n >= 1 and a valid selector, read_qval is the
      count read at offset + 1 and the codes that follow it. */
  lemma QValHeader(blob: seq<byte>, offset: nat)
    requires offset < |blob| && blob[offset] % 64 >= 1 && blob[offset] / 64 < 3
    requires offset + 1 + Width(blob[offset] / 64) <= |blob|
    ensures ReadQValSpec(blob, offset)
         == CodesSpec(blob, offset + 1 + Width(blob[offset] / 64), blob[offset] % 64,
                      CountAt(blob, offset + 1, blob[offset] / 64))
  {
  }

  /** The bit stream read_qval unpacks for count codes of n bits at p. */
  function CodeBits(blob: seq<byte>, p: nat, n: nat, count: nat): seq<bool>
    requires p + PackedLength(count, n) <= |blob|
  {
    WordBits(PackedWords(blob, p, PackedLength(count, n)))
  }

  /** The stream is whole words and holds the count * n bits of the codes. */
  lemma CodeBitsLength(blob: seq<byte>, p: nat, n: nat, count: nat)
    requires p + PackedLength(count, n) <= |blob|
    ensures |CodeBits(blob, p, n, count)| % 32 == 0
    ensures count * n <= |CodeBits(blob, p, n, count)|
  {
    var nbytes := PackedLength(count, n);
    var q := (nbytes + 3) / 4;
    assert |CodeBits(blob, p, n, count)| == 32 * q;
    assert (32 * q) % 32 == 0 by {
      DivModUnique(32 * q, 32, q, 0);
    }
    assert count * n <= 32 * q by {
      assert 4 * q >= nbytes;
    }
  }

  /** Values each below 2^n. */
  predicate Below(vals: seq<nat>, n: nat)
  {
    forall i :: 0 <= i < |vals| ==> vals[i] < Pow2(n)
  }

  /** count >= 1 codes of 1..32 bits whose packed bytes are all present are all read:
      packed again MSB first they give back the leading count * n bits of the stream,
      and each is below 2^n. */
  lemma CodesRead(blob: seq<byte>, p: nat, n: nat, count: nat)
    requires 1 <= n <= 32 && count >= 1 && p + PackedLength(count, n) <= |blob|
    ensures CodesSpec(blob, p, n, count).Ok? && CodesSpec(blob, p, n, count).value.codes.Some?
    ensures var S, vals := CodeBits(blob, p, n, count), CodesSpec(blob, p, n, count).value.codes.value;
      count * n <= |S| && PackBits(vals, n) == S[..count * n] && Below(vals, n)
  {
    var S := CodeBits(blob, p, n, count);
    CodeBitsLength(blob, p, n, count);
    var e := count * n;
    TimesMul(count, n);
    UnpackFields(S, n, 0, count);
    FieldsPack(S, n, 0, count, e);
    FieldsBelow(S, n, 0, count);
    assert S[0..e] == S[..e];
  }

  /** The k consecutive n-bit fields of S from bit c, first bit most significant. */
  function Fields(S: seq<bool>, n: nat, c: nat, k: nat): (r: seq<nat>)
    requires c + Times(k, n) <= |S|
    ensures |r| == k
    decreases k
  {
    if k == 0 then [] else [FromBits(S[c..c + n])] + Fields(S, n, c + n, k - 1)
  }

  /** For widths 1..32 and enough bits of a word-aligned stream, the unpack succeeds
      and yields the fields. */
  lemma {:induction false} UnpackFields(S: seq<bool>, n: nat, c: nat, k: nat)
    requires 1 <= n <= 32 && |S| % 32 == 0 && c + Times(k, n) <= |S|
    ensures Unpack(S, n, c, k) == Ok(Fields(S, n, c, k))
    decreases k
  {
    if k > 0 {
      UnpackFields(S, n, c + n, k - 1);
      UnpackFirst(S, n, c, k);
    }
  }

  /** One code taken off the front of the unpack. */
  lemma UnpackFirst(S: seq<bool>, n: nat, c: nat, k: nat)
    requires 1 <= n <= 32 && |S| % 32 == 0 && c + Times(k, n) <= |S| && k >= 1
    requires Unpack(S, n, c + n, k - 1) == Ok(Fields(S, n, c + n, k - 1))
    ensures Unpack(S, n, c, k) == Ok(Fields(S, n, c, k))
  {
    FirstFits(S, n, c);
  }

  /** The fields packed again are the bits they were read from. */
  lemma {:induction false} FieldsPack(S: seq<bool>, n: nat, c: nat, k: nat, e: nat)
    requires e == c + Times(k, n) && e <= |S|
    ensures PackBits(Fields(S, n, c, k), n) == S[c..e]
    decreases k
  {
    if k == 0 {
      assert c == e;
    } else {
      var m := c + n;
      FieldsPack(S, n, m, k - 1, e);
      PackStep(FromBits(S[c..m]), Fields(S, n, m, k - 1), n);
      ToFromBits(S[c..m]);
      SliceConcat(S, c, m, e);
    }
  }

  /** Each field is below 2^n. */
  lemma {:induction false} FieldsBelow(S: seq<bool>, n: nat, c: nat, k: nat)
    requires c + Times(k, n) <= |S|
    ensures Below(Fields(S, n, c, k), n)
    decreases k
  {
    if k > 0 {
      FieldsBelow(S, n, c + n, k - 1);
      assert FromBits(S[c..c + n]) < Pow2(n);
    }
  }

  lemma SliceConcat<T>(s: seq<T>, i: nat, j: nat, k: nat)
    requires i <= j <= k <= |s|
    ensures s[i..j] + s[j..k] == s[i..k]
  {
  }

  /** One value taken off the front of the packing. */
  lemma PackStep(first: nat, rest: seq<nat>, n: nat)
    ensures PackBits([first] + rest, n) == ToBits(first, n) + PackBits(rest, n)
  {
    assert ([first] + rest)[1..] == rest;
  }

  /** k * n as repeated addition, so that inductions over k stay linear. */
  function Times(k: nat, n: nat): nat
  {
    if k == 0 then 0 else Times(k - 1, n) + n
  }

  lemma {:induction false} TimesMul(k: nat, n: nat)
    ensures Times(k, n) == k * n
  {
    if k > 0 {
      TimesMul(k - 1, n);
      assert k * n == (k - 1) * n + n;
    }
  }

  /** The first field fits in the words present and in 32 bits. */
  lemma FirstFits(S: seq<bool>, n: nat, c: nat)
    requires 1 <= n <= 32 && |S| % 32 == 0 && c + n <= |S|
    ensures FirstCode(S, n, c) == Ok(FromBits(S[c..c + n]))
  {
    var b := Boundary(c);
    BoundaryWord(c);
    if c + n > b {
      NextMultiple(b, |S|);
    }
    assert !NeedsMissingWord(S, n, c);
    FieldValue(S, c, n);
    Pow2Monotone(n, 32);
  }

  lemma NextMultiple(a: nat, b: nat)
    requires a % 32 == 0 && b % 32 == 0 && a < b
    ensures a + 32 <= b
  {
    assert a == 32 * (a / 32);
    assert b == 32 * (b / 32);
  }

  /** The boundary after c bits is the first multiple of 32 at or after c (32 at 0). */
  lemma {:induction false} BoundaryWord(c: nat)
    ensures Boundary(c) % 32 == 0 && c <= Boundary(c) <= c + 32
  {
    if c > 32 {
      BoundaryWord(c - 32);
    }
  }

  /** An MSB-first packer: the n low bits of each value, one after another. */
  function PackBits(vals: seq<nat>, n: nat): (r: seq<bool>)
  {
    if |vals| == 0 then [] else ToBits(vals[0], n) + PackBits(vals[1..], n)
  }

  lemma {:induction false} PackBitsLength(vals: seq<nat>, n: nat)
    ensures |PackBits(vals, n)| == Times(|vals|, n)
  {
    if |vals| > 0 {
      PackBitsLength(vals[1..], n);
    }
  }

  /** The unpack reads back what the packer wrote, wherever in a word-aligned stream
      the packed bits start. */
  lemma PackRoundTrip(S: seq<bool>, n: nat, c: nat, vals: seq<nat>)
    requires 1 <= n <= 32 && |S| % 32 == 0 && Below(vals, n)
    requires c + |vals| * n <= |S| && S[c..c + |vals| * n] == PackBits(vals, n)
    ensures Unpack(S, n, c, |vals|) == Ok(vals)
  {
    TimesMul(|vals|, n);
    UnpackFields(S, n, c, |vals|);
    FieldsOfPacked(S, n, c, vals, |vals|, c + |vals| * n);
  }

  /** Bits packed from values below 2^n read back, as fields, as those values. */
  lemma {:induction false} FieldsOfPacked(S: seq<bool>, n: nat, c: nat, vals: seq<nat>, k: nat, e: nat)
    requires 1 <= n <= 32 && Below(vals, n) && k == |vals|
    requires e == c + Times(k, n) && e <= |S| && S[c..e] == PackBits(vals, n)
    ensures Fields(S, n, c, k) == vals
    decreases k
  {
    if k > 0 {
      PackedStep(S, n, c, vals, e);
      FieldsOfPacked(S, n, c + n, vals[1..], k - 1, e);
      assert vals == [vals[0]] + vals[1..];
    }
  }

  lemma PackedStep(S: seq<bool>, n: nat, c: nat, vals: seq<nat>, e: nat)
    requires 1 <= n <= 32 && Below(vals, n) && |vals| >= 1
    requires e == c + Times(|vals|, n) && e <= |S| && S[c..e] == PackBits(vals, n)
    ensures c + n <= e && e == c + n + Times(|vals| - 1, n)
    ensures S[c + n..e] == PackBits(vals[1..], n) && Below(vals[1..], n)
    ensures FromBits(S[c..c + n]) == vals[0]
  {
    var m := c + n;
    var rest := vals[1..];
    PackBitsLength(rest, n);
    PackStep(vals[0], rest, n);
    assert vals == [vals[0]] + rest;
    assert S[c..m] == S[c..e][..n];
    assert S[m..e] == S[c..e][n..];
    FromToBits(vals[0], n);
    DivModUnique(vals[0], Pow2(n), 0, vals[0]);
  }

  /** The stored bytes of a final partial word fill the word's high end; its unused
      low bytes are zero. */
  lemma HighWordLayout(bs: seq<byte>)
    requires 1 <= |bs| <= 3
    ensures HighWord(bs) / Pow2(32 - 8 * |bs|) == LeValue(bs)
    ensures HighWord(bs) % Pow2(32 - 8 * |bs|) == 0
  {
    var k := 8 * |bs|;
    DivModUnique(LeValue(bs) * Pow2(32 - k), Pow2(32 - k), LeValue(bs), 0);
  }
}
