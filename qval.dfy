/** The packed unsigned codes of a quantized block (`read_qval`).
    Layout at the cursor: one header byte whose low 6 bits are the bit width n and
    whose top 2 bits select the width (4, 2, 1 bytes) of the little-endian count that
    follows; then ceil(count * n / 8) packed bytes.  The packed bytes are read as 32-bit
    little-endian words, the last partial word stored as only its high-order bytes,
    and the codes are the consecutive n-bit fields of those words read MSB first. */
module QVal {
  import opened Failures
  import opened Arith
  import opened Bytes
  import opened Bits

  /** (4, 2, 1)[bc]: bytes of a field whose 2-bit width selector is bc. */
  function Width(bc: nat): (r: nat)
    requires bc < 3
    ensures r == 4 || r == 2 || r == 1
  {
    if bc == 0 then 4 else if bc == 1 then 2 else 1
  }

  /** The word rebuilt from the e < 4 stored bytes of a final partial word: byte i
      lands at byte position i + 4 - e of the word. */
  function HighWord(bs: seq<byte>): (r: nat)
    requires 1 <= |bs| <= 3
    ensures r < Pow2(32)
  {
    var k := 8 * |bs|;
    ShiftedBound(LeValue(bs), k, 32 - k);
    LeValue(bs) * Pow2(32 - k)
  }

  /** An a-bit value shifted up by b bits fits in a + b bits. */
  lemma ShiftedBound(x: nat, a: nat, b: nat)
    requires x < Pow2(a)
    ensures 0 <= x * Pow2(b) < Pow2(a + b)
  {
    Pow2Add(a, b);
    MulBoundLeft(0, x, Pow2(b));
    MulStrict(x, Pow2(a), Pow2(b));
  }

  /** struct "<%dI": k consecutive 32-bit little-endian words. */
  function ReadU32s(blob: seq<byte>, off: nat, k: nat): (r: seq<nat>)
    requires off + 4 * k <= |blob|
    ensures |r| == k && forall i :: 0 <= i < k ==> r[i] == U32(blob, off + 4 * i)
  {
    seq(k, i requires 0 <= i < k => U32(blob, off + 4 * i))
  }

  /** The words the decoder reads for nbytes packed bytes at p: the full words, then
      the partial word if the byte count is not a multiple of four. */
  function PackedWords(blob: seq<byte>, p: nat, nbytes: nat): (r: seq<nat>)
    requires p + nbytes <= |blob|
    ensures |r| == (nbytes + 3) / 4
    ensures forall i :: 0 <= i < |r| ==> r[i] < Pow2(32)
  {
    var nint := nbytes / 4;
    var extra := nbytes - 4 * nint;
    Pow2Constants();
    ReadU32s(blob, p, nint) + (if extra != 0 then [HighWord(blob[p + 4 * nint..p + nbytes])] else [])
  }

  /** The bit stream of a word sequence, each word MSB first. */
  function WordBits(ws: seq<nat>): (r: seq<bool>)
    ensures |r| == 32 * |ws|
  {
    if |ws| == 0 then [] else ToBits(ws[0], 32) + WordBits(ws[1..])
  }

  /** End of the word that holds the unpack cursor after c bits have been taken
      (the first word before anything is taken). */
  function Boundary(c: nat): nat
  {
    if c <= 32 then 32 else Boundary(c - 32) + 32
  }

  /** The k codes of n bits each that start at bit c of the stream S (32 bits per
      word), with the failures of the original unpack loop: a field that runs past the
      current word needs the next word, and the word iterator may have none left; the
      loop can only combine the rest of its current word with that next word, so a
      field reaching further fails with a negative shift; and a code of 2^32 or more
      does not fit the unsigned 32-bit array it is stored in. */
  function Unpack(S: seq<bool>, n: nat, c: nat, k: nat): Result<seq<nat>>
    decreases k
  {
    if k == 0 then Ok([])
    else
      match FirstCode(S, n, c)
      case Err(e) => Err(e)
      case Ok(val) => Prepend([val], Unpack(S, n, c + n, k - 1))
  }

  /** The code of n bits at bit c, or the failure the loop meets taking it. */
  function FirstCode(S: seq<bool>, n: nat, c: nat): Result<nat>
  {
    if NeedsMissingWord(S, n, c) then Err(NoCodes)
    else if c + n > Boundary(c) + 32 then Err(NegativeShift)
    else if c + n > |S| then Err(NoCodes)
    else if Field(S, c, n) >= Pow2(32) then Err(CodeOverflow)
    else Ok(Field(S, c, n))
  }

  /** The n bits of S at c as a number, first bit most significant. */
  function Field(S: seq<bool>, c: nat, n: nat): nat
    requires c + n <= |S|
  {
    if n == 0 then 0 else 2 * Field(S, c, n - 1) + (if S[c + n - 1] then 1 else 0)
  }

  /** Field is the number the bit slice denotes. */
  lemma {:induction false} FieldValue(S: seq<bool>, c: nat, n: nat)
    requires c + n <= |S|
    ensures Field(S, c, n) == FromBits(S[c..c + n])
  {
    if n > 0 {
      FieldValue(S, c, n - 1);
      assert S[c..c + n][..n - 1] == S[c..c + n - 1];
    }
  }

  /** The field at c runs past the current word and no word follows it. */
  predicate NeedsMissingWord(S: seq<bool>, n: nat, c: nat)
  {
    c + n > Boundary(c) && Boundary(c) + 32 > |S|
  }

  /** The codes vs followed by the outcome r, or r's failure. */
  function Prepend(vs: seq<nat>, r: Result<seq<nat>>): Result<seq<nat>>
  {
    match r
    case Err(e) => Err(e)
    case Ok(ws) => Ok(vs + ws)
  }

  /** The bytes that hold count codes of n bits. */
  function PackedLength(count: nat, n: nat): nat
  {
    ByteLength(count * n)
  }

  /** What `read_qval` returns: the codes, or None when the bit width is 0, and the
      offset after the packed bytes. */
  datatype QVal = QVal(codes: Option<seq<nat>>, next: nat)

  /** read_qval(blob, offset). */
  function ReadQValSpec(blob: seq<byte>, offset: nat): Result<QVal>
  {
    if offset + 1 > |blob| then Err(Truncated)
    else
      var bc, n := blob[offset] / 64, blob[offset] % 64;
      var p0 := offset + 1;
      if n == 0 then Ok(QVal(None, p0))
      else if bc == 3 then Err(BadSelector)
      else if p0 + Width(bc) > |blob| then Err(Truncated)
      else
        CodesSpec(blob, p0 + Width(bc), n, LeValue(blob[p0..p0 + Width(bc)]))
  }

  /** The rest of read_qval once the bit width n >= 1 and the count are read and the
      cursor is at the packed bytes p. */
  function CodesSpec(blob: seq<byte>, p: nat, n: nat, count: nat): Result<QVal>
  {
    var nbytes := PackedLength(count, n);
    if p + nbytes > |blob| then Err(Truncated)
    else if count == 0 then Err(NoCodes)
    else
      WithCodes(Unpack(WordBits(PackedWords(blob, p, nbytes)), n, 0, count), p + nbytes)
  }

  function WithCodes(codes: Result<seq<nat>>, next: nat): Result<QVal>
  {
    match codes
    case Err(e) => Err(e)
    case Ok(vals) => Ok(QVal(Some(vals), next))
  }

  /** read_qval(blob, offset): the unpack loop keeps the current word v, the bits
      still unread in it, and the position of the word iterator. */
  method ReadQVal(blob: seq<byte>, offset: nat) returns (r: Result<QVal>)
    ensures r == ReadQValSpec(blob, offset)
  {
    if offset + 1 > |blob| {
      return Err(Truncated);
    }
    var nbits := blob[offset] as nat;
    var off := offset + 1;
    var bc := nbits / 64;
    nbits := nbits % 64;
    if nbits == 0 {
      return Ok(QVal(None, off));
    }
    if bc == 3 {
      return Err(BadSelector);
    }
    if off + Width(bc) > |blob| {
      return Err(Truncated);
    }
    var count := LeValue(blob[off..off + Width(bc)]);
    off := off + Width(bc);
    r := ReadCodes(blob, off, nbits, count);
  }

  /** The packed words and their unpacking, for a bit width of at least 1. */
  method ReadCodes(blob: seq<byte>, p: nat, nbits: nat, count: nat) returns (r: Result<QVal>)
    requires 1 <= nbits
    ensures r == CodesSpec(blob, p, nbits, count)
  {
    var nbytes := PackedLength(count, nbits);
    var words := ReadPacked(blob, p, nbytes);
    if words.Err? {
      return Err(words.error);
    }
    var values32 := words.value;
    if count == 0 {
      // next() on the empty word iterator
      return Err(NoCodes);
    }
    MulAtLeast(count, nbits);
    var codes := UnpackCodes(values32, nbits, count);
    return WithCodes(codes, p + nbytes);
  }

  /** The packed bytes of read_qval read as words: the full words with one
      struct "<%dI", then the bytes of the partial word shifted into its high end. */
  method ReadPacked(blob: seq<byte>, p: nat, nbytes: nat) returns (r: Result<seq<nat>>)
    ensures p + nbytes > |blob| ==> r == Err(Truncated)
    ensures p + nbytes <= |blob| ==> r == Ok(PackedWords(blob, p, nbytes))
  {
    var nint := nbytes / 4;
    if p + 4 * nint > |blob| {
      return Err(Truncated);
    }
    var values32 := ReadU32s(blob, p, nint);
    var off := p + 4 * nint;
    var extra := nbytes - nint * 4;
    if extra != 0 {
      if off + extra > |blob| {
        return Err(Truncated);
      }
      var values8 := blob[off..off + extra];
      // the shifted bytes occupy disjoint bits, so the original's `|=` adds
      var v8 := 0;
      var i := 0;
      while i < extra
        invariant 0 <= i <= extra
        invariant v8 == LeValue(values8[..i]) * Pow2(8 * (4 - extra))
      {
        HighByteStep(values8, i, extra);
        v8 := v8 + values8[i] * Pow2(8 * (i + 4 - extra));
        i := i + 1;
      }
      assert values8[..i] == values8;
      assert v8 == HighWord(values8);
      assert off + extra == p + nbytes;
      values32 := values32 + [v8];
      assert values8 == blob[p + 4 * nint..p + nbytes];
      assert values32 == ReadU32s(blob, p, nint) + [HighWord(values8)];
    } else {
      assert values32 == ReadU32s(blob, p, nint) + [];
    }
    return Ok(values32);
  }

  /** The unpack loop of read_qval: it keeps the current word v, the bits still
      unread in it, and the position of the word iterator. */
  method UnpackCodes(words: seq<nat>, nbits: nat, count: nat) returns (r: Result<seq<nat>>)
    requires 1 <= nbits && 1 <= |words|
    requires forall i :: 0 <= i < |words| ==> words[i] < Pow2(32)
    ensures r == Unpack(WordBits(words), nbits, 0, count)
  {
    ghost var S := WordBits(words);
    var values := new nat[count];
    var bitsLeft: int := 32;
    var j := 0;
    var v := words[0];
    var dst := 0;
    ghost var c := 0;
    ghost var whole := Unpack(S, nbits, 0, count);
    ghost var done: seq<nat> := [];
    ghost var left := count;
    PrependNothing(whole);
    while dst < count
      invariant 0 <= dst <= count
      invariant Cursor(words, c, j, v, bitsLeft)
      invariant done == values[..dst] && left == count - dst
      invariant whole == Prepend(done, Unpack(S, nbits, c, left))
    {
      var code;
      code, j, v, bitsLeft := NextCode(words, nbits, j, v, bitsLeft, c);
      if code.Err? {
        UnpackFailsFirst(S, nbits, c, left, done, code.error);
        return Err(code.error);
      }
      UnpackTakesFirst(S, nbits, c, left, done, code.value);
      values[dst] := code.value;
      done, dst, left, c := done + [code.value], dst + 1, left - 1, c + nbits;
    }
    assert values[..] == values[..dst] + [];
    return Ok(values[..]);
  }

  /** The state of the unpack loop after c bits: the word iterator has yielded word j,
      held in v, of which bitsLeft low bits are still unread. */
  ghost predicate Cursor(words: seq<nat>, c: nat, j: nat, v: nat, bitsLeft: int)
  {
    j < |words| && v == words[j] && c + bitsLeft == 32 * (j + 1) && 0 <= bitsLeft <= 32
    && ((c == 0 && bitsLeft == 32) || (c > 0 && bitsLeft < 32))
  }

  /** One pass of the unpack loop: the next code and the state after it. */
  method NextCode(words: seq<nat>, nbits: nat, j: nat, v: nat, bitsLeft: int, ghost c: nat)
    returns (r: Result<nat>, j': nat, v': nat, bitsLeft': int)
    requires 1 <= nbits && Cursor(words, c, j, v, bitsLeft)
    requires forall i :: 0 <= i < |words| ==> words[i] < Pow2(32)
    ensures r == FirstCode(WordBits(words), nbits, c)
    ensures r.Ok? ==> Cursor(words, c + nbits, j', v', bitsLeft')
  {
    BoundaryOf(c, j + 1, bitsLeft);
    j', v' := j, v;
    var val;
    if bitsLeft >= nbits {
      val := CodeInWord(words, j, v, bitsLeft, nbits, c);
      bitsLeft' := bitsLeft - nbits;
    } else {
      if j + 1 == |words| {
        // next() on the exhausted word iterator
        return Err(NoCodes), j', v', bitsLeft;
      }
      j' := j + 1;
      v' := words[j'];
      bitsLeft' := bitsLeft + 32 - nbits;
      if bitsLeft' < 0 {
        return Err(NegativeShift), j', v', bitsLeft';
      }
      val := CodeAcrossWords(words, j, v, v', bitsLeft, nbits, c);
    }
    if val >= Pow2(32) {
      // storing into the unsigned 32-bit array overflows
      return Err(CodeOverflow), j', v', bitsLeft';
    }
    r := Ok(val);
  }

  /** A code that lies inside the current word: a shift and a mask. */
  method CodeInWord(words: seq<nat>, j: nat, v: nat, bitsLeft: nat, nbits: nat, ghost c: nat)
    returns (val: nat)
    requires j < |words| && v == words[j] < Pow2(32)
    requires 1 <= nbits <= bitsLeft <= 32 && c + bitsLeft == 32 * (j + 1)
    ensures val == Field(WordBits(words), c, nbits)
  {
    ghost var S := WordBits(words);
    WordValue(words, j, 32 * j);
    FieldInWord(S, v, 32 * j, bitsLeft, nbits, c);
    FieldValue(S, c, nbits);
    val := (v / Pow2(bitsLeft - nbits)) % Pow2(nbits);
  }

  /** A code that starts in the current word v and ends in the next word v2: the rest
      of v shifted up, masked to n bits, plus the top of v2. */
  method CodeAcrossWords(words: seq<nat>, j: nat, v: nat, v2: nat, bitsLeft: nat, nbits: nat, ghost c: nat)
    returns (val: nat)
    requires j + 1 < |words| && v == words[j] < Pow2(32) && v2 == words[j + 1] < Pow2(32)
    requires bitsLeft < nbits <= bitsLeft + 32 && bitsLeft <= 32 && c + bitsLeft == 32 * (j + 1)
    ensures val == Field(WordBits(words), c, nbits)
  {
    AcrossWordsValue(words, j, v, v2, bitsLeft, nbits, c);
    var vtmp := (v * Pow2(nbits - bitsLeft)) % Pow2(nbits);
    val := vtmp + v2 / Pow2(bitsLeft + 32 - nbits);
  }

  lemma AcrossWordsValue(words: seq<nat>, j: nat, v: nat, v2: nat, bitsLeft: nat, nbits: nat, c: nat)
    requires j + 1 < |words| && v == words[j] < Pow2(32) && v2 == words[j + 1] < Pow2(32)
    requires bitsLeft < nbits <= bitsLeft + 32 && bitsLeft <= 32 && c + bitsLeft == 32 * (j + 1)
    ensures (v * Pow2(nbits - bitsLeft)) % Pow2(nbits) + v2 / Pow2(bitsLeft + 32 - nbits) == Field(WordBits(words), c, nbits)
  {
    var S := WordBits(words);
    WordValue(words, j, 32 * j);
    WordValue(words, j + 1, 32 * j + 32);
    FieldAcrossWords(S, v, v2, 32 * j, bitsLeft, nbits, c);
    FieldValue(S, c, nbits);
  }

  /** The loop's cursor moves past a code it takes. */
  lemma UnpackTakesFirst(S: seq<bool>, n: nat, c: nat, k: nat, vs: seq<nat>, val: nat)
    requires k >= 1 && FirstCode(S, n, c) == Ok(val)
    ensures Prepend(vs, Unpack(S, n, c, k)) == Prepend(vs + [val], Unpack(S, n, c + n, k - 1))
  {
    PrependAppend(vs, val, Unpack(S, n, c + n, k - 1));
  }

  /** A code the loop fails to take ends the unpack with that failure. */
  lemma UnpackFailsFirst(S: seq<bool>, n: nat, c: nat, k: nat, vs: seq<nat>, e: Error)
    requires k >= 1 && FirstCode(S, n, c) == Err(e)
    ensures Prepend(vs, Unpack(S, n, c, k)) == Err(e)
  {
  }

  lemma PrependNothing(r: Result<seq<nat>>)
    ensures Prepend([], r) == r
  {
    if r.Ok? {
      assert [] + r.value == r.value;
    }
  }

  lemma PrependAppend(vs: seq<nat>, v: nat, r: Result<seq<nat>>)
    ensures Prepend(vs, Prepend([v], r)) == Prepend(vs + [v], r)
  {
    if r.Ok? {
      assert vs + ([v] + r.value) == (vs + [v]) + r.value;
    }
  }

  lemma HighByteStep(bs: seq<byte>, i: nat, e: nat)
    requires i < e == |bs| <= 3
    ensures LeValue(bs[..i + 1]) * Pow2(8 * (4 - e))
         == LeValue(bs[..i]) * Pow2(8 * (4 - e)) + bs[i] * Pow2(8 * (i + 4 - e))
  {
    assert bs[..i + 1] == bs[..i] + [bs[i]];
    LeValueSnoc(bs[..i], bs[i]);
    Pow2Add(8 * i, 8 * (4 - e));
    SumTimes(LeValue(bs[..i]), bs[i], Pow2(8 * i), Pow2(8 * (4 - e)));
  }

  lemma SumTimes(a: int, b: int, p: int, q: int)
    ensures (a + b * p) * q == a * q + b * (p * q)
  {
  }

  lemma {:induction false} BoundaryOf(c: nat, m: nat, bl: int)
    requires m >= 1 && c == 32 * m - bl
    requires (c == 0 && bl == 32) || (c >= 1 && 0 <= bl < 32)
    ensures Boundary(c) == 32 * m
  {
    if m > 1 {
      BoundaryOf(c - 32, m - 1, bl);
    }
  }

  lemma {:induction false} WordBitsWord(ws: seq<nat>, j: nat)
    requires j < |ws|
    ensures WordBits(ws)[32 * j..32 * j + 32] == ToBits(ws[j], 32)
  {
    if j > 0 {
      WordBitsWord(ws[1..], j - 1);
      assert WordBits(ws)[32 * j..32 * j + 32] == WordBits(ws[1..])[32 * (j - 1)..32 * (j - 1) + 32];
    }
  }

  lemma WordValue(ws: seq<nat>, j: nat, w0: nat)
    requires j < |ws| && ws[j] < Pow2(32) && w0 == 32 * j
    ensures FromBits(WordBits(ws)[w0..w0 + 32]) == ws[j]
  {
    WordBitsWord(ws, j);
    FromToBits(ws[j], 32);
    DivModUnique(ws[j], Pow2(32), 0, ws[j]);
  }

  /** If the field lies inside the current word, a shift and a mask extract it. */
  lemma FieldInWord(S: seq<bool>, x: nat, w0: nat, bl: nat, n: nat, c: nat)
    requires w0 + 32 <= |S| && FromBits(S[w0..w0 + 32]) == x
    requires 1 <= n <= bl <= 32 && c + bl == w0 + 32
    ensures (x / Pow2(bl - n)) % Pow2(n) == FromBits(S[c..c + n])
  {
    var W := S[w0..w0 + 32];
    FieldOfWord(W, x, bl, n);
    SliceOfSlice(S, w0, w0 + 32, 32 - bl, 32 - bl + n, c, c + n);
  }

  lemma FieldOfWord(W: seq<bool>, x: nat, bl: nat, n: nat)
    requires |W| == 32 && FromBits(W) == x && 1 <= n <= bl <= 32
    ensures (x / Pow2(bl - n)) % Pow2(n) == FromBits(W[32 - bl..32 - bl + n])
  {
    FromBitsField(W, 32 - bl, n, bl - n);
  }

  /** If the field runs into the next word, the rest of the current word shifted up
      plus the top of the next word make it. */
  lemma FieldAcrossWords(S: seq<bool>, x: nat, y: nat, w0: nat, bl: nat, n: nat, c: nat)
    requires w0 + 64 <= |S| && FromBits(S[w0..w0 + 32]) == x && FromBits(S[w0 + 32..w0 + 64]) == y
    requires bl < n <= bl + 32 && bl <= 32 && c + bl == w0 + 32
    ensures (x * Pow2(n - bl)) % Pow2(n) + y / Pow2(bl + 32 - n) == FromBits(S[c..c + n])
  {
    FromBitsConcat(S, c, c + bl, c + n, n - bl);
    LowOfWord(S, x, w0, bl, n, c);
    HighOfWord(S, y, w0, bl, n, c);
  }

  /** The last bl bits of the word at w0, shifted up to the top of an n-bit field. */
  lemma LowOfWord(S: seq<bool>, x: nat, w0: nat, bl: nat, n: nat, c: nat)
    requires w0 + 32 <= |S| && FromBits(S[w0..w0 + 32]) == x
    requires bl < n && bl <= 32 && c + bl == w0 + 32
    ensures (x * Pow2(n - bl)) % Pow2(n) == FromBits(S[c..c + bl]) * Pow2(n - bl)
  {
    var W := S[w0..w0 + 32];
    ShiftLeftMod(x, n - bl, n);
    FromBitsSplit(W, bl, 32 - bl);
    SliceOfSlice(S, w0, w0 + 32, 32 - bl, 32, c, c + bl);
    assert W[32 - bl..] == W[32 - bl..32];
  }

  /** The first n - bl bits of the word that starts at c + bl. */
  lemma HighOfWord(S: seq<bool>, y: nat, w0: nat, bl: nat, n: nat, c: nat)
    requires w0 + 64 <= |S| && FromBits(S[w0 + 32..w0 + 64]) == y
    requires bl < n <= bl + 32 && c + bl == w0 + 32
    ensures y / Pow2(bl + 32 - n) == FromBits(S[c + bl..c + n])
  {
    var W := S[w0 + 32..w0 + 64];
    FromBitsSplit(W, bl + 32 - n, n - bl);
    SliceOfSlice(S, w0 + 32, w0 + 64, 0, n - bl, c + bl, c + n);
    assert W[..n - bl] == W[0..n - bl];
  }
}
