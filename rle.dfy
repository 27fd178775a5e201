/** The run-length byte coder that compresses the validity mask (`decode_RLE`).
    A run is a signed little-endian 16-bit count followed by its payload: a negative
    count -n repeats the one byte that follows n times, a count n >= 0 copies the n
    bytes that follow.  A byte budget drives the loop, and the 16-bit value at the
    cursor after the loop must be the end marker -32768. */
module Rle {
  import opened Failures
  import opened Arith
  import opened Bytes

  const EndMarker: int := -0x8000

  /** n copies of the byte b. */
  function Copies(b: byte, n: nat): (r: seq<byte>)
    ensures |r| == n && forall i :: 0 <= i < n ==> r[i] == b
  {
    seq(n, _ => b)
  }

  /** The decoder from a cursor state: `offset` is the read cursor, `size` the budget
      still unspent and `acc` the bytes produced so far.  `Ok(None)` is the original's
      `None` for a missing end marker; `Err(Truncated)` a read past the blob. */
  function RleFrom(blob: seq<byte>, offset: nat, size: int, acc: seq<byte>): Result<Option<seq<byte>>>
    decreases if size > 2 then size else 0
  {
    if size > 2 then
      if offset + 2 > |blob| then Err(Truncated)
      else
        var count := I16(blob, offset);
        if count < 0 then
          if offset + 3 > |blob| then Err(Truncated)
          else RleFrom(blob, offset + 3, size - 3, acc + Copies(blob[offset + 2], -count))
        else if offset + 2 + count > |blob| then Err(Truncated)
        else RleFrom(blob, offset + 2 + count, size - 2 - count, acc + blob[offset + 2..offset + 2 + count])
    else if offset + 2 > |blob| then Err(Truncated)
    else if I16(blob, offset) != EndMarker then Ok(None)
    else Ok(Some(acc))
  }

  /** decode_RLE(blob, offset, size). */
  method DecodeRle(blob: seq<byte>, offset: nat, size: int) returns (r: Result<Option<seq<byte>>>)
    ensures r == RleFrom(blob, offset, size, [])
  {
    var result: seq<byte> := [];
    var off: nat, budget := offset, size;
    while budget > 2
      invariant RleFrom(blob, off, budget, result) == RleFrom(blob, offset, size, [])
      decreases budget
    {
      if off + 2 > |blob| {
        return Err(Truncated);
      }
      var count := I16(blob, off);
      off := off + 2;
      if count < 0 {
        if off + 1 > |blob| {
          return Err(Truncated);
        }
        result := result + Copies(blob[off], -count);
        count := 1;
      } else {
        if off + count > |blob| {
          return Err(Truncated);
        }
        result := result + blob[off..off + count];
      }
      off := off + count;
      budget := budget - (2 + count);
    }
    if off + 2 > |blob| {
      return Err(Truncated);
    }
    if I16(blob, off) != EndMarker {
      return Ok(None);
    }
    return Ok(Some(result));
  }

  /** A reference writer for the format: a run list, each run written as its count
      and payload, and the end marker. */
  datatype Run = Literal(bytes: seq<byte>) | Repeat(b: byte, n: nat)

  predicate WellFormed(run: Run)
  {
    match run
    case Literal(bytes) => |bytes| < 0x8000
    case Repeat(_, n) => 1 <= n <= 0x8000
  }

  function Expand(runs: seq<Run>): seq<byte>
  {
    if |runs| == 0 then [] else RunOutput(runs[0]) + Expand(runs[1..])
  }

  function RunBytes(run: Run): (r: seq<byte>)
  {
    match run
    case Literal(bytes) => I16Bytes(|bytes|) + bytes
    case Repeat(b, n) => I16Bytes(-(n as int)) + [b]
  }

  function EncodeRuns(runs: seq<Run>): seq<byte>
  {
    if |runs| == 0 then [] else RunBytes(runs[0]) + EncodeRuns(runs[1..])
  }

  /** The bytes of the runs followed by the end marker; the budget is their length. */
  function Encode(runs: seq<Run>): seq<byte>
  {
    EncodeRuns(runs) + I16Bytes(EndMarker)
  }

  /** Decoding a well-formed run list with its own length as the budget yields the
      expanded runs, wherever in a blob it sits. */
  lemma RleRoundTrip(blob: seq<byte>, off: nat, runs: seq<Run>, acc: seq<byte>)
    requires forall i :: 0 <= i < |runs| ==> WellFormed(runs[i])
    requires off + |Encode(runs)| <= |blob| && blob[off..off + |Encode(runs)|] == Encode(runs)
    ensures RleFrom(blob, off, |Encode(runs)|, acc) == Ok(Some(acc + Expand(runs)))
  {
    EncodedAtOf(blob, off, runs);
    DecodeEncodedAt(blob, off, runs, acc, |Encode(runs)|);
  }

  /** The runs, then the end marker, are written at off: one run at a time. */
  ghost predicate EncodedAt(blob: seq<byte>, off: nat, runs: seq<Run>)
    decreases |runs|
  {
    if |runs| == 0 then off + 2 <= |blob| && blob[off..off + 2] == I16Bytes(EndMarker)
    else
      var m := |RunBytes(runs[0])|;
      off + m <= |blob| && blob[off..off + m] == RunBytes(runs[0]) && EncodedAt(blob, off + m, runs[1..])
  }

  lemma {:induction false} EncodedAtOf(blob: seq<byte>, off: nat, runs: seq<Run>)
    requires off + |Encode(runs)| <= |blob| && blob[off..off + |Encode(runs)|] == Encode(runs)
    ensures EncodedAt(blob, off, runs)
    decreases |runs|
  {
    if |runs| == 0 {
      EndEncodedAt(blob, off, runs);
    } else {
      FirstRunAt(blob, off, runs);
      EncodedAtOf(blob, off + |RunBytes(runs[0])|, runs[1..]);
    }
  }

  lemma EndEncodedAt(blob: seq<byte>, off: nat, runs: seq<Run>)
    requires |runs| == 0
    requires off + |Encode(runs)| <= |blob| && blob[off..off + |Encode(runs)|] == Encode(runs)
    ensures EncodedAt(blob, off, runs)
  {
    assert Encode(runs) == I16Bytes(EndMarker);
  }

  /** The encoding of a non-empty run list at off holds its first run, and the
      encoding of the others right after. */
  lemma FirstRunAt(blob: seq<byte>, off: nat, runs: seq<Run>)
    requires |runs| >= 1
    requires off + |Encode(runs)| <= |blob| && blob[off..off + |Encode(runs)|] == Encode(runs)
    ensures blob[off..off + |RunBytes(runs[0])|] == RunBytes(runs[0])
    ensures off + |RunBytes(runs[0])| + |Encode(runs[1..])| <= |blob|
    ensures blob[off + |RunBytes(runs[0])|..off + |RunBytes(runs[0])| + |Encode(runs[1..])|] == Encode(runs[1..])
  {
    EncodeFirst(runs);
    SplitAt(blob, off, RunBytes(runs[0]), Encode(runs[1..]));
  }

  lemma {:induction false} DecodeEncodedAt(blob: seq<byte>, off: nat, runs: seq<Run>, acc: seq<byte>, size: nat)
    requires forall i :: 0 <= i < |runs| ==> WellFormed(runs[i])
    requires EncodedAt(blob, off, runs) && size == |Encode(runs)|
    ensures RleFrom(blob, off, size, acc) == Ok(Some(acc + Expand(runs)))
    decreases |runs|
  {
    if |runs| == 0 {
      assert Encode(runs) == I16Bytes(EndMarker);
      EndMarkerAt(blob, off, 2, acc);
      assert acc + Expand(runs) == acc;
    } else {
      var run := runs[0];
      assert size - |RunBytes(run)| == |Encode(runs[1..])| by {
        EncodeFirst(runs);
      }
      DecodeEncodedAt(blob, off + |RunBytes(run)|, runs[1..], acc + RunOutput(run), size - |RunBytes(run)|);
      RleStep(blob, off, size, acc, run);
      ExpandFirst(runs, acc);
    }
  }

  /** With the budget spent, the end marker ends the decoding. */
  lemma EndMarkerAt(blob: seq<byte>, off: nat, budget: int, acc: seq<byte>)
    requires budget <= 2 && off + 2 <= |blob| && blob[off..off + 2] == I16Bytes(EndMarker)
    ensures RleFrom(blob, off, budget, acc) == Ok(Some(acc))
  {
    I16RoundTrip(EndMarker, blob, off);
  }

  lemma EncodeFirst(runs: seq<Run>)
    requires |runs| >= 1
    ensures Encode(runs) == RunBytes(runs[0]) + Encode(runs[1..])
    ensures |RunBytes(runs[0])| >= 2 && |Encode(runs[1..])| >= 2
  {
  }

  lemma ExpandFirst(runs: seq<Run>, acc: seq<byte>)
    requires |runs| >= 1
    ensures acc + RunOutput(runs[0]) + Expand(runs[1..]) == acc + Expand(runs)
  {
  }

  /** The blob holds a followed by b at off. */
  lemma SplitAt(blob: seq<byte>, off: nat, a: seq<byte>, b: seq<byte>)
    requires off + |a + b| <= |blob| && blob[off..off + |a + b|] == a + b
    ensures blob[off..off + |a|] == a
    ensures blob[off + |a|..off + |a| + |b|] == b
  {
    SubSlice(blob, off, a + b, 0, |a|);
    SubSlice(blob, off, a + b, |a|, |a| + |b|);
    assert (a + b)[..|a|] == a;
    assert (a + b)[|a|..|a| + |b|] == b;
  }

  function RunOutput(run: Run): seq<byte>
  {
    match run
    case Literal(bytes) => bytes
    case Repeat(b, n) => Copies(b, n)
  }

  /** One iteration of the decoder loop consumes one written run. */
  lemma RleStep(blob: seq<byte>, off: nat, size: int, acc: seq<byte>, run: Run)
    requires WellFormed(run) && size > 2
    requires off + |RunBytes(run)| <= |blob| && blob[off..off + |RunBytes(run)|] == RunBytes(run)
    ensures RleFrom(blob, off, size, acc)
         == RleFrom(blob, off + |RunBytes(run)|, size - |RunBytes(run)|, acc + RunOutput(run))
  {
    match run
    case Literal(bytes) => LiteralStep(blob, off, size, acc, bytes);
    case Repeat(b, k) => RepeatStep(blob, off, size, acc, b, k);
  }

  lemma LiteralStep(blob: seq<byte>, off: nat, size: int, acc: seq<byte>, bytes: seq<byte>)
    requires |bytes| < 0x8000 && size > 2
    requires off + 2 + |bytes| <= |blob| && blob[off..off + 2 + |bytes|] == I16Bytes(|bytes|) + bytes
    ensures RleFrom(blob, off, size, acc)
         == RleFrom(blob, off + 2 + |bytes|, size - 2 - |bytes|, acc + bytes)
  {
    SplitAt(blob, off, I16Bytes(|bytes|), bytes);
    I16RoundTrip(|bytes|, blob, off);
  }

  lemma RepeatStep(blob: seq<byte>, off: nat, size: int, acc: seq<byte>, b: byte, k: nat)
    requires 1 <= k <= 0x8000 && size > 2
    requires off + 3 <= |blob| && blob[off..off + 3] == I16Bytes(-(k as int)) + [b]
    ensures RleFrom(blob, off, size, acc) == RleFrom(blob, off + 3, size - 3, acc + Copies(b, k))
  {
    SplitAt(blob, off, I16Bytes(-(k as int)), [b]);
    I16RoundTrip(-(k as int), blob, off);
    assert blob[off + 2] == blob[off + 2..off + 3][0];
  }

  lemma SubSlice(blob: seq<byte>, off: nat, e: seq<byte>, i: nat, j: nat)
    requires off + |e| <= |blob| && blob[off..off + |e|] == e
    requires i <= j <= |e|
    ensures blob[off + i..off + j] == e[i..j]
  {
    forall k | 0 <= k < j - i
      ensures blob[off + i..off + j][k] == e[i..j][k]
    {
      assert blob[off + i + k] == blob[off..off + |e|][i + k];
    }
  }

  /** Length of the leading run of copies of d[0] from position i, at most 32768. */
  function LeadingRun(d: seq<byte>, i: nat): (r: nat)
    requires 1 <= i <= |d| && i <= 0x8000
    ensures i <= r <= |d| && r <= 0x8000
    decreases |d| - i
  {
    if i < |d| && i < 0x8000 && d[i] == d[0] then LeadingRun(d, i + 1) else i
  }

  lemma {:induction false} LeadingRunSame(d: seq<byte>, i: nat)
    requires 1 <= i <= |d| && i <= 0x8000
    requires forall j :: 0 <= j < i ==> d[j] == d[0]
    ensures forall j :: 0 <= j < LeadingRun(d, i) ==> d[j] == d[0]
    decreases |d| - i
  {
    if i < |d| && i < 0x8000 && d[i] == d[0] {
      LeadingRunSame(d, i + 1);
    }
  }

  /** A reference encoder: repeats for three or more equal bytes, literals otherwise. */
  function RunsOf(d: seq<byte>): (runs: seq<Run>)
    decreases |d|
  {
    if |d| == 0 then []
    else
      var k := LeadingRun(d, 1);
      if k >= 3 then [Repeat(d[0], k)] + RunsOf(d[k..])
      else [Literal(d[..k])] + RunsOf(d[k..])
  }

  lemma {:induction false} RunsOfWellFormed(d: seq<byte>)
    ensures forall i :: 0 <= i < |RunsOf(d)| ==> WellFormed(RunsOf(d)[i])
    decreases |d|
  {
    if |d| > 0 {
      var k := LeadingRun(d, 1);
      RunsOfWellFormed(d[k..]);
      var head := if k >= 3 then Repeat(d[0], k) else Literal(d[..k]);
      assert RunsOf(d) == [head] + RunsOf(d[k..]);
    }
  }

  lemma {:induction false} RunsOfExpand(d: seq<byte>)
    ensures Expand(RunsOf(d)) == d
    decreases |d|
  {
    if |d| > 0 {
      var k := LeadingRun(d, 1);
      var head := if k >= 3 then Repeat(d[0], k) else Literal(d[..k]);
      assert RunOutput(head) == d[..k] by {
        if k >= 3 {
          LeadingRunSame(d, 1);
          CopiesPrefix(d, k);
        }
      }
      RunsOfExpand(d[k..]);
      assert Expand(RunsOf(d)) == RunOutput(head) + Expand(RunsOf(d[k..])) by {
        assert RunsOf(d) == [head] + RunsOf(d[k..]);
        ExpandCons(head, RunsOf(d[k..]));
      }
      SplitJoin(d, k);
    }
  }

  lemma SplitJoin(d: seq<byte>, k: nat)
    requires k <= |d|
    ensures d[..k] + d[k..] == d
  {
  }

  lemma ExpandCons(run: Run, rest: seq<Run>)
    ensures Expand([run] + rest) == RunOutput(run) + Expand(rest)
  {
    assert ([run] + rest)[1..] == rest;
  }

  lemma CopiesPrefix(d: seq<byte>, k: nat)
    requires 1 <= k <= |d| && forall j :: 0 <= j < k ==> d[j] == d[0]
    ensures Copies(d[0], k) == d[..k]
  {
  }

  /** Any byte string, the empty one included, survives writing and decoding. */
  lemma BytesRoundTrip(d: seq<byte>)
    ensures RleFrom(Encode(RunsOf(d)), 0, |Encode(RunsOf(d))|, []) == Ok(Some(d))
  {
    var e := Encode(RunsOf(d));
    assert e[0..|e|] == e;
    RunsOfWellFormed(d);
    RleRoundTrip(e, 0, RunsOf(d), []);
    RunsOfExpand(d);
    assert [] + d == d;
  }
}
