# Lerc1 decoder model

A Dafny model of the pure-Python decoder for Esri's LERC version 1 raster blobs
("CntZImage" containers), with proofs about it. The modelled file is
`OtherLanguages/Python/PurePython_Lerc1Only/Lerc1Decode.py`.

A session (`lerc`) reads a fixed-offset header and decides whether the first block
descriptor describes a validity mask. On `decode` it then:

- builds the mask (`bitmask`) from run-length data (`decode_RLE`), or fills it with
  ones or zeros;
- walks the grid of value blocks (`read_tiles`). Each block (`read_block`) is stored
  raw, set to a constant, or quantized from bit-packed integer codes (`read_qval`),
  and hands the stream offset on to the next block.

The modules follow the file's structure:

| module | file | models |
|---|---|---|
| `Failures` | failures.dfy | `Option`, `Result` and one error kind per exception the decoder can raise |
| `Arith`, `Bits`, `Bytes` | arith.dfy, bits.dfy, bytes.dfy | powers of two, MSB-first bit strings, and the little-endian `struct` readers |
| `Floats` | floats.dfy | the exact real value of binary32 and binary64 bit patterns |
| `Grid` | grid.dfy | `dloop`, `range(lo, hi)`, `range(lo, hi, step)` and the tile origins of `read_tiles` |
| `Rle` | rle.dfy | `decode_RLE` (a loop over a growing byte sequence) and a reference writer |
| `QVal`, `QValProps` | qval.dfy, qval_props.dfy | `read_qval`: header, packed words and the unpack loop over an array, and their properties |
| `Mask` | mask.dfy | `bitmask.__init__` and `bitmask.at` |
| `Block`, `BlockProps` | block.dfy, block_props.dfy | `read_block` writing into a shared `array<real>`, and what each mode does |
| `Codec`, `CodecProps` | lerc.dfy, codec_props.dfy | the `lerc` class (header fields, lazily cached mask, `decode_mask`, `read_tiles`, `decode`) and its properties |

Each loop is a method proved against a specification function on values. Every
method's `ensures` ties its result, and the array it writes, to that function. The
properties the source promises are then proved about the functions.

Semantics follow Python 2, which the file is written for:

- `/` on integers is floor division (line 153);
- `array('I')` holds 32-bit unsigned values, so a larger code is an `OverflowError`;
- `min(a, b)` keeps `a` on a tie.

Where the code and its comments disagree, the model follows the code:

- **The block grid.** The comment at line 176 says the block counts ignore partial
  blocks. In fact `read_tiles` walks `range(0, w, w // nbX)`, so with a remainder it
  visits more than `nbX` block columns, each clamped to the image. The model walks
  exactly those blocks.
- **Bit widths above 32.** A width above 32 does not always fail. The unpack loop
  decodes a field correctly as long as it lies within the current word and the next
  one. Otherwise it fails with a negative shift, and a code of 2^32 or more fails when
  it is stored into `array('I')`. `Unpack` models these cases exactly.

## Model

Source paths are relative to the repository root.

| member | source | states |
|---|---|---|
| Grid.DloopAt | OtherLanguages/Python/PurePython_Lerc1Only/Lerc1Decode.py:39-43 | the double loop yields \|xs\|·\|ys\| pairs, y outer and x inner: pair j·\|xs\| + i is (xs[i], ys[j]) |
| Grid.DloopMember | OtherLanguages/Python/PurePython_Lerc1Only/Lerc1Decode.py:39-43 | (x, y) is yielded exactly when x is in xs and y is in ys |
| Grid.RangeStepMember | OtherLanguages/Python/PurePython_Lerc1Only/Lerc1Decode.py:215 | t is an origin of range(lo, hi, step) exactly when lo ≤ t < hi and t − lo is a multiple of step |
| Grid.RangeStepIncreasing | OtherLanguages/Python/PurePython_Lerc1Only/Lerc1Decode.py:215 | the origins strictly increase, so no block origin is visited twice |
| Grid.TileCover | OtherLanguages/Python/PurePython_Lerc1Only/Lerc1Decode.py:211-218 | pixel (x, y) of the image lies in the block at origin (tx, ty) exactly when tx and ty are x and y rounded down to multiples of bw and bh: the clamped blocks cover every pixel exactly once |
| Grid.BlockInside | OtherLanguages/Python/PurePython_Lerc1Only/Lerc1Decode.py:215-218 | every pixel of every visited block lies inside the w × h image |
| Bytes.LeRoundTrip | OtherLanguages/Python/PurePython_Lerc1Only/Lerc1Decode.py:75 | reading k little-endian bytes gives back any x < 2^(8k) written as k bytes |
| Bytes.I16RoundTrip | OtherLanguages/Python/PurePython_Lerc1Only/Lerc1Decode.py:50 | the "<h" reader gives back every value in −32768..32767 written in two's complement |
| Rle.DecodeRle | OtherLanguages/Python/PurePython_Lerc1Only/Lerc1Decode.py:46-62 | the loop's result is `RleFrom`, which reads a run per int16 count while the budget is above 2. A negative count appends the next byte −count times and consumes 3 bytes. A non-negative count appends that many bytes and consumes 2 + count. The result is None unless the int16 at the final cursor is −32768, and a read past the blob is a failure |
| Rle.RleStep | OtherLanguages/Python/PurePython_Lerc1Only/Lerc1Decode.py:49-59 | one pass of the loop consumes exactly one written run (3 bytes for a repeat, 2 + c for c literal bytes), appends its bytes and lowers the budget by the same amount |
| Rle.EndMarkerAt | OtherLanguages/Python/PurePython_Lerc1Only/Lerc1Decode.py:60-62 | with a budget of at most 2 (the negative budgets an overlong literal run leaves included) and −32768 at the cursor, the bytes decoded so far are the result |
| Rle.RleRoundTrip | OtherLanguages/Python/PurePython_Lerc1Only/Lerc1Decode.py:46-62 | decoding a well-formed run list written by the reference writer, with its own length as the budget and anywhere in a blob, yields the expanded runs |
| Rle.BytesRoundTrip | OtherLanguages/Python/PurePython_Lerc1Only/Lerc1Decode.py:46-62 | every byte string, the empty one included, survives the reference encoder followed by decode_RLE |
| QVal.ReadQVal | OtherLanguages/Python/PurePython_Lerc1Only/Lerc1Decode.py:64-110 | the method's result is `ReadQValSpec`: bit width 0 gives no codes and offset + 1; selector 3 fails; otherwise the count, the ceil(count·n/8) packed bytes and the unpacked codes, with a read past the blob a failure |
| QVal.ReadPacked | OtherLanguages/Python/PurePython_Lerc1Only/Lerc1Decode.py:79-93 | the packed bytes become nbytes // 4 little-endian words plus the partial word with its stored bytes shifted into its high end; a blob too short for them is a failure |
| QVal.UnpackCodes | OtherLanguages/Python/PurePython_Lerc1Only/Lerc1Decode.py:96-109 | the array the loop fills is `Unpack` of the words' MSB-first bit stream, including its failures (no next word, a negative shift, a code of 2^32 or more) |
| QVal.NextCode | OtherLanguages/Python/PurePython_Lerc1Only/Lerc1Decode.py:102-109 | one pass of the loop yields the code at bit c of the stream, or the failure the loop meets there, and leaves the cursor after it |
| QValProps.QValLayout | OtherLanguages/Python/PurePython_Lerc1Only/Lerc1Decode.py:68-89 | a successful read with bit width 0 gives no codes and offset + 1; otherwise exactly `count` codes and offset + 1 + (4,2,1)[bc] + ceil(count·n/8) |
| QValProps.CodesRead | OtherLanguages/Python/PurePython_Lerc1Only/Lerc1Decode.py:86-109 | for widths 1..32 and count ≥ 1 with all bytes present, the read succeeds; every code is below 2^n; packed again MSB-first the codes give back the first count·n bits of the words |
| QValProps.UnpackFields | OtherLanguages/Python/PurePython_Lerc1Only/Lerc1Decode.py:101-109 | for widths 1..32, code i is bits [c + i·n, c + (i+1)·n) of the stream, read most significant first |
| QValProps.PackRoundTrip | OtherLanguages/Python/PurePython_Lerc1Only/Lerc1Decode.py:96-109 | the unpack is the inverse of an MSB-first packer, wherever in a word-aligned stream the packed bits start |
| QValProps.CodeBitsLength | OtherLanguages/Python/PurePython_Lerc1Only/Lerc1Decode.py:79-93 | the bit stream of the words read is a whole number of 32-bit words and holds at least the count·n bits of the codes |
| QValProps.HighWordLayout | OtherLanguages/Python/PurePython_Lerc1Only/Lerc1Decode.py:86-93 | the stored bytes of a partial last word fill its high end and its low bytes are zero |
| QValProps.QValErrors | OtherLanguages/Python/PurePython_Lerc1Only/Lerc1Decode.py:64-110 | read_qval fails only for a short blob, selector 3, an exhausted word iterator, a negative shift or a code of 2^32 or more |
| Bytes.ByteLength | OtherLanguages/Python/PurePython_Lerc1Only/Lerc1Decode.py:153 | (bits + 7) / 8 bytes hold the bits with fewer than 8 to spare; the mask size (w·h bits, line 153) and the packed code bytes (count·n bits, line 79) are both this |
| Mask.AtBit | OtherLanguages/Python/PurePython_Lerc1Only/Lerc1Decode.py:157-160 | at(x, y) is bit y·w + x of the mask's bytes read most significant bit first, and fails exactly when that bit is past the stored bytes |
| Mask.PixelIndex | OtherLanguages/Python/PurePython_Lerc1Only/Lerc1Decode.py:159 | a pixel of an image of w columns and `rows` rows has its bit among the first w·rows |
| Mask.AtInside | OtherLanguages/Python/PurePython_Lerc1Only/Lerc1Decode.py:151-160 | a mask with at least (w·h + 7) / 8 bytes answers at every pixel of the image |
| Mask.FilledAt | OtherLanguages/Python/PurePython_Lerc1Only/Lerc1Decode.py:152-160 | a mask built with fill 255 answers true at every pixel |
| Mask.EmptyAt | OtherLanguages/Python/PurePython_Lerc1Only/Lerc1Decode.py:152-160 | a mask built with fill 0 answers false at every pixel |
| Floats.Float32Zero | OtherLanguages/Python/PurePython_Lerc1Only/Lerc1Decode.py:177 | a "<f" field is a finite 0.0 exactly when its low 31 bits are zero (+0.0 and −0.0) |
| Floats.Float32One | OtherLanguages/Python/PurePython_Lerc1Only/Lerc1Decode.py:177 | a "<f" field is a finite 1.0 exactly when its bits are 0x3F800000 |
| Floats.Float32Negate | OtherLanguages/Python/PurePython_Lerc1Only/Lerc1Decode.py:125 | setting the sign bit of a "<f" field negates its value and keeps its finiteness |
| Floats.Float64Negate | OtherLanguages/Python/PurePython_Lerc1Only/Lerc1Decode.py:170 | setting the sign bit of a "<d" field negates its value |
| Block.Clamp | OtherLanguages/Python/PurePython_Lerc1Only/Lerc1Decode.py:147 | min(v, max_val) is at most max_val and is one of the two |
| Block.FloatsAt | OtherLanguages/Python/PurePython_Lerc1Only/Lerc1Decode.py:123-126 | the k-th raw sample exists exactly when 4 bytes remain for it at p + 4k, and is the float32 there |
| Block.QuantizedAt | OtherLanguages/Python/PurePython_Lerc1Only/Lerc1Decode.py:145-147 | the k-th quantized sample is min(mval + Q·code_k, max_val) |
| Block.ReadBlock | OtherLanguages/Python/PurePython_Lerc1Only/Lerc1Decode.py:113-148 | the returned offset and the array after the call are `BlockSpec` of the array before it. Flags read past the blob or a mode ≥ 4 fail. The other modes follow the lemmas below |
| Block.StoreCells | OtherLanguages/Python/PurePython_Lerc1Only/Lerc1Decode.py:123-127 | the mode-0 loop writes the next float32 at each mask-set pixel, in dloop order |
| Block.FillCells | OtherLanguages/Python/PurePython_Lerc1Only/Lerc1Decode.py:137-140 | the constant loop writes mval at every pixel of the block |
| Block.QuantizeCells | OtherLanguages/Python/PurePython_Lerc1Only/Lerc1Decode.py:144-148 | the quantized loop writes the next quantized code at each mask-set pixel, failing when the codes run out |
| BlockProps.MaskedCount | OtherLanguages/Python/PurePython_Lerc1Only/Lerc1Decode.py:145-147 | the masked loop takes one value per mask-set pixel and succeeds only when there are enough |
| BlockProps.MaskedUnchanged | OtherLanguages/Python/PurePython_Lerc1Only/Lerc1Decode.py:145-147 | the masked loop leaves every sample outside its mask-set pixels as it was |
| BlockProps.MaskedBound | OtherLanguages/Python/PurePython_Lerc1Only/Lerc1Decode.py:147 | when every value is at most a bound, so is every sample the masked loop writes |
| BlockProps.ConstantWrites | OtherLanguages/Python/PurePython_Lerc1Only/Lerc1Decode.py:138-139 | the constant loop succeeds exactly when every pixel's sample is inside the array, and then sets exactly the block's samples to the value |
| BlockProps.StoredBlock | OtherLanguages/Python/PurePython_Lerc1Only/Lerc1Decode.py:121-127 | mode 0 reads no minimum, consumes exactly 4 bytes per mask-set pixel of the block and changes no other sample |
| BlockProps.ConstantBlock | OtherLanguages/Python/PurePython_Lerc1Only/Lerc1Decode.py:129-140 | modes 2 and 3 set every pixel of the block to the minimum (0.0 in mode 2) whatever the mask, consuming only the flags byte and the optional (4,2,1)[mf]-byte minimum |
| BlockProps.QuantizedBlock | OtherLanguages/Python/PurePython_Lerc1Only/Lerc1Decode.py:142-148 | mode 1 needs a code per mask-set pixel, ignores surplus codes, ends where the code array ends, writes only mask-set pixels and keeps each at most max_val |
| BlockProps.MaskedValues | OtherLanguages/Python/PurePython_Lerc1Only/Lerc1Decode.py:123-126 | when no two pixels share a sample, the masked loop gives the j-th mask-set pixel, in dloop order, the value vals[k + j] |
| BlockProps.BlockDistinct | OtherLanguages/Python/PurePython_Lerc1Only/Lerc1Decode.py:216-217 | the pixels of a block whose columns lie within the mask's width have pairwise distinct samples y·w + x |
| BlockProps.StoredValues | OtherLanguages/Python/PurePython_Lerc1Only/Lerc1Decode.py:121-127 | in mode 0 the j-th mask-set pixel of the block holds the float32 stored at offset + 1 + 4j |
| BlockProps.QuantizedValues | OtherLanguages/Python/PurePython_Lerc1Only/Lerc1Decode.py:142-148 | in mode 1 the j-th mask-set pixel of the block holds min(mval + Q·code_j, max_val), code_j being the j-th code read |
| BlockProps.NoCodesBlock | OtherLanguages/Python/PurePython_Lerc1Only/Lerc1Decode.py:143-144 | a quantized block whose code array has bit width 0 fails, even when no pixel is set |
| Codec.TilesSpec | OtherLanguages/Python/PurePython_Lerc1Only/Lerc1Decode.py:214 | a successful block walk returns exactly w·h samples |
| Codec.ReadBlocks | OtherLanguages/Python/PurePython_Lerc1Only/Lerc1Decode.py:215-220 | the block loop reads each block at the offset the previous one returned, and its result and array are `BlocksFrom` of the array before it |
| Codec.Lerc.constructor | OtherLanguages/Python/PurePython_Lerc1Only/Lerc1Decode.py:164-197 | the fields hold `ParseHeader(blob)`: valid exactly when the header parses, with no mask cached |
| CodecProps.HeaderValid | OtherLanguages/Python/PurePython_Lerc1Only/Lerc1Decode.py:164-197 | a session is valid exactly when the blob has the magic bytes, at least 50 bytes, version 11 and type 8, and, when it has 66 + nB bytes, a first descriptor that passes the mask test. The mask descriptor is then present and the value descriptor is read at 50 + nB; otherwise the first descriptor is the value descriptor |
| CodecProps.MaskDescriptorBits | OtherLanguages/Python/PurePython_Lerc1Only/Lerc1Decode.py:181 | the mask test accepts exactly nbX = nbY = 0 with a maximum value of +0.0, −0.0 or 1.0 |
| CodecProps.BitOrZero | OtherLanguages/Python/PurePython_Lerc1Only/Lerc1Decode.py:181 | nbX \| nbY is zero exactly when both are |
| Codec.Lerc.DecodeMask | OtherLanguages/Python/PurePython_Lerc1Only/Lerc1Decode.py:199-205 | the result is `MaskSpec` of the session's size and mask descriptor: no descriptor fails; nB = 0 fills the mask with int(maxVal·255); otherwise a decode_RLE failure is passed on, its bytes become the mask, and its None for a missing end marker reaches `bitmask` as "no data", which fills the mask with 255 |
| CodecProps.MaskFill | OtherLanguages/Python/PurePython_Lerc1Only/Lerc1Decode.py:202-203 | without run-length data the mask is all set for a maximum value of 1.0 and all clear for 0.0 |
| CodecProps.MaskFromRuns | OtherLanguages/Python/PurePython_Lerc1Only/Lerc1Decode.py:204-205 | with run-length data the mask holds exactly the decoded bytes |
| CodecProps.MissingEndMarker | OtherLanguages/Python/PurePython_Lerc1Only/Lerc1Decode.py:152-155 | as written, run-length data without its end marker yields the mask filled with 255, which reads set at every pixel |
| CodecProps.CorrectedMask | OtherLanguages/Python/PurePython_Lerc1Only/Lerc1Decode.py:60-61 | a mask decode that rejects a missing end marker differs from the one as written exactly on run-length data without the marker, where it fails; when it succeeds the mask holds decode_RLE's bytes |
| CodecProps.CorrectedDecode | OtherLanguages/Python/PurePython_Lerc1Only/Lerc1Decode.py:223-229 | with the end marker missing, the corrected decode fails while the decode as written goes on with the all-set mask; otherwise the two decodes agree |
| CodecProps.MarkerlessDecode | OtherLanguages/Python/PurePython_Lerc1Only/Lerc1Decode.py:60-61 | a 69-byte blob for a 1 × 1 image with two mask bytes 0, 0 and one constant block decodes, as written, to the single sample 0.0, where the corrected decoder fails |
| Codec.Lerc.ReadTiles | OtherLanguages/Python/PurePython_Lerc1Only/Lerc1Decode.py:209-221 | the result is `TilesSpec`. Zero block counts fail (division by zero), as do zero block sizes (zero range step). Otherwise the blocks are walked from a zero-filled w·h grid starting at offset 66 + nB |
| CodecProps.TooManyColumns | OtherLanguages/Python/PurePython_Lerc1Only/Lerc1Decode.py:212-215 | more block columns than pixel columns give a block width of 0, which fails |
| CodecProps.TilesInside | OtherLanguages/Python/PurePython_Lerc1Only/Lerc1Decode.py:209-221 | with a mask of the image's width, the walk never writes outside the w·h samples |
| CodecProps.BlockInBounds | OtherLanguages/Python/PurePython_Lerc1Only/Lerc1Decode.py:113-148 | a block whose pixels' samples are inside the array never fails with an out-of-range write |
| Codec.Lerc.Decode | OtherLanguages/Python/PurePython_Lerc1Only/Lerc1Decode.py:223-229 | an invalid session gives the three-None result. Otherwise the mask is decoded as `decode_mask` does, the all-set mask of run-length data without an end marker included, cached on first use, and the samples are read. The header fields never change, and a failed mask decode leaves nothing cached |
| CodecProps.CachedMask | OtherLanguages/Python/PurePython_Lerc1Only/Lerc1Decode.py:227-229 | decoding with the cached mask gives what decoding the mask again would |
| CodecProps.NoMaskFails | OtherLanguages/Python/PurePython_Lerc1Only/Lerc1Decode.py:202-213 | a valid session without a mask descriptor cannot decode |

## Left out

- `main()` is not part of this model. It reads a file and checks a sample blob that
  is not available here.
- `__str__` is not part of this model: it only formats text.
- Floating point: samples are exact reals, with no rounding to float32. This affects
  the result array (`array('f')`), `self.u *= 2` and `mval + Q * code`.
- Floats.Float32Value: NaN and infinity bit patterns read as 0.0. `IsFinite32`
  excludes them separately where the source compares values (the mask test at
  line 181). The `min(..., max_val)` at line 147 is not guarded that way. There a
  non-finite `v_maxVal` reads as 0.0, and the model clamps every quantized sample
  to at most 0.0. The source keeps the sample for +Inf and for NaN, and gives −Inf
  for −Inf.
- Floats.Float64Value: NaN and infinity bit patterns read as 0.0 here too, so a
  non-finite maxZError (the "<d" field at line 169) makes Q = `self.u` 0.0, and
  every mode-1 sample becomes min(mval, max_val). At line 147 the source instead
  gets NaN (Q NaN, or Q = ±Inf with code 0), or max_val (Q = +Inf with a positive
  code), or −Inf (Q = −Inf with a positive code).
- Exceptions: each one is a `Result` failure with its own error kind. Python's
  control flow is not modelled.
- `ParseHeader`: every failure inside `__init__` collapses to an invalid session,
  as the `except` at line 194 does. The partial field values a failed
  `__init__` leaves behind are not modelled.
- Lazy caching: the `dir(self)` test is an optional `mask` field.
- Codec.Lerc.ReadTiles: requires a mask descriptor and a cached mask. In the source
  these are attribute lookups, which fail when missing. `Decode`, the only caller,
  models those failures itself.
- Codec.FillByte: the fill byte int(maxVal · 255) is modelled only for the values
  0.0 and 1.0, the only ones the header admits.
- The encoder is not part of this model. The run-length and bit-packing round trips
  use reference writers (`Rle.Encode`, `Rle.RunsOf`, `QValProps.PackBits`) that are
  defined in the model.

## Findings

| source | as written | input that shows it | evidently intended | confidence | as-written member | corrected member |
|---|---|---|---|---|---|---|
| OtherLanguages/Python/PurePython_Lerc1Only/Lerc1Decode.py:60-61 | `decode_RLE` returns None when the end marker is missing. `decode_mask` passes that None to `bitmask` as `data`, and `bitmask` takes None as "no data" and fills the mask with 255, so corrupt mask data yields a mask with every pixel set | a 1 × 1 image whose 2 bytes of mask data (nB = 2) at offset 50 are 0, 0 instead of the −32768 marker | a missing end marker makes the mask decode fail | not executed | CodecProps.MarkerlessDecode | CodecProps.CorrectedDecode |

The decoder itself (`Codec.Lerc.DecodeMask`, `Codec.Lerc.Decode`) follows the code
as written. The corrected decoder is `CodecProps.CorrectedDecodeSpec`, and
`CodecProps.CorrectedMask` and `CodecProps.CorrectedDecode` relate the two.
