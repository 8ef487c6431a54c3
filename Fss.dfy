/**
 * Shared definitions of the function-secret-sharing layer: the evaluation
 * strategies and output modes of a DPF, the conversion of a 128-bit seed to a
 * ring element, and the splitting of a 128-bit block into 4, 8 or 128 lanes.
 *
 * A block is its sixteen bytes in memory order; its two 64-bit words are the
 * little-endian values of bytes 0..8 and 8..16.
 */
module Fss {
  import opened Bits
  import opened Bytes
  import opened Wrappers

  /** DPF full-domain evaluation strategies. */
  datatype EvalType = Naive | Recursion | IterSingleBatch | IterDepthFirst

  /** DPF output encodings. */
  datatype OutputType = ShiftedAdditive | SingleBitMask

  /** The two exceptions the block helpers throw. */
  datatype FssError = OutOfRange | InvalidArgument

  /** The low 64-bit word of a block. */
  function Low64(b: Block): (r: u64)
    ensures r == DecodeLE(b[..8])
  {
    Pow2Constants();
    DecodeLE(b[..8])
  }

  /** The high 64-bit word of a block. */
  function High64(b: Block): (r: u64)
    ensures r == DecodeLE(b[8..])
  {
    Pow2Constants();
    DecodeLE(b[8..])
  }

  /**
   * Convert as written: the mask `(1U << bitsize) - 1U` is built in 32 bits.
   * A shift of a 32-bit value by 32 or more is undefined in C++; x86-64 takes
   * the count modulo 32, which is what this member does.
   */
  function ConvertAsWritten(b: Block, bitsize: nat): (r: u64)
    ensures bitsize < 32 ==> r == Low64(b) % Pow2(bitsize)
    ensures r == Low64(b) % Pow2(bitsize % 32)
  {
    var s, low := bitsize % 32, Low64(b);
    assert bitsize < 32 ==> s == bitsize;
    AndLowMask(low, s);
    AndBound(low, Pow2(s) - 1);
    And(low, Pow2(s) - 1)
  }

  /** Convert with a 64-bit mask: the lower `bitsize` bits of the low word. */
  function Convert(b: Block, bitsize: nat): (r: u64)
    requires bitsize < 64
    ensures r == Low64(b) % Pow2(bitsize)
  {
    Mod2N(Low64(b), bitsize)
  }

  /** The two conversions agree below 32 bits. */
  lemma ConvertAgreesBelow32(b: Block, bitsize: nat)
    requires bitsize < 32
    ensures ConvertAsWritten(b, bitsize) == Convert(b, bitsize)
  {
  }

  /** A block whose low word is 1 converts to 0 at 32 bits as written, but should give 1. */
  lemma ConvertAsWrittenLosesBit32()
    ensures var b: Block := [1] + seq(15, _ => 0);
            ConvertAsWritten(b, 32) == 0 && Convert(b, 32) == 1
  {
    var b: Block := [1] + seq(15, _ => 0);
    assert b[..8][1..] == b[1..8];
    ZeroBytes(b[1..8]);
    assert Low64(b) == 1;
    Pow2Constants();
  }

  lemma {:induction false} ZeroBytes(z: seq<byte>)
    requires forall i :: 0 <= i < |z| ==> z[i] == 0
    ensures DecodeLE(z) == 0
  {
    if |z| > 0 {
      ZeroBytes(z[1..]);
    }
  }

  predicate SupportedChunkExp(chunkExp: nat)
  {
    chunkExp == 2 || chunkExp == 3 || chunkExp == 7
  }

  /**
   * Bit `idx` of the block read the ShiftedAdditive way: a shift of the low
   * 64-bit word, or of the high word for the upper half.
   */
  function WordBit(blk: Block, idx: nat): (r: u64)
    requires idx < 128
    ensures r == BitOf(blk[idx / 8], idx % 8)
  {
    if idx < 64 then
      AndLowMask(Shr(Low64(blk), idx), 1);
      DecodeLEBit(blk[..8], idx);
      AndBound(Shr(Low64(blk), idx), 1);
      And(Shr(Low64(blk), idx), 1)
    else
      AndLowMask(Shr(High64(blk), idx - 64), 1);
      DecodeLEBit(blk[8..], idx - 64);
      assert (idx - 64) / 8 == idx / 8 - 8 && (idx - 64) % 8 == idx % 8;
      AndBound(Shr(High64(blk), idx - 64), 1);
      And(Shr(High64(blk), idx - 64), 1)
  }

  /** Bit `idx / 16` of byte `idx % 16`, the SingleBitMask layout. */
  function MaskBit(blk: Block, idx: nat): (r: u64)
    requires idx < 128
    ensures r == BitOf(blk[idx % 16], idx / 16)
  {
    AndLowMask(Shr(blk[idx % 16], idx / 16), 1);
    AndBound(Shr(blk[idx % 16], idx / 16), 1);
    And(Shr(blk[idx % 16], idx / 16), 1)
  }

  /**
   * GetSplitBlockValue: lane `idx` of the block cut into 2^chunkExp lanes.
   * The index is checked before the exponent, as in the source. (The source's
   * third branch for an output mode other than the two it knows cannot be
   * reached.)
   */
  function GetSplitBlockValue(blk: Block, chunkExp: nat, idx: u64, mode: OutputType): (r: Result<u64, FssError>)
    requires chunkExp < 64
    ensures idx >= Pow2(chunkExp) ==> r == Failure(OutOfRange)
    ensures idx < Pow2(chunkExp) ==> (r.Success? <==> SupportedChunkExp(chunkExp))
    ensures idx < Pow2(chunkExp) && !SupportedChunkExp(chunkExp) ==> r == Failure(InvalidArgument)
    ensures r.Success? && chunkExp == 2 ==> r.value < 0x1_0000_0000
    ensures r.Success? && chunkExp == 3 ==> r.value < 0x1_0000
    ensures chunkExp == 7 && idx < 128 && mode == ShiftedAdditive ==> r == Success(BitOf(blk[idx / 8], idx % 8))
    ensures chunkExp == 7 && idx < 128 && mode == SingleBitMask ==> r == Success(BitOf(blk[idx % 16], idx / 16))
  {
    if idx >= Pow2(chunkExp) then Failure(OutOfRange)
    else if chunkExp == 2 then
      assert Pow2(2) == 4;
      Pow2Constants();
      Success(DecodeLE(blk[4 * idx .. 4 * idx + 4]))
    else if chunkExp == 3 then
      assert Pow2(3) == 8;
      Pow2Constants();
      Success(DecodeLE(blk[2 * idx .. 2 * idx + 2]))
    else if chunkExp == 7 then
      assert Pow2(7) == 128;
      if mode == ShiftedAdditive then Success(WordBit(blk, idx)) else Success(MaskBit(blk, idx))
    else Failure(InvalidArgument)
  }

  /** A lane value as SplitBlockToFieldVector reads it from the stored bytes. */
  function Lane(blk: Block, chunkExp: nat, j: nat): nat
    requires SupportedChunkExp(chunkExp) && j < Pow2(chunkExp)
  {
    Pow2Constants();
    assert Pow2(7) == 128;
    if chunkExp == 2 then DecodeLE(blk[4 * j .. 4 * j + 4])
    else if chunkExp == 3 then DecodeLE(blk[2 * j .. 2 * j + 2])
    else And(Shr(blk[j / 8], j % 8), 1)
  }

  /** `value & mask` with the all-ones mask for 64 bits or more. */
  function MaskTo(value: u64, fieldBits: nat): u64
  {
    if fieldBits >= 64 then value else ModAtMost(value, Pow2(fieldBits)); value % Pow2(fieldBits)
  }

  lemma LaneIndex(i: nat, j: nat, cnt: nat, total: nat)
    requires j < cnt && i * cnt + cnt <= total
    ensures (i * cnt + j) / cnt == i && (i * cnt + j) % cnt == j && i * cnt + j < total
  {
    DivModUnique(i * cnt + j, cnt, i, j);
  }

  /**
   * SplitBlockToFieldVector: every block cut into 2^chunkExp lanes, each lane
   * masked to `fieldBits` bits, block after block. The output is resized
   * before the exponent is checked, so an unsupported exponent leaves it
   * resized.
   */
  method SplitBlockToFieldVector(blks: seq<Block>, chunkExp: nat, fieldBits: nat, out: seq<u64>)
    returns (res: seq<u64>, err: Option<FssError>)
    requires chunkExp < 64
    ensures |res| == |blks| * Pow2(chunkExp)
    ensures err.None? <==> SupportedChunkExp(chunkExp)
    ensures err.Some? ==> err == Some(InvalidArgument) && res == Resized(out, |blks| * Pow2(chunkExp), 0)
    ensures err.None? ==> forall k :: 0 <= k < |res| ==> res[k] == LaneSpec(blks, chunkExp, fieldBits, k)
  {
    var cnt := Pow2(chunkExp);
    var total := |blks| * cnt;
    var mask: u64;
    if fieldBits >= 64 {
      mask := TWO64 - 1;
    } else {
      assert Pow2(fieldBits) <= TWO64 by {
        Pow2Constants();
        Pow2Monotone(fieldBits, 64);
      }
      mask := Pow2(fieldBits) - 1;
    }
    res := Resized(out, total, 0);
    if !SupportedChunkExp(chunkExp) {
      return res, Some(InvalidArgument);
    }
    err := None;
    var i, base := 0, 0;
    while i < |blks|
      invariant 0 <= i <= |blks| && |res| == total
      invariant base == i * cnt && base <= total
      invariant forall k :: 0 <= k < base ==> res[k] == LaneSpec(blks, chunkExp, fieldBits, k)
    {
      NextBlockFits(i, cnt, |blks|);
      res := StoreBlockLanes(blks, chunkExp, fieldBits, mask, i, cnt, base, res);
      i, base := i + 1, base + cnt;
    }
  }

  /** The inner loop of SplitBlockToFieldVector: the lanes of block `i` go to slots i * 2^chunkExp onwards. */
  method StoreBlockLanes(blks: seq<Block>, chunkExp: nat, fieldBits: nat, mask: u64, i: nat, cnt: nat, base: nat, res: seq<u64>)
    returns (res': seq<u64>)
    requires SupportedChunkExp(chunkExp) && i < |blks| && cnt == Pow2(chunkExp) && base == i * cnt
    requires fieldBits >= 64 ==> mask == TWO64 - 1
    requires fieldBits < 64 ==> mask == Pow2(fieldBits) - 1
    requires base + cnt <= |blks| * cnt && base + cnt <= |res|
    requires forall k :: 0 <= k < base ==> res[k] == LaneSpec(blks, chunkExp, fieldBits, k)
    ensures |res'| == |res|
    ensures forall k :: 0 <= k < base + cnt ==> res'[k] == LaneSpec(blks, chunkExp, fieldBits, k)
  {
    res' := res;
    var j := 0;
    while j < cnt
      invariant 0 <= j <= cnt && |res'| == |res|
      invariant forall k :: 0 <= k < base + j ==> res'[k] == LaneSpec(blks, chunkExp, fieldBits, k)
    {
      AndBound(Lane(blks[i], chunkExp, j), mask);
      var v := And(Lane(blks[i], chunkExp, j), mask);
      res' := res'[base + j := v];
      StoredLane(blks, chunkExp, fieldBits, mask, i, j, cnt, base + j, v);
      j := j + 1;
    }
  }

  /** The value stored for lane j of block i is the expected content of its slot k = i * 2^chunkExp + j. */
  lemma StoredLane(blks: seq<Block>, chunkExp: nat, fieldBits: nat, mask: u64, i: nat, j: nat, cnt: nat, k: nat, v: u64)
    requires SupportedChunkExp(chunkExp) && i < |blks| && cnt == Pow2(chunkExp) && j < cnt && k == i * cnt + j
    requires fieldBits >= 64 ==> mask == TWO64 - 1
    requires fieldBits < 64 ==> mask == Pow2(fieldBits) - 1
    requires v == And(Lane(blks[i], chunkExp, j), mask)
    ensures k < |blks| * cnt
    ensures v == LaneSpec(blks, chunkExp, fieldBits, k)
  {
    var total := MulNat(|blks|, cnt);
    NextBlockFits(i, cnt, |blks|);
    LaneIndex(i, j, cnt, total);
    LaneSpecAt(blks, chunkExp, fieldBits, k, i, j);
    LaneMasked(blks[i], chunkExp, j, fieldBits, mask);
  }

  /** LaneSpec at slot k, once the block index b and lane l of k are named. */
  lemma LaneSpecAt(blks: seq<Block>, chunkExp: nat, fieldBits: nat, k: nat, b: nat, l: nat)
    requires SupportedChunkExp(chunkExp) && k < |blks| * Pow2(chunkExp)
    requires b == k / Pow2(chunkExp) && l == k % Pow2(chunkExp)
    ensures b < |blks| && l < Pow2(chunkExp)
    ensures LaneSpec(blks, chunkExp, fieldBits, k) ==
      MaskTo(GetSplitBlockValue(blks[b], chunkExp, l, ShiftedAdditive).value, fieldBits)
  {
    SplitIndexBounds(k, Pow2(chunkExp), |blks|);
  }

  lemma NextBlockFits(i: nat, cnt: nat, n: nat)
    requires i < n
    ensures i * cnt + cnt <= n * cnt && i * cnt + cnt == (i + 1) * cnt
  {
    MulLe(cnt, i + 1, n);
  }

  /**
   * The expected content of output slot `k`: lane `k mod 2^chunkExp` of block
   * `k / 2^chunkExp`, as GetSplitBlockValue returns it, masked.
   */
  function LaneSpec(blks: seq<Block>, chunkExp: nat, fieldBits: nat, k: nat): u64
    requires SupportedChunkExp(chunkExp) && k < |blks| * Pow2(chunkExp)
  {
    SplitIndexBounds(k, Pow2(chunkExp), |blks|);
    MaskTo(GetSplitBlockValue(blks[k / Pow2(chunkExp)], chunkExp, k % Pow2(chunkExp), ShiftedAdditive).value, fieldBits)
  }

  lemma SplitIndexBounds(k: nat, cnt: nat, n: nat)
    requires cnt > 0 && k < n * cnt
    ensures k / cnt < n && k % cnt < cnt
  {
  }

  /** The lane the loop stores, masked, is the lane GetSplitBlockValue returns, masked. */
  lemma LaneMasked(blk: Block, chunkExp: nat, j: nat, fieldBits: nat, mask: u64)
    requires SupportedChunkExp(chunkExp) && j < Pow2(chunkExp)
    requires fieldBits >= 64 ==> mask == TWO64 - 1
    requires fieldBits < 64 ==> mask == Pow2(fieldBits) - 1
    ensures GetSplitBlockValue(blk, chunkExp, j, ShiftedAdditive).Success?
    ensures And(Lane(blk, chunkExp, j), mask) == MaskTo(GetSplitBlockValue(blk, chunkExp, j, ShiftedAdditive).value, fieldBits)
  {
    LaneIsValue(blk, chunkExp, j);
    MaskIsMod(GetSplitBlockValue(blk, chunkExp, j, ShiftedAdditive).value, fieldBits, mask);
  }

  lemma LaneIsValue(blk: Block, chunkExp: nat, j: nat)
    requires SupportedChunkExp(chunkExp) && j < Pow2(chunkExp)
    ensures GetSplitBlockValue(blk, chunkExp, j, ShiftedAdditive).Success?
    ensures Lane(blk, chunkExp, j) == GetSplitBlockValue(blk, chunkExp, j, ShiftedAdditive).value
  {
    if chunkExp == 7 {
      assert Pow2(7) == 128;
      AndLowMask(Shr(blk[j / 8], j % 8), 1);
    }
  }

  lemma MaskIsMod(v: u64, fieldBits: nat, mask: u64)
    requires fieldBits >= 64 ==> mask == TWO64 - 1
    requires fieldBits < 64 ==> mask == Pow2(fieldBits) - 1
    ensures And(v, mask) == MaskTo(v, fieldBits)
  {
    if fieldBits >= 64 {
      Pow2Constants();
      AndLowMask(v, 64);
      DivModUnique(v, TWO64, 0, v);
    } else {
      AndLowMask(v, fieldBits);
    }
  }
}
