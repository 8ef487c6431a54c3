/**
 * DPF parameters and DPF keys.
 *
 * `DpfParameters` resolves a requested (input bitsize, element bitsize,
 * evaluation strategy, output mode) into the configuration that key
 * generation uses: small domains fall back to naive evaluation, strategies
 * without early termination switch it off, and the early-termination depth
 * `nu` depends on the element size. A `DpfKey` holds one party's seed, its
 * `nu` correction words and the output correction, and serialises to a flat
 * byte buffer.
 */
module DpfKey {
  import opened Bits
  import opened Bytes
  import opened Wrappers
  import opened Fss


  /** The six parameter fields. */
  datatype DpfParams = DpfParams(
    n: u64,                 // input bitsize
    e: u64,                 // element (output) bitsize
    et: bool,               // early termination enabled
    nu: u64,                // terminate bitsize = number of correction words
    evalType: EvalType,
    output: OutputType)

  /** The invalid_argument exceptions of the validation, in the order they are checked. */
  datatype ParamError =
    | ZeroBitsize            // n == 0 or e == 0
    | InputTooLarge          // n > 32
    | TerminateAboveInput    // ET on and nu > n
    | TerminateNotInput      // ET off and nu != n
    | NaiveWithEarlyTerm     // Naive with ET on
    | SingleBitMaskNeedsBit  // SingleBitMask with e != 1

  /** `static_cast<int32_t>` of a 64-bit unsigned value (two's complement truncation). */
  function Int32Of(v: u64): (r: int)
    ensures -(TWO31 as int) <= r < TWO31
    ensures v < TWO31 ==> r == v
  {
    var m := v % TWO32;
    if m >= TWO31 then m - TWO32 else m
  }

  /** `static_cast<uint64_t>(std::max(nu, 0))`. */
  function ClampNu(nu: int): (r: u64)
    requires nu < TWO31
    ensures r as int >= nu && r >= 0
    ensures nu > 0 ==> r == nu
  {
    if nu < 0 then 0 else nu
  }

  /** The domains small enough to be evaluated naively. */
  predicate ForcesNaive(n: u64, e: u64) {
    (e == 1 && n < 10) || (e > 1 && n <= 8)
  }

  /** The fields as they stand before resolution: ET on, nothing resolved yet. */
  function Requested(n: u64, e: u64, evalType: EvalType, output: OutputType): DpfParams {
    DpfParams(n, e, true, 0, evalType, output)
  }

  /** What a configuration must satisfy to pass validation. */
  predicate WellFormed(p: DpfParams) {
    && 0 < p.n <= 32
    && 0 < p.e
    && (p.et ==> p.nu <= p.n)
    && (!p.et ==> p.nu == p.n)
    && !(p.evalType == Naive && p.et)
    && (p.output == SingleBitMask ==> p.e == 1)
  }

  /**
   * The effect of resolution on a field state. With ET on, nu is n-7 for
   * one-bit outputs (128 outputs per leaf), else n-3 below 17 bits and n-2
   * below 33 bits; without ET every level is expanded and nu is n.
   */
  function Resolved(p: DpfParams): (r: DpfParams)
    ensures r.n == p.n && r.e == p.e
    ensures ForcesNaive(p.n, p.e) ==> r.evalType == Naive
    ensures !ForcesNaive(p.n, p.e) ==> r.evalType == p.evalType
    ensures r.evalType == Naive || r.evalType == IterDepthFirst ==> !r.et && r.output == ShiftedAdditive
    ensures r.et ==> p.et
    ensures !r.et ==> r.nu == p.n
    ensures r.et ==> r.nu <= p.n
    ensures p.et && r.output == SingleBitMask ==> p.output == SingleBitMask && (p.e == 1 || p.n >= 33)
    ensures r.et && 0 < p.e && p.n <= 32 ==>
              r.nu == (if p.e == 1 then p.n - 7 else if p.n < 17 then p.n - 3 else p.n - 2)
    ensures p.et ==> (WellFormed(r) <==> 0 < p.n <= 32 && 0 < p.e)
  {
    var evalType := if ForcesNaive(p.n, p.e) then Naive else p.evalType;
    var noEt := evalType == Naive || evalType == IterDepthFirst;
    var et := if noEt then false else p.et;
    var output := if noEt then ShiftedAdditive else p.output;
    if !et then
      DpfParams(p.n, p.e, false, p.n, evalType, output)
    else if p.e == 1 then
      DpfParams(p.n, p.e, true, ClampNu(Int32Of(p.n) - 7), evalType, output)
    else if p.n < 17 then
      DpfParams(p.n, p.e, true, ClampNu(Int32Of(p.n) - 3), evalType, ShiftedAdditive)
    else if p.n < 33 then
      DpfParams(p.n, p.e, true, ClampNu(Int32Of(p.n) - 2), evalType, ShiftedAdditive)
    else
      DpfParams(p.n, p.e, true, 0, evalType, output)
  }

  /** The first validation failure, if any. */
  function ValidationError(p: DpfParams): (r: Option<ParamError>)
    ensures r.None? <==> WellFormed(p)
    ensures r == Some(ZeroBitsize) <==> p.n == 0 || p.e == 0
    ensures r == Some(InputTooLarge) <==> p.n != 0 && p.e != 0 && p.n > 32
  {
    if p.n == 0 || p.e == 0 then Some(ZeroBitsize)
    else if p.n > 32 then Some(InputTooLarge)
    else if p.et && p.nu > p.n then Some(TerminateAboveInput)
    else if !p.et && p.nu != p.n then Some(TerminateNotInput)
    else if p.evalType == Naive && p.et then Some(NaiveWithEarlyTerm)
    else if p.e != 1 && p.output == SingleBitMask then Some(SingleBitMaskNeedsBit)
    else None
  }

  class DpfParameters {
    var inputBitsize: u64
    var elementBitsize: u64
    var enableEt: bool
    var terminateBitsize: u64
    var evalType: EvalType
    var outputMode: OutputType

    function View(): DpfParams
      reads this
    {
      DpfParams(inputBitsize, elementBitsize, enableEt, terminateBitsize, evalType, outputMode)
    }

    /** Stores the request and resolves it; `Create` adds the validation that may throw. */
    constructor Make(n: u64, e: u64, evalType: EvalType, outputMode: OutputType)
      ensures View() == Resolved(Requested(n, e, evalType, outputMode))
    {
      inputBitsize := n;
      elementBitsize := e;
      enableEt := true;
      terminateBitsize := 0;
      this.evalType := evalType;
      this.outputMode := outputMode;
      new;
      Resolve();
    }

    /** The throwing constructor: the parameters exist exactly when 0 < n <= 32 and e > 0. */
    static method Create(n: u64, e: u64, evalType: EvalType, outputMode: OutputType)
      returns (r: Result<DpfParameters, ParamError>)
      ensures r.Success? <==> 0 < n <= 32 && 0 < e
      ensures r.Failure? ==> r.error == ValidationError(Resolved(Requested(n, e, evalType, outputMode))).value
      ensures r.Success? ==> r.value.View() == Resolved(Requested(n, e, evalType, outputMode))
      ensures r.Success? ==> WellFormed(r.value.View())
    {
      var p := new DpfParameters.Make(n, e, evalType, outputMode);
      var err := p.ValidateOrThrow();
      if err.Some? {
        return Failure(err.value);
      }
      return Success(p);
    }

    /** Overwrites the request, resolves and validates; the fields stay resolved even when it throws. */
    method ReconfigureParameters(n: u64, e: u64, evalType: EvalType, outputMode: OutputType)
      returns (err: Option<ParamError>)
      modifies this
      ensures View() == Resolved(Requested(n, e, evalType, outputMode))
      ensures err.None? <==> 0 < n <= 32 && 0 < e
    {
      inputBitsize := n;
      elementBitsize := e;
      enableEt := true;
      this.evalType := evalType;
      this.outputMode := outputMode;
      Resolve();
      err := ValidateOrThrow();
    }

    method Resolve()
      modifies this
      ensures View() == Resolved(old(View()))
    {
      if (elementBitsize == 1 && inputBitsize < 10) || (elementBitsize > 1 && inputBitsize <= 8) {
        evalType := Naive;
      }
      if evalType == Naive || evalType == IterDepthFirst {
        enableEt := false;
        outputMode := ShiftedAdditive;
      }
      if enableEt {
        var nu: int := 0;
        if elementBitsize == 1 {
          nu := Int32Of(inputBitsize) - 7;
        } else if inputBitsize < 17 {
          nu := Int32Of(inputBitsize) - 3;
          if outputMode == SingleBitMask {
            outputMode := ShiftedAdditive;
          }
        } else if inputBitsize < 33 {
          nu := Int32Of(inputBitsize) - 2;
          if outputMode == SingleBitMask {
            outputMode := ShiftedAdditive;
          }
        }
        terminateBitsize := ClampNu(nu);
      } else {
        terminateBitsize := inputBitsize;
      }
    }

    method ValidateOrThrow() returns (err: Option<ParamError>)
      ensures err == ValidationError(View())
      ensures err.None? <==> WellFormed(View())
    {
      if inputBitsize == 0 || elementBitsize == 0 {
        return Some(ZeroBitsize);
      }
      if inputBitsize > 32 {
        return Some(InputTooLarge);
      }
      if enableEt {
        if terminateBitsize > inputBitsize {
          return Some(TerminateAboveInput);
        }
      } else {
        if terminateBitsize != inputBitsize {
          return Some(TerminateNotInput);
        }
      }
      if evalType == Naive && enableEt {
        return Some(NaiveWithEarlyTerm);
      }
      if elementBitsize != 1 && outputMode == SingleBitMask {
        return Some(SingleBitMaskNeedsBit);
      }
      return None;
    }
  }

  /* ---------------------------------------------------------------- keys */

  /** The contents of a key. */
  datatype KeyValue = KeyValue(
    partyId: u64,
    initSeed: Block,
    cwSeed: seq<Block>,
    cwControlLeft: seq<bool>,
    cwControlRight: seq<bool>,
    output: Block)

  /** The three correction-word arrays share one length that fits the 64-bit `cw_length`. */
  predicate WellSized(k: KeyValue) {
    |k.cwSeed| == |k.cwControlLeft| == |k.cwControlRight| && |k.cwSeed| < TWO64
  }

  /** Party id, seed and length (8+16+8), 16 bytes per seed, one byte per control bit, output (16). */
  function SerializedSize(cwLength: nat): nat {
    48 + 18 * cwLength
  }

  function BoolByte(b: bool): byte {
    if b then 1 else 0
  }

  function BoolBytes(s: seq<bool>): (r: seq<byte>)
    ensures |r| == |s|
  {
    seq(|s|, i requires 0 <= i < |s| => BoolByte(s[i]))
  }

  /** The correction words and the output, as laid out after the 32-byte header. */
  function EncodeBody(k: KeyValue): (r: seq<byte>)
    ensures |r| == 16 * |k.cwSeed| + |k.cwControlLeft| + |k.cwControlRight| + 16
  {
    Flatten(k.cwSeed) + (BoolBytes(k.cwControlLeft) + (BoolBytes(k.cwControlRight) + k.output))
  }

  /** The byte image Serialize appends. */
  function Encode(k: KeyValue): (r: seq<byte>)
    requires WellSized(k)
    ensures |r| == SerializedSize(|k.cwSeed|)
  {
    Pow2Constants();
    EncodeLE(k.partyId, 8) + (k.initSeed + (EncodeLE(|k.cwSeed|, 8) + EncodeBody(k)))
  }

  /** `n` consecutive 16-byte seeds. */
  function DecodeBlocks(bytes: seq<byte>, n: nat): (r: seq<Block>)
    requires |bytes| >= 16 * n
    ensures |r| == n
  {
    if n == 0 then [] else [bytes[..16]] + DecodeBlocks(bytes[16..], n - 1)
  }

  /** A stored bool byte reads back as true unless it is zero. */
  function DecodeBools(bytes: seq<byte>, n: nat): (r: seq<bool>)
    requires |bytes| >= n
    ensures |r| == n
  {
    seq(n, i requires 0 <= i < n => bytes[i] != 0)
  }

  /** The buffer holds the header and as many correction words as its length field says. */
  predicate Decodable(buf: seq<byte>) {
    |buf| >= 32 && |buf| >= SerializedSize(DecodeLE(buf[24..32]))
  }

  /** What Deserialize reads, field by field, advancing through the buffer. */
  function Decode(buf: seq<byte>): (k: KeyValue)
    requires Decodable(buf)
    ensures WellSized(k)
  {
    Pow2Constants();
    DecodeBody(DecodeLE(buf[..8]), buf[8..24], DecodeLE(buf[24..32]), buf[32..])
  }

  /** The correction words and the output read from the bytes after the header. */
  function DecodeBody(id: u64, seed: Block, n: nat, body: seq<byte>): (k: KeyValue)
    requires |body| >= 18 * n + 16 && n < TWO64
    ensures WellSized(k)
  {
    var afterSeeds := body[16 * n..];
    var afterLeft := afterSeeds[n..];
    var afterRight := afterLeft[n..];
    KeyValue(id, seed, DecodeBlocks(body, n), DecodeBools(afterSeeds, n), DecodeBools(afterLeft, n),
             afterRight[..16])
  }

  lemma {:induction false} DecodeBlocksOfFlatten(s: seq<Block>, rest: seq<byte>)
    ensures DecodeBlocks(Flatten(s) + rest, |s|) == s
    ensures (Flatten(s) + rest)[16 * |s|..] == rest
    decreases |s|
  {
    if |s| > 0 {
      var tail: seq<byte> := Flatten(s[1..]) + rest;
      var head: seq<byte> := s[0];
      assert Flatten(s) + rest == head + tail;
      assert (head + tail)[..16] == s[0];
      assert (head + tail)[16..] == tail;
      DecodeBlocksOfFlatten(s[1..], rest);
      assert s == [s[0]] + s[1..];
    }
  }

  lemma DecodeBoolsOfBoolBytes(s: seq<bool>, rest: seq<byte>)
    ensures DecodeBools(BoolBytes(s) + rest, |s|) == s
    ensures (BoolBytes(s) + rest)[|s|..] == rest
  {
  }

  lemma DecodeBodyOfBody(k: KeyValue, rest: seq<byte>)
    requires WellSized(k)
    ensures |EncodeBody(k) + rest| >= 18 * |k.cwSeed| + 16
    ensures DecodeBody(k.partyId, k.initSeed, |k.cwSeed|, EncodeBody(k) + rest) == k
  {
    var tail4 := k.output + rest;
    var tail3 := BoolBytes(k.cwControlRight) + tail4;
    var tail2 := BoolBytes(k.cwControlLeft) + tail3;
    assert EncodeBody(k) + rest == Flatten(k.cwSeed) + tail2;
    DecodeBlocksOfFlatten(k.cwSeed, tail2);
    DecodeBoolsOfBoolBytes(k.cwControlLeft, tail3);
    DecodeBoolsOfBoolBytes(k.cwControlRight, tail4);
    assert tail4[..16] == k.output;
  }

  /** Deserialize inverts Serialize; bytes after the key are ignored. */
  lemma DecodeEncodeKey(k: KeyValue, rest: seq<byte>)
    requires WellSized(k)
    ensures Decodable(Encode(k) + rest)
    ensures Decode(Encode(k) + rest) == k
  {
    Pow2Constants();
    var buf := Encode(k) + rest;
    EncodedHeader(k, rest);
    DecodeEncode(k.partyId, 8);
    DecodeEncode(|k.cwSeed|, 8);
    DecodeBodyOfBody(k, rest);
    assert Decodable(buf);
    assert Decode(buf) == DecodeBody(k.partyId, k.initSeed, |k.cwSeed|, EncodeBody(k) + rest);
  }

  /** The header fields sit at offsets 0, 8 and 24, and the body follows at 32. */
  lemma EncodedHeader(k: KeyValue, rest: seq<byte>)
    requires WellSized(k)
    ensures var buf := Encode(k) + rest;
      |buf| >= 32 && buf[..8] == EncodeLE(k.partyId, 8) && buf[8..24] == k.initSeed &&
      buf[24..32] == EncodeLE(|k.cwSeed|, 8) && buf[32..] == EncodeBody(k) + rest
  {
    Pow2Constants();
    var id := EncodeLE(k.partyId, 8);
    var len := EncodeLE(|k.cwSeed|, 8);
    var e := EncodeBody(k);
    assert Encode(k) == id + (k.initSeed + (len + e));
    AppendNested(id, k.initSeed, len, e, rest);
    HeaderSlices(id, k.initSeed, len, e + rest);
  }

  /** Decode with every field at its absolute offset, as Deserialize's running offset reaches it. */
  lemma DecodeAtOffsets(buf: seq<byte>)
    requires Decodable(buf)
    ensures var n := DecodeLE(buf[24..32]);
            Decode(buf) == KeyValue(DecodeLE(buf[..8]), buf[8..24], DecodeBlocks(buf[32..], n),
                                    DecodeBools(buf[32 + 16 * n..], n), DecodeBools(buf[32 + 16 * n + n..], n),
                                    buf[32 + 16 * n + n + n..32 + 16 * n + n + n + 16])
  {
    var n := DecodeLE(buf[24..32]);
    DropDrop(buf, 32, 16 * n);
    DropDrop(buf, 32 + 16 * n, n);
    DropDrop(buf, 32 + 16 * n + n, n);
  }

  /** A fresh array holding `s` (the memcpy into a new buffer). */
  method NewFlatten(s: seq<Block>) returns (a: array<Block>)
    ensures fresh(a) && a[..] == s
  {
    a := new Block[|s|](i => if 0 <= i < |s| then s[i] else ZeroBlock);
  }

  method NewBools(s: seq<bool>) returns (a: array<bool>)
    ensures fresh(a) && a[..] == s
  {
    a := new bool[|s|](i => if 0 <= i < |s| then s[i] else false);
  }

  /** memcpy of eight bytes into a uint64_t: the little-endian value. */
  function ReadU64(buf: seq<byte>, offset: nat): (r: u64)
    requires offset + 8 <= |buf|
    ensures r == DecodeLE(buf[offset..offset + 8])
  {
    Pow2Constants();
    DecodeLE(buf[offset..offset + 8])
  }

  /** Deserialize's reads: the running offset moves past each field as it is copied out. */
  method ReadKey(buffer: seq<byte>)
    returns (id: u64, seed: Block, seeds: array<Block>, left: array<bool>, right: array<bool>, output: Block)
    requires Decodable(buffer)
    ensures fresh(seeds) && fresh(left) && fresh(right)
    ensures KeyValue(id, seed, seeds[..], left[..], right[..], output) == Decode(buffer)
  {
    var offset: nat := 0;
    id := ReadU64(buffer, offset);
    offset := offset + 8;
    seed := buffer[offset..offset + 16];
    offset := offset + 16;
    var n: nat := ReadU64(buffer, offset);
    offset := offset + 8;
    seeds := NewFlatten(DecodeBlocks(buffer[offset..], n));
    offset := offset + 16 * n;
    left := NewBools(DecodeBools(buffer[offset..], n));
    offset := offset + n;
    right := NewBools(DecodeBools(buffer[offset..], n));
    offset := offset + n;
    output := buffer[offset..offset + 16];
    DecodeAtOffsets(buffer);
  }

  class DpfKey {
    var partyId: u64
    var initSeed: Block
    var cwLength: u64
    var cwSeed: array<Block>
    var cwControlLeft: array<bool>
    var cwControlRight: array<bool>
    var output: Block
    /** Fixed at construction from the parameters' nu. */
    var serializedSize: nat

    ghost predicate Valid()
      reads this
    {
      cwSeed.Length == cwLength && cwControlLeft.Length == cwLength && cwControlRight.Length == cwLength
    }

    function Value(): (k: KeyValue)
      reads this, cwSeed, cwControlLeft, cwControlRight
      requires Valid()
      ensures WellSized(k) && |k.cwSeed| == cwLength
    {
      KeyValue(partyId, initSeed, cwSeed[..], cwControlLeft[..], cwControlRight[..], output)
    }

    /** A fresh key: nu zero seeds and false control bits, zero seed and output. */
    constructor(id: u64, params: DpfParameters)
      ensures Valid()
      ensures Value() == KeyValue(id, ZeroBlock, seq(params.terminateBitsize, _ => ZeroBlock),
                                  seq(params.terminateBitsize, _ => false),
                                  seq(params.terminateBitsize, _ => false), ZeroBlock)
      ensures serializedSize == SerializedSize(params.terminateBitsize)
    {
      var n := params.terminateBitsize;
      partyId := id;
      initSeed := ZeroBlock;
      cwLength := n;
      cwSeed := new Block[n](_ => ZeroBlock);
      cwControlLeft := new bool[n](_ => false);
      cwControlRight := new bool[n](_ => false);
      output := ZeroBlock;
      serializedSize := SerializedSize(n);
    }

    /** Field-by-field equality, stopping at the first difference. */
    method Equals(rhs: DpfKey) returns (eq: bool)
      requires Valid() && rhs.Valid()
      ensures eq <==> Value() == rhs.Value()
    {
      if partyId != rhs.partyId || initSeed != rhs.initSeed || cwLength != rhs.cwLength || output != rhs.output {
        return false;
      }
      var i: nat := 0;
      while i < cwLength
        invariant i <= cwLength
        invariant forall j :: 0 <= j < i ==> cwSeed[j] == rhs.cwSeed[j]
        invariant forall j :: 0 <= j < i ==> cwControlLeft[j] == rhs.cwControlLeft[j]
        invariant forall j :: 0 <= j < i ==> cwControlRight[j] == rhs.cwControlRight[j]
      {
        if cwSeed[i] != rhs.cwSeed[i] || cwControlLeft[i] != rhs.cwControlLeft[i]
           || cwControlRight[i] != rhs.cwControlRight[i] {
          assert cwSeed[..][i] != rhs.cwSeed[..][i] || cwControlLeft[..][i] != rhs.cwControlLeft[..][i]
                 || cwControlRight[..][i] != rhs.cwControlRight[..][i];
          return false;
        }
        i := i + 1;
      }
      assert cwSeed[..] == rhs.cwSeed[..];
      assert cwControlLeft[..] == rhs.cwControlLeft[..];
      assert cwControlRight[..] == rhs.cwControlRight[..];
      return true;
    }

    function CalculateSerializedSize(): (r: nat)
      reads this, cwSeed, cwControlLeft, cwControlRight
      requires Valid()
      ensures r == |Encode(Value())|
    {
      8 + 16 + 8 + 16 * cwLength + cwLength + cwLength + 16
    }

    /** Appends the key's byte image to `buffer`. */
    method Serialize(buffer: seq<byte>) returns (out: seq<byte>)
      requires Valid()
      ensures out == buffer + Encode(Value())
      ensures |out| == |buffer| + CalculateSerializedSize()
    {
      Pow2Constants();
      out := buffer + EncodeLE(partyId, 8);
      out := out + initSeed;
      out := out + EncodeLE(cwLength, 8);
      out := out + Flatten(cwSeed[..]);
      out := out + BoolBytes(cwControlLeft[..]);
      out := out + BoolBytes(cwControlRight[..]);
      out := out + output;
      AppendChain(buffer, EncodeLE(partyId, 8), initSeed, EncodeLE(cwLength, 8), Flatten(cwSeed[..]),
                  BoolBytes(cwControlLeft[..]), BoolBytes(cwControlRight[..]), output);
    }

    /** Reads a key from `buffer`, replacing the correction-word arrays. */
    method Deserialize(buffer: seq<byte>)
      requires Decodable(buffer)
      modifies this
      ensures Valid() && Value() == Decode(buffer)
      ensures fresh(cwSeed) && fresh(cwControlLeft) && fresh(cwControlRight)
      ensures serializedSize == old(serializedSize)
    {
      var id, seed, seeds, left, right, out := ReadKey(buffer);
      partyId, initSeed, cwLength := id, seed, seeds.Length;
      cwSeed, cwControlLeft, cwControlRight := seeds, left, right;
      output := out;
    }
  }
}
