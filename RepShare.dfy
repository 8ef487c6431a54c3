/**
 * Containers for replicated shares. A party of the three-party replicated
 * scheme holds two of the three shares of every value: `RepShare` is that
 * pair, `RepShareVec` a vector of pairs stored as two parallel vectors,
 * `RepShareView` a read-only window on such a vector and `RepShareMat` a
 * row-major matrix over a `RepShareVec`.
 */
module RepShare {
  import opened Bits
  import opened Bytes
  import opened Wrappers

  /** std::out_of_range and std::invalid_argument. */
  datatype ShareError = OutOfRange | InvalidArgument

  /** The two shares a party holds: `data[0]` and `data[1]`. */
  datatype RepShare<T> = RepShare(s0: T, s1: T)

  /**
   * The three parties' pairs of one replicated sharing: party p holds
   * (x_p, x_{p-1}), so its second share is the previous party's first.
   */
  predicate Replicated<T(==)>(all: seq<RepShare<T>>) {
    |all| == 3 && all[0].s1 == all[2].s0 && all[1].s1 == all[0].s0 && all[2].s1 == all[1].s0
  }

  /** A pair of 64-bit shares as its sixteen bytes in memory order. */
  function EncodeShare64(sh: RepShare<u64>): (r: seq<byte>)
    ensures |r| == 16
  {
    EncodeLE(sh.s0, 8) + EncodeLE(sh.s1, 8)
  }

  /** Serialize appends the pair to the buffer. */
  function Serialize64(sh: RepShare<u64>, buffer: seq<byte>): (r: seq<byte>)
    ensures |r| == |buffer| + 16 && r[..|buffer|] == buffer
    ensures r[|buffer|..] == EncodeShare64(sh)
  {
    buffer + EncodeShare64(sh)
  }

  /** Deserialize reads the first sixteen bytes, and throws when there are fewer. */
  function Deserialize64(buffer: seq<byte>): (r: Result<RepShare<u64>, ShareError>)
    ensures r.Failure? <==> |buffer| < 16
    ensures r.Failure? ==> r.error == InvalidArgument
    ensures r.Success? ==> EncodeShare64(r.value) == buffer[..16]
  {
    if |buffer| < 16 then Failure(InvalidArgument)
    else
      Pow2Constants();
      EncodeDecode(buffer[..8]);
      EncodeDecode(buffer[8..16]);
      assert buffer[..16] == buffer[..8] + buffer[8..16];
      Success(RepShare(DecodeLE(buffer[..8]), DecodeLE(buffer[8..16])))
  }

  /** Deserialize inverts Serialize on an empty buffer, whatever follows the pair. */
  lemma Deserialize64Serialize(sh: RepShare<u64>, rest: seq<byte>)
    ensures Deserialize64(Serialize64(sh, []) + rest) == Success(sh)
  {
    Pow2Constants();
    var buf := Serialize64(sh, []) + rest;
    assert buf == EncodeLE(sh.s0, 8) + (EncodeLE(sh.s1, 8) + rest);
    assert buf[..8] == EncodeLE(sh.s0, 8);
    assert buf[8..16] == EncodeLE(sh.s1, 8);
    DecodeEncode(sh.s0, 8);
    DecodeEncode(sh.s1, 8);
  }

  /** The block instantiation: two sixteen-byte blocks, 32 bytes. */
  function SerializeBlock(sh: RepShare<Block>, buffer: seq<byte>): (r: seq<byte>)
    ensures |r| == |buffer| + 32 && r[..|buffer|] == buffer
  {
    buffer + sh.s0 + sh.s1
  }

  function DeserializeBlock(buffer: seq<byte>): (r: Result<RepShare<Block>, ShareError>)
    ensures r.Failure? <==> |buffer| < 32
    ensures r.Success? ==> r.value.s0 + r.value.s1 == buffer[..32]
  {
    if |buffer| < 32 then Failure(InvalidArgument)
    else Success(RepShare(buffer[..16], buffer[16..32]))
  }

  lemma DeserializeBlockSerialize(sh: RepShare<Block>, rest: seq<byte>)
    ensures DeserializeBlock(SerializeBlock(sh, []) + rest) == Success(sh)
  {
    var buf := SerializeBlock(sh, []) + rest;
    assert buf[..16] == sh.s0;
    assert buf[16..32] == sh.s1;
  }

  /** A vector of share pairs kept as two parallel vectors. */
  class RepShareVec<T> {
    var numShares: nat
    var data0: seq<T>
    var data1: seq<T>

    ghost predicate Valid()
      reads this
    {
      |data0| == numShares && |data1| == numShares
    }

    /** `RepShareVec(n)`: both vectors resized to n value-initialised elements (`zero`). */
    constructor Sized(n: nat, zero: T)
      ensures Valid() && numShares == n
      ensures data0 == seq(n, _ => zero) && data1 == seq(n, _ => zero)
    {
      numShares := n;
      data0 := seq(n, _ => zero);
      data1 := seq(n, _ => zero);
    }

    /** Takes ownership of two share vectors of equal size. */
    constructor Pair(share0: seq<T>, share1: seq<T>)
      requires |share0| == |share1|
      ensures Valid() && numShares == |share0| && data0 == share0 && data1 == share1
    {
      numShares := |share0|;
      data0 := share0;
      data1 := share1;
    }

    /** `RepShareVec(share_0, share_1)`: throws invalid_argument when the sizes differ. */
    static method FromShares(share0: seq<T>, share1: seq<T>) returns (r: Result<RepShareVec<T>, ShareError>)
      ensures r.Failure? <==> |share0| != |share1|
      ensures r.Failure? ==> r.error == InvalidArgument
      ensures r.Success? ==> r.value.Valid() && r.value.numShares == |share0|
      ensures r.Success? ==> r.value.data0 == share0 && r.value.data1 == share1
    {
      if |share0| != |share1| {
        return Failure(InvalidArgument);
      }
      var v := new RepShareVec.Pair(share0, share1);
      return Success(v);
    }

    /** The pair at `idx`, or out_of_range. */
    function At(idx: nat): (r: Result<RepShare<T>, ShareError>)
      reads this
      requires Valid()
      ensures r.Failure? <==> idx >= numShares
      ensures r.Failure? ==> r.error == OutOfRange
      ensures r.Success? ==> r.value.s0 == data0[idx] && r.value.s1 == data1[idx]
    {
      if idx >= numShares then Failure(OutOfRange) else Success(RepShare(data0[idx], data1[idx]))
    }

    /** Overwrites the pair at `idx`; out of range it throws and changes nothing. */
    method Set(idx: nat, share: RepShare<T>) returns (err: Option<ShareError>)
      requires Valid()
      modifies this
      ensures Valid() && numShares == old(numShares)
      ensures err.Some? <==> idx >= numShares
      ensures err.Some? ==> err.value == OutOfRange && data0 == old(data0) && data1 == old(data1)
      ensures err.None? ==> At(idx) == Success(share)
      ensures forall j :: 0 <= j < numShares && j != idx ==> At(j) == old(At(j))
    {
      if idx >= numShares {
        return Some(OutOfRange);
      }
      data0 := data0[idx := share.s0];
      data1 := data1[idx := share.s1];
      return None;
    }
  }

  /** A non-owning read-only window: `numShares` pairs from two spans. */
  datatype RepShareView<T> = RepShareView(numShares: nat, share0: seq<T>, share1: seq<T>)
  {
    /** Both spans cover `numShares` elements. */
    predicate Spans() {
      |share0| >= numShares && |share1| >= numShares
    }

    function At(idx: nat): (r: Result<RepShare<T>, ShareError>)
      requires Spans()
      ensures r.Failure? <==> idx >= numShares
      ensures r.Success? ==> r.value == RepShare(share0[idx], share1[idx])
    {
      if idx >= numShares then Failure(OutOfRange) else Success(RepShare(share0[idx], share1[idx]))
    }
  }

  /** `RepShareView(const RepShareVec&)`: a window on the whole vector. */
  function ViewOf<T>(v: RepShareVec<T>): (r: RepShareView<T>)
    reads v
    requires v.Valid()
    ensures r.Spans() && r.numShares == v.numShares
    ensures forall i: nat :: r.At(i) == v.At(i)
  {
    RepShareView(v.numShares, v.data0, v.data1)
  }

  lemma RowFits(rows: nat, cols: nat, i: nat, j: nat)
    requires i < rows && j < cols
    ensures i * cols + j < rows * cols
    ensures i * cols + cols <= rows * cols
  {
    MulLe(cols, i + 1, rows);
  }

  /** A rows x cols matrix of share pairs in row-major order. */
  class RepShareMat<T> {
    var rows: nat
    var cols: nat
    const shares: RepShareVec<T>

    ghost predicate Valid()
      reads this, shares
    {
      shares.Valid() && shares.numShares == rows * cols
    }

    /** `RepShareMat(rows, cols)`: rows*cols value-initialised pairs. */
    constructor Sized(rows: nat, cols: nat, zero: T)
      ensures Valid() && this.rows == rows && this.cols == cols && fresh(shares)
      ensures shares.data0 == seq(rows * cols, _ => zero) && shares.data1 == seq(rows * cols, _ => zero)
    {
      this.rows := rows;
      this.cols := cols;
      shares := new RepShareVec.Sized(rows * cols, zero);
    }

    constructor Flat(rows: nat, cols: nat, share0: seq<T>, share1: seq<T>)
      requires |share0| == rows * cols && |share1| == rows * cols
      ensures Valid() && this.rows == rows && this.cols == cols && fresh(shares)
      ensures shares.data0 == share0 && shares.data1 == share1
    {
      this.rows := rows;
      this.cols := cols;
      shares := new RepShareVec.Pair(share0, share1);
    }

    /** `RepShareMat(rows, cols, share_0, share_1)`: both flat vectors must hold rows*cols elements. */
    static method FromShares(rows: nat, cols: nat, share0: seq<T>, share1: seq<T>)
      returns (r: Result<RepShareMat<T>, ShareError>)
      ensures r.Failure? <==> |share0| != rows * cols || |share1| != rows * cols
      ensures r.Failure? ==> r.error == InvalidArgument
      ensures r.Success? ==> r.value.Valid() && r.value.rows == rows && r.value.cols == cols
      ensures r.Success? ==> r.value.shares.data0 == share0 && r.value.shares.data1 == share1
    {
      var n := rows * cols;
      if |share0| != n || |share1| != n {
        return Failure(InvalidArgument);
      }
      var m := new RepShareMat.Flat(rows, cols, share0, share1);
      return Success(m);
    }

    /** The pair in row i, column j, read from the flat vector at i*cols + j. */
    function At(i: nat, j: nat): (r: Result<RepShare<T>, ShareError>)
      reads this, shares
      requires Valid()
      ensures r.Failure? <==> i >= rows || j >= cols
      ensures r.Failure? ==> r.error == OutOfRange
      ensures r.Success? ==> i * cols + j < shares.numShares && r == shares.At(i * cols + j)
    {
      if i >= rows || j >= cols then Failure(OutOfRange)
      else
        RowFits(rows, cols, i, j);
        shares.At(i * cols + j)
    }

    /** A window on row i: cols pairs starting at offset i*cols; its j-th pair is At(i, j). */
    function RowView(i: nat): (r: Result<RepShareView<T>, ShareError>)
      reads this, shares
      requires Valid()
      ensures r.Failure? <==> i >= rows
      ensures r.Success? ==> r.value.numShares == cols && r.value.Spans()
      ensures r.Success? ==> forall j: nat :: j < cols ==> r.value.At(j) == At(i, j)
    {
      if i >= rows then Failure(OutOfRange)
      else
        var offset := i * cols;
        assert offset + cols <= rows * cols by {
          if cols > 0 { RowFits(rows, cols, i, 0); }
        }
        Success(RepShareView(cols, shares.data0[offset..offset + cols], shares.data1[offset..offset + cols]))
    }
  }
}
