/**
 * The level structure behind RingOA's plain wavelet matrix
 * (RingOA/wm/plain_wm.cpp): the stable zeros-then-ones partition of a level
 * by one bit, the rank-of-zeros rows stored for each bit, the sequence of
 * levels an MSB-first or an LSB-first build walks through, the flat table of
 * rows the build leaves behind, and the range filter that states what the
 * queries compute.
 *
 * Values are naturals; the matrix only looks at their low `sigma` bits.
 */
module WaveletLevels {
  import opened Bits

  /** The part of a value the matrix indexes: its low `sigma` bits. */
  function Low(v: nat, sigma: nat): (r: nat)
    ensures r < Pow2(sigma)
  {
    v % Pow2(sigma)
  }

  function Max(a: nat, b: nat): nat { if a < b then b else a }

  function Min(a: nat, b: nat): nat { if a < b then a else b }

  // ---------------------------------------------------------------------------
  // One level: the stable partition by a bit and its rank-of-zeros row
  // ---------------------------------------------------------------------------

  /** The elements of `s` whose bit `b` equals `bit`, in their original order. */
  function Bucket(s: seq<nat>, b: nat, bit: nat): (r: seq<nat>)
    ensures |r| <= |s|
  {
    if s == [] then []
    else Bucket(s[..|s| - 1], b, bit) + (if BitOf(s[|s| - 1], b) == bit then [s[|s| - 1]] else [])
  }

  /** The number of elements of `s` whose bit `b` is clear. */
  function ZeroCount(s: seq<nat>, b: nat): nat
  {
    |Bucket(s, b, 0)|
  }

  lemma {:induction false} BucketAppend(s: seq<nat>, t: seq<nat>, b: nat, bit: nat)
    ensures Bucket(s + t, b, bit) == Bucket(s, b, bit) + Bucket(t, b, bit)
    decreases |t|
  {
    if t == [] {
      assert s + t == s;
    } else {
      var t' := t[..|t| - 1];
      assert (s + t)[..|s + t| - 1] == s + t';
      assert (s + t)[|s + t| - 1] == t[|t| - 1];
      BucketAppend(s, t', b, bit);
    }
  }

  /** Every element lands in exactly one of the two buckets. */
  lemma {:induction false} BucketSizes(s: seq<nat>, b: nat)
    ensures |Bucket(s, b, 0)| + |Bucket(s, b, 1)| == |s|
  {
    if s != [] {
      BucketSizes(s[..|s| - 1], b);
      assert BitOf(s[|s| - 1], b) < 2;
    }
  }

  /** How often a value occurs in a bucket. */
  lemma {:induction false} BucketCount(s: seq<nat>, b: nat, bit: nat, v: nat)
    ensures multiset(Bucket(s, b, bit))[v] == if BitOf(v, b) == bit then multiset(s)[v] else 0
  {
    if s != [] {
      var s' := s[..|s| - 1];
      assert s == s' + [s[|s| - 1]];
      BucketCount(s', b, bit, v);
    }
  }

  /** Buckets of two rearrangements of one multiset are again rearrangements of each other. */
  lemma {:induction false} BucketSameMultiset(s: seq<nat>, t: seq<nat>, b: nat, bit: nat)
    requires multiset(s) == multiset(t)
    ensures multiset(Bucket(s, b, bit)) == multiset(Bucket(t, b, bit))
  {
    forall v: nat
      ensures multiset(Bucket(s, b, bit))[v] == multiset(Bucket(t, b, bit))[v]
    {
      BucketCount(s, b, bit, v);
      BucketCount(t, b, bit, v);
    }
  }

  /**
   * One level of the build: the elements with bit `b` clear, in order,
   * followed by the elements with bit `b` set, in order.
   */
  function Partition(s: seq<nat>, b: nat): (r: seq<nat>)
    ensures |r| == |s|
  {
    BucketSizes(s, b);
    Bucket(s, b, 0) + Bucket(s, b, 1)
  }

  /** The partition only rearranges its input. */
  lemma {:induction false} PartitionPermutes(s: seq<nat>, b: nat)
    ensures multiset(Partition(s, b)) == multiset(s)
  {
    forall v: nat
      ensures multiset(Partition(s, b))[v] == multiset(s)[v]
    {
      BucketCount(s, b, 0, v);
      BucketCount(s, b, 1, v);
      assert BitOf(v, b) < 2;
    }
  }

  /** Every element of a bucket has the bucket's bit. */
  lemma {:induction false} BucketMembers(s: seq<nat>, b: nat, bit: nat)
    ensures forall i :: 0 <= i < |Bucket(s, b, bit)| ==> BitOf(Bucket(s, b, bit)[i], b) == bit
  {
    if s != [] {
      BucketMembers(s[..|s| - 1], b, bit);
    }
  }

  /** The partition puts every element with the bit clear before every element with it set. */
  lemma {:induction false} PartitionZerosFirst(s: seq<nat>, b: nat)
    ensures forall i :: 0 <= i < |Partition(s, b)| ==>
      (BitOf(Partition(s, b)[i], b) == 0 <==> i < ZeroCount(s, b))
  {
    BucketMembers(s, b, 0);
    BucketMembers(s, b, 1);
  }

  /** The rank-of-zeros row of a level: entry i counts the clear bits among the first i elements. */
  function RankRow(s: seq<nat>, b: nat): (r: seq<nat>)
    ensures |r| == |s| + 1
  {
    seq(|s| + 1, i requires 0 <= i <= |s| => ZeroCount(s[..i], b))
  }

  /** Counting one more element adds one exactly when its bit is clear. */
  lemma {:induction false} ZeroCountStep(s: seq<nat>, b: nat, i: nat)
    requires i < |s|
    ensures BitOf(s[i], b) == 0 ==> ZeroCount(s[..i + 1], b) == ZeroCount(s[..i], b) + 1
    ensures BitOf(s[i], b) != 0 ==> ZeroCount(s[..i + 1], b) == ZeroCount(s[..i], b)
  {
    assert s[..i + 1][..i] == s[..i];
  }

  /** Entry i+1 of a row is entry i plus one exactly when element i has the bit clear. */
  predicate StepsAt(s: seq<nat>, b: nat, i: nat)
    requires i < |s|
  {
    var row := RankRow(s, b);
    (BitOf(s[i], b) == 0 && row[i + 1] == row[i] + 1) || (BitOf(s[i], b) == 1 && row[i + 1] == row[i])
  }

  /**
   * A row starts at 0, steps up by one exactly at the elements whose bit is
   * clear and otherwise stays, and ends at the level's total of clear bits.
   */
  lemma {:induction false} RankRowShape(s: seq<nat>, b: nat)
    ensures RankRow(s, b)[0] == 0
    ensures forall i :: 0 <= i < |s| ==> StepsAt(s, b, i)
    ensures RankRow(s, b)[|s|] == ZeroCount(s, b)
  {
    assert s[..|s|] == s;
    forall i | 0 <= i < |s|
      ensures StepsAt(s, b, i)
    {
      ZeroCountStep(s, b, i);
      assert BitOf(s[i], b) < 2;
      assert RankRow(s, b)[i] == ZeroCount(s[..i], b) && RankRow(s, b)[i + 1] == ZeroCount(s[..i + 1], b);
    }
  }

  /**
   * Where a window [i, j) of a level goes: its clear-bit elements form the
   * window [ZeroCount(s[..i]), ZeroCount(s[..j])) of the partition, and its
   * set-bit elements the window that starts after all clear-bit elements,
   * offset by the set bits before i.
   */
  lemma {:induction false} PartitionRange(s: seq<nat>, b: nat, i: nat, j: nat)
    requires i <= j <= |s|
    ensures ZeroCount(s[..i], b) <= ZeroCount(s[..j], b) <= ZeroCount(s, b)
    ensures ZeroCount(s[..i], b) <= i && ZeroCount(s[..j], b) - ZeroCount(s[..i], b) <= j - i
    ensures ZeroCount(s, b) + (j - ZeroCount(s[..j], b)) <= |s| == |Partition(s, b)|
    ensures Partition(s, b)[ZeroCount(s[..i], b)..ZeroCount(s[..j], b)] == Bucket(s[i..j], b, 0)
    ensures Partition(s, b)[ZeroCount(s, b) + (i - ZeroCount(s[..i], b))..ZeroCount(s, b) + (j - ZeroCount(s[..j], b))]
         == Bucket(s[i..j], b, 1)
  {
    PartitionRangeCounts(s, b, i, j);
    PartitionRangeZeros(s, b, i, j);
    PartitionRangeOnes(s, b, i, j);
  }

  /** The counting facts behind PartitionRange. */
  lemma {:induction false} PartitionRangeCounts(s: seq<nat>, b: nat, i: nat, j: nat)
    requires i <= j <= |s|
    ensures ZeroCount(s[..i], b) <= ZeroCount(s[..j], b) <= ZeroCount(s, b)
    ensures ZeroCount(s[..i], b) <= i && ZeroCount(s[..j], b) - ZeroCount(s[..i], b) <= j - i
    ensures ZeroCount(s, b) + (j - ZeroCount(s[..j], b)) <= |s| == |Partition(s, b)|
  {
    BucketThree(s, b, 0, i, j);
    BucketThree(s, b, 1, i, j);
    BucketSizes(s[..i], b);
    BucketSizes(s[i..j], b);
    BucketSizes(s[..j], b);
    BucketSizes(s, b);
  }

  /** The clear-bit half of PartitionRange. */
  lemma {:induction false} PartitionRangeZeros(s: seq<nat>, b: nat, i: nat, j: nat)
    requires i <= j <= |s|
    ensures ZeroCount(s[..i], b) <= ZeroCount(s[..j], b) <= |Partition(s, b)|
    ensures Partition(s, b)[ZeroCount(s[..i], b)..ZeroCount(s[..j], b)] == Bucket(s[i..j], b, 0)
  {
    BucketThree(s, b, 0, i, j);
    var a0, m0, e0 := Bucket(s[..i], b, 0), Bucket(s[i..j], b, 0), Bucket(s[j..], b, 0);
    var ones := Bucket(s, b, 1);
    assert Partition(s, b) == a0 + m0 + (e0 + ones);
    MiddleSlice(a0, m0, e0 + ones);
  }

  /** The set-bit half of PartitionRange. */
  lemma {:induction false} PartitionRangeOnes(s: seq<nat>, b: nat, i: nat, j: nat)
    requires i <= j <= |s|
    ensures ZeroCount(s, b) + (i - ZeroCount(s[..i], b)) <= ZeroCount(s, b) + (j - ZeroCount(s[..j], b)) <= |Partition(s, b)|
    ensures Partition(s, b)[ZeroCount(s, b) + (i - ZeroCount(s[..i], b))..ZeroCount(s, b) + (j - ZeroCount(s[..j], b))]
         == Bucket(s[i..j], b, 1)
  {
    BucketThree(s, b, 1, i, j);
    BucketSizes(s[..i], b);
    BucketSizes(s[..j], b);
    BucketSizes(s, b);
    var a1, m1, e1 := Bucket(s[..i], b, 1), Bucket(s[i..j], b, 1), Bucket(s[j..], b, 1);
    var zeros := Bucket(s, b, 0);
    assert Partition(s, b) == (zeros + a1) + m1 + e1;
    MiddleSlice(zeros + a1, m1, e1);
  }

  /** Cutting a level at i and j cuts each of its buckets at the matching places. */
  lemma {:induction false} BucketThree(s: seq<nat>, b: nat, bit: nat, i: nat, j: nat)
    requires i <= j <= |s|
    ensures Bucket(s[..j], b, bit) == Bucket(s[..i], b, bit) + Bucket(s[i..j], b, bit)
    ensures Bucket(s, b, bit) == Bucket(s[..j], b, bit) + Bucket(s[j..], b, bit)
  {
    assert s[..j] == s[..i] + s[i..j];
    assert s == s[..j] + s[j..];
    BucketAppend(s[..i], s[i..j], b, bit);
    BucketAppend(s[..j], s[j..], b, bit);
  }

  /** The middle part of a three-way concatenation, cut out again. */
  lemma MiddleSlice(x: seq<nat>, y: seq<nat>, w: seq<nat>)
    ensures (x + y + w)[|x|..|x| + |y|] == y
  {
  }

  /** The single-element case: where the element at position i of a level goes. */
  lemma {:induction false} PartitionPos(s: seq<nat>, b: nat, i: nat)
    requires i < |s|
    ensures ZeroCount(s[..i], b) <= i && ZeroCount(s[..i], b) <= ZeroCount(s, b)
    ensures BitOf(s[i], b) == 0 ==>
      ZeroCount(s[..i], b) < ZeroCount(s, b) && Partition(s, b)[ZeroCount(s[..i], b)] == s[i]
    ensures BitOf(s[i], b) != 0 ==>
      ZeroCount(s, b) + (i - ZeroCount(s[..i], b)) < |s| &&
      Partition(s, b)[ZeroCount(s, b) + (i - ZeroCount(s[..i], b))] == s[i]
  {
    PartitionRange(s, b, i, i + 1);
    ZeroCountStep(s, b, i);
    assert s[i..i + 1] == [] + [s[i]];
  }

  // ---------------------------------------------------------------------------
  // The levels of a build and the flat table of rows
  // ---------------------------------------------------------------------------

  /**
   * MSB-first build: the level on which the row for bit lvl-1 is computed.
   * The top level is the data itself; each lower level is the partition of
   * the one above by that level's bit.
   */
  function MsbStage(data: seq<nat>, sigma: nat, lvl: nat): (r: seq<nat>)
    requires lvl <= sigma
    ensures |r| == |data|
    decreases sigma - lvl
  {
    if lvl == sigma then data else Partition(MsbStage(data, sigma, lvl + 1), lvl)
  }

  /** LSB-first build: the level on which the row for bit b is computed. */
  function LsbStage(data: seq<nat>, b: nat): (r: seq<nat>)
    ensures |r| == |data|
  {
    if b == 0 then data else Partition(LsbStage(data, b - 1), b - 1)
  }

  /** Every MSB-first level holds the data, rearranged. */
  lemma {:induction false} MsbStagePermutes(data: seq<nat>, sigma: nat, lvl: nat)
    requires lvl <= sigma
    ensures multiset(MsbStage(data, sigma, lvl)) == multiset(data)
    decreases sigma - lvl
  {
    if lvl < sigma {
      MsbStagePermutes(data, sigma, lvl + 1);
      PartitionPermutes(MsbStage(data, sigma, lvl + 1), lvl);
    }
  }

  /** Every LSB-first level holds the data, rearranged. */
  lemma {:induction false} LsbStagePermutes(data: seq<nat>, b: nat)
    ensures multiset(LsbStage(data, b)) == multiset(data)
  {
    if b > 0 {
      var c: nat := b - 1;
      var prev := LsbStage(data, c);
      var cur := LsbStage(data, b);
      assert cur == Partition(prev, c);
      LsbStagePermutes(data, c);
      PartitionPermutes(prev, c);
    }
  }

  /** A run of n zero entries: a table before any row is filled in. */
  function Zeroes(n: nat): (r: seq<nat>)
    ensures |r| == n && forall k :: 0 <= k < n ==> r[k] == 0
  {
    seq(n, _ => 0)
  }

  /** The rows for bits lvl .. sigma-1 of an MSB-first table, in bit order. */
  function MsbTable(data: seq<nat>, sigma: nat, lvl: nat): seq<nat>
    requires lvl <= sigma
    decreases sigma - lvl
  {
    if lvl == sigma then []
    else RankRow(MsbStage(data, sigma, lvl + 1), lvl) + MsbTable(data, sigma, lvl + 1)
  }

  /** The rows for bits 0 .. n-1 of an LSB-first table, in bit order. */
  function LsbRows(data: seq<nat>, n: nat): seq<nat>
  {
    if n == 0 then [] else LsbRows(data, n - 1) + RankRow(LsbStage(data, n - 1), n - 1)
  }

  lemma {:induction false} Distribute(a: nat, b: nat, stride: nat)
    ensures (a + b) * stride == a * stride + b * stride
  {
  }

  /** An MSB-first table from level lvl holds sigma - lvl rows of length + 1 entries. */
  lemma {:induction false} MsbTableSize(data: seq<nat>, sigma: nat, lvl: nat, rows: nat)
    requires lvl <= sigma && rows == sigma - lvl
    ensures |MsbTable(data, sigma, lvl)| == rows * (|data| + 1)
    decreases rows
  {
    if lvl < sigma {
      var stride := |data| + 1;
      var row := RankRow(MsbStage(data, sigma, lvl + 1), lvl);
      var rest := MsbTable(data, sigma, lvl + 1);
      assert MsbTable(data, sigma, lvl) == row + rest;
      MsbTableSize(data, sigma, lvl + 1, rows - 1);
      Distribute(rows - 1, 1, stride);
    }
  }

  /** The first n rows of an LSB-first table hold n rows of length + 1 entries. */
  lemma {:induction false} LsbRowsSize(data: seq<nat>, n: nat)
    ensures |LsbRows(data, n)| == n * (|data| + 1)
  {
    if n > 0 {
      LsbRowsSize(data, n - 1);
      Distribute(n - 1, 1, |data| + 1);
    }
  }

  /** Entry i of the row for bit b sits at k = b*(length+1) + i of an MSB-first table. */
  lemma {:induction false} MsbTableAt(data: seq<nat>, sigma: nat, b: nat, i: nat, k: nat)
    requires b < sigma && i <= |data| && k == b * (|data| + 1) + i
    ensures k < |MsbTable(data, sigma, 0)|
    ensures MsbTable(data, sigma, 0)[k] == ZeroCount(MsbStage(data, sigma, b + 1)[..i], b)
  {
    MsbTableFrom(data, sigma, 0, b, i, k);
  }

  lemma {:induction false} MsbTableFrom(data: seq<nat>, sigma: nat, lvl: nat, b: nat, i: nat, k: nat)
    requires lvl <= b < sigma && i <= |data| && k == (b - lvl) * (|data| + 1) + i
    ensures k < |MsbTable(data, sigma, lvl)|
    ensures MsbTable(data, sigma, lvl)[k] == ZeroCount(MsbStage(data, sigma, b + 1)[..i], b)
    decreases b - lvl
  {
    var stride := |data| + 1;
    var row := RankRow(MsbStage(data, sigma, lvl + 1), lvl);
    var rest := MsbTable(data, sigma, lvl + 1);
    assert MsbTable(data, sigma, lvl) == row + rest;
    if b == lvl {
      StrideBase(b, lvl, stride, i, k);
    } else {
      StrideStep(b, lvl, stride, i, k);
      MsbTableFrom(data, sigma, lvl + 1, b, i, k - stride);
    }
  }

  /** Rows with equal numbers count the same. */
  lemma SameRowCount(data: seq<nat>, b: nat, b': nat, i: nat)
    requires b == b' && i <= |data|
    ensures ZeroCount(LsbStage(data, b)[..i], b) == RankRow(LsbStage(data, b'), b')[i]
  {
  }

  /** Offset arithmetic of MsbTableFrom at its own row. */
  lemma StrideBase(b: nat, lvl: nat, stride: nat, i: nat, k: nat)
    requires b == lvl && k == (b - lvl) * stride + i
    ensures k == i
  {
  }

  /** Offset arithmetic of MsbTableFrom below its own row: skipping one row of `stride` entries. */
  lemma StrideStep(b: nat, lvl: nat, stride: nat, i: nat, k: nat)
    requires lvl < b && k == (b - lvl) * stride + i
    ensures stride <= k && k - stride == (b - (lvl + 1)) * stride + i
  {
    Distribute(b - (lvl + 1), 1, stride);
  }

  /** Entry i of the row for bit b sits at k = b*(length+1) + i of an LSB-first table. */
  lemma {:induction false} LsbRowsAt(data: seq<nat>, n: nat, b: nat, i: nat, k: nat)
    requires b < n && i <= |data| && k == b * (|data| + 1) + i
    ensures k < |LsbRows(data, n)|
    ensures LsbRows(data, n)[k] == ZeroCount(LsbStage(data, b)[..i], b)
  {
    if b == n - 1 {
      LsbRowsLast(data, n, b, i, k);
    } else {
      LsbRowsAt(data, n - 1, b, i, k);
      LsbRowsKeep(data, n, b, i, k);
    }
  }

  /** The last row of the first n: entry i sits right after the n-1 rows before it. */
  lemma {:induction false} LsbRowsLast(data: seq<nat>, n: nat, b: nat, i: nat, k: nat)
    requires b + 1 == n && i <= |data| && k == b * (|data| + 1) + i
    ensures k < |LsbRows(data, n)|
    ensures LsbRows(data, n)[k] == ZeroCount(LsbStage(data, b)[..i], b)
  {
    var prefix := LsbRows(data, n - 1);
    var row := RankRow(LsbStage(data, n - 1), n - 1);
    assert LsbRows(data, n) == prefix + row;
    LsbRowsSize(data, n - 1);
    LastOffset(b, n - 1, |data| + 1, i, k);
    ConcatAt(prefix, row, k, i);
    SameRowCount(data, b, n - 1, i);
  }

  /** Appending row n-1 leaves the entries of the earlier rows where they were. */
  lemma {:induction false} LsbRowsKeep(data: seq<nat>, n: nat, b: nat, i: nat, k: nat)
    requires b + 1 < n && i <= |data| && k == b * (|data| + 1) + i
    requires k < |LsbRows(data, n - 1)|
    ensures k < |LsbRows(data, n)| && LsbRows(data, n)[k] == LsbRows(data, n - 1)[k]
  {
    var prefix := LsbRows(data, n - 1);
    var row := RankRow(LsbStage(data, n - 1), n - 1);
    assert LsbRows(data, n) == prefix + row;
    ConcatBefore(prefix, row, k);
  }

  lemma LastOffset(b: nat, last: nat, stride: nat, i: nat, k: nat)
    requires b == last && k == b * stride + i
    ensures k == last * stride + i
  {
  }

  /** Past the end of the first part, a concatenation reads the second. */
  lemma ConcatAt(p: seq<nat>, r: seq<nat>, k: nat, j: nat)
    requires k == |p| + j && j < |r|
    ensures k < |p + r| && (p + r)[k] == r[j]
  {
  }

  /** Before the end of the first part, a concatenation reads the first. */
  lemma ConcatBefore(p: seq<nat>, r: seq<nat>, k: nat)
    requires k < |p|
    ensures k < |p + r| && (p + r)[k] == p[k]
  {
  }

  // ---------------------------------------------------------------------------
  // The range filter the queries are specified by
  // ---------------------------------------------------------------------------

  /** The elements of `s` whose low `sigma` bits lie in [lo, hi), in order. */
  function Within(s: seq<nat>, lo: nat, hi: nat, sigma: nat): (r: seq<nat>)
    ensures |r| <= |s|
  {
    if s == [] then []
    else Within(s[..|s| - 1], lo, hi, sigma) + (if lo <= Low(s[|s| - 1], sigma) < hi then [s[|s| - 1]] else [])
  }

  /** How often v occurs among the data whose low bits equal v's: v's frequency. */
  function Occ(s: seq<nat>, v: nat, sigma: nat): nat
  {
    |Within(s, v, v + 1, sigma)|
  }

  lemma {:induction false} WithinAppend(s: seq<nat>, t: seq<nat>, lo: nat, hi: nat, sigma: nat)
    ensures Within(s + t, lo, hi, sigma) == Within(s, lo, hi, sigma) + Within(t, lo, hi, sigma)
    decreases |t|
  {
    if t == [] {
      assert s + t == s;
    } else {
      var t' := t[..|t| - 1];
      assert (s + t)[..|s + t| - 1] == s + t';
      assert (s + t)[|s + t| - 1] == t[|t| - 1];
      WithinAppend(s, t', lo, hi, sigma);
    }
  }

  lemma {:induction false} WithinCount(s: seq<nat>, lo: nat, hi: nat, sigma: nat, v: nat)
    ensures multiset(Within(s, lo, hi, sigma))[v] == if lo <= Low(v, sigma) < hi then multiset(s)[v] else 0
  {
    if s != [] {
      var s' := s[..|s| - 1];
      assert s == s' + [s[|s| - 1]];
      WithinCount(s', lo, hi, sigma, v);
    }
  }

  /** Filtering two rearrangements of one multiset gives rearrangements of each other. */
  lemma {:induction false} WithinSameMultiset(s: seq<nat>, t: seq<nat>, lo: nat, hi: nat, sigma: nat)
    requires multiset(s) == multiset(t)
    ensures multiset(Within(s, lo, hi, sigma)) == multiset(Within(t, lo, hi, sigma))
    ensures |Within(s, lo, hi, sigma)| == |Within(t, lo, hi, sigma)|
  {
    forall v: nat
      ensures multiset(Within(s, lo, hi, sigma))[v] == multiset(Within(t, lo, hi, sigma))[v]
    {
      WithinCount(s, lo, hi, sigma, v);
      WithinCount(t, lo, hi, sigma, v);
    }
    assert |multiset(Within(s, lo, hi, sigma))| == |Within(s, lo, hi, sigma)|;
    assert |multiset(Within(t, lo, hi, sigma))| == |Within(t, lo, hi, sigma)|;
  }

  /** Filtering twice is filtering once by the intersection of the two ranges. */
  lemma {:induction false} WithinNested(s: seq<nat>, a: nat, b: nat, c: nat, d: nat, sigma: nat)
    ensures Within(Within(s, a, b, sigma), c, d, sigma) == Within(s, Max(a, c), Min(b, d), sigma)
  {
    if s != [] {
      var s' := s[..|s| - 1];
      var e := s[|s| - 1];
      WithinNested(s', a, b, c, d, sigma);
      var inner := Within(s', a, b, sigma);
      if a <= Low(e, sigma) < b {
        assert Within(s, a, b, sigma) == inner + [e];
        assert (inner + [e])[..|inner + [e]| - 1] == inner;
      } else {
        assert Within(s, a, b, sigma) == inner;
      }
    }
  }

  /** An empty range keeps nothing. */
  lemma {:induction false} WithinEmpty(s: seq<nat>, lo: nat, hi: nat, sigma: nat)
    requires hi <= lo
    ensures Within(s, lo, hi, sigma) == []
  {
    if s != [] {
      WithinEmpty(s[..|s| - 1], lo, hi, sigma);
    }
  }

  /** A range covering every element keeps everything. */
  lemma {:induction false} WithinAll(s: seq<nat>, lo: nat, hi: nat, sigma: nat)
    requires forall i :: 0 <= i < |s| ==> lo <= Low(s[i], sigma) < hi
    ensures Within(s, lo, hi, sigma) == s
  {
    if s != [] {
      WithinAll(s[..|s| - 1], lo, hi, sigma);
    }
  }

  /** Every value is below 2^sigma in its low bits, so that range keeps everything. */
  lemma {:induction false} WithinFull(s: seq<nat>, sigma: nat)
    ensures Within(s, 0, Pow2(sigma), sigma) == s
  {
    WithinAll(s, 0, Pow2(sigma), sigma);
  }

  /** Counting over [a, c) is counting over [a, b) and then over [b, c). */
  lemma {:induction false} WithinAdjacent(s: seq<nat>, a: nat, b: nat, c: nat, sigma: nat)
    requires a <= b <= c
    ensures |Within(s, a, c, sigma)| == |Within(s, a, b, sigma)| + |Within(s, b, c, sigma)|
  {
    if s != [] {
      WithinAdjacent(s[..|s| - 1], a, b, c, sigma);
    }
  }

  /** Splitting by a bit does not change how many elements fall in a range. */
  lemma {:induction false} WithinBucketsCount(s: seq<nat>, b: nat, lo: nat, hi: nat, sigma: nat)
    ensures |Within(s, lo, hi, sigma)|
         == |Within(Bucket(s, b, 0), lo, hi, sigma)| + |Within(Bucket(s, b, 1), lo, hi, sigma)|
  {
    if s != [] {
      var s' := s[..|s| - 1];
      var e := s[|s| - 1];
      WithinBucketsCount(s', b, lo, hi, sigma);
      WithinAppend(Bucket(s', b, 0), if BitOf(e, b) == 0 then [e] else [], lo, hi, sigma);
      WithinAppend(Bucket(s', b, 1), if BitOf(e, b) == 1 then [e] else [], lo, hi, sigma);
      assert BitOf(e, b) < 2;
      assert [e][..0] == [];
    }
  }

  /**
   * Bit b of a value in the aligned bucket [p, p + 2^(b+1)) tells which half
   * of the bucket it falls in.
   */
  lemma {:induction false} BitSplit(v: nat, p: nat, b: nat, sigma: nat)
    requires b < sigma && p % Pow2(b + 1) == 0
    requires p <= Low(v, sigma) < p + Pow2(b + 1)
    ensures BitOf(v, b) == 0 <==> Low(v, sigma) < p + Pow2(b)
  {
    var h := Pow2(b);
    assert Pow2(b + 1) == 2 * h;
    Pow2Add(b + 1, sigma - (b + 1));
    var m := Pow2(sigma - (b + 1));
    assert Pow2(sigma) == (2 * h) * m;
    ModOfMultipleMod(v, 2 * h, m);
    var low := Low(v, sigma);
    var t := low - p;
    assert p == (2 * h) * (p / (2 * h));
    DivModUnique(low, 2 * h, p / (2 * h), t);
    ModDivBit(v, h);
    assert BitOf(v, b) == t / h;
    if t < h {
      DivModUnique(t, h, 0, t);
    } else {
      DivModUnique(t, h, 1, t - h);
    }
  }

  /**
   * Splitting the elements of an aligned bucket [p, p + 2^(b+1)) by bit b
   * gives exactly its lower half and its upper half.
   */
  lemma {:induction false} WithinBuckets(s: seq<nat>, p: nat, b: nat, sigma: nat)
    requires b < sigma && p % Pow2(b + 1) == 0
    ensures Bucket(Within(s, p, p + Pow2(b + 1), sigma), b, 0) == Within(s, p, p + Pow2(b), sigma)
    ensures Bucket(Within(s, p, p + Pow2(b + 1), sigma), b, 1) == Within(s, p + Pow2(b), p + Pow2(b + 1), sigma)
  {
    assert Pow2(b + 1) == 2 * Pow2(b);
    if s != [] {
      var s' := s[..|s| - 1];
      var e := s[|s| - 1];
      WithinBuckets(s', p, b, sigma);
      var w := Within(s', p, p + Pow2(b + 1), sigma);
      if p <= Low(e, sigma) < p + Pow2(b + 1) {
        BitSplit(e, p, b, sigma);
        assert Within(s, p, p + Pow2(b + 1), sigma) == w + [e];
        assert (w + [e])[..|w + [e]| - 1] == w;
        assert BitOf(e, b) < 2;
      } else {
        assert Within(s, p, p + Pow2(b + 1), sigma) == w;
      }
    }
  }

  /** No element of a filtered sequence lies outside the range. */
  lemma {:induction false} WithinMembers(s: seq<nat>, lo: nat, hi: nat, sigma: nat)
    ensures forall i :: 0 <= i < |Within(s, lo, hi, sigma)| ==> lo <= Low(Within(s, lo, hi, sigma)[i], sigma) < hi
  {
    if s != [] {
      WithinMembers(s[..|s| - 1], lo, hi, sigma);
    }
  }

  /** Nothing is filtered out exactly when every element lies in the range. */
  lemma {:induction false} WithinKeepsAll(s: seq<nat>, lo: nat, hi: nat, sigma: nat)
    ensures |Within(s, lo, hi, sigma)| == |s| <==> forall i :: 0 <= i < |s| ==> lo <= Low(s[i], sigma) < hi
  {
    if s != [] {
      var s' := s[..|s| - 1];
      WithinKeepsAll(s', lo, hi, sigma);
      if |Within(s, lo, hi, sigma)| == |s| {
        assert |Within(s', lo, hi, sigma)| == |s'|;
      }
    }
  }

  /** Nothing is kept exactly when no element lies in the range. */
  lemma {:induction false} WithinKeepsNone(s: seq<nat>, lo: nat, hi: nat, sigma: nat)
    ensures |Within(s, lo, hi, sigma)| == 0 <==> forall i :: 0 <= i < |s| ==> !(lo <= Low(s[i], sigma) < hi)
  {
    if s != [] {
      WithinKeepsNone(s[..|s| - 1], lo, hi, sigma);
    }
  }

  // ---------------------------------------------------------------------------
  // Descending the matrix from the most significant bit
  // ---------------------------------------------------------------------------

  /**
   * Deciding bit b of a prefix whose bits below b+1 are clear: with the
   * bit clear or set, the prefix stays a multiple of 2^b below its bound,
   * and setting it by or-ing adds 2^b.
   */
  lemma {:induction false} PrefixStep(prefix: nat, b: nat, sigma: nat)
    requires prefix % Pow2(b + 1) == 0 && prefix + Pow2(b + 1) <= Pow2(sigma)
    ensures prefix % Pow2(b) == 0 && prefix + Pow2(b) <= Pow2(sigma)
    ensures Or(prefix, Pow2(b)) == prefix + Pow2(b)
    ensures (prefix + Pow2(b)) % Pow2(b) == 0 && prefix + Pow2(b) + Pow2(b) <= Pow2(sigma)
  {
    AlignedHalves(prefix, b);
    OrFreshBit(prefix, b);
  }

  /** PrefixStep for a set bit, with the new prefix named `next`. */
  lemma {:induction false} PrefixSet(prefix: nat, next: nat, b: nat, sigma: nat)
    requires prefix % Pow2(b + 1) == 0 && prefix + Pow2(b + 1) <= Pow2(sigma) && next == Or(prefix, Pow2(b))
    ensures next == prefix + Pow2(b) && next % Pow2(b) == 0 && next + Pow2(b) <= Pow2(sigma)
  {
    PrefixStep(prefix, b, sigma);
  }

  /** Zero is a multiple of every power of two. */
  lemma ZeroAligned(k: nat)
    ensures 0 % Pow2(k) == 0
  {
  }

  /** An aligned bucket of width 2^(b+1) splits into two aligned halves of width 2^b. */
  lemma {:induction false} AlignedHalves(prefix: nat, b: nat)
    requires prefix % Pow2(b + 1) == 0
    ensures Pow2(b + 1) == 2 * Pow2(b)
    ensures prefix % Pow2(b) == 0 && (prefix + Pow2(b)) % Pow2(b) == 0
  {
    var h := Pow2(b);
    assert Pow2(b + 1) == 2 * h;
    var q := prefix / (2 * h);
    assert prefix == (2 * h) * q;
    DivModUnique(prefix, h, 2 * q, 0);
    DivModUnique(prefix + h, h, 2 * q + 1, 0);
  }

  /** Bit b of x is the step from x mod 2^b to x mod 2^(b+1). */
  lemma {:induction false} ModSplit(x: nat, b: nat)
    ensures Low(x, b + 1) == Low(x, b) + BitOf(x, b) * Pow2(b)
  {
    var h := Pow2(b);
    assert Pow2(b + 1) == 2 * h;
    ModDivBit(x, h);
    ModOfMultipleMod(x, h, 2);
    assert h * 2 == 2 * h;
    var y := x % (2 * h);
    assert y == h * (y / h) + y % h;
  }

  /** Adding bit b to the low b bits: nothing when it is clear, 2^b when it is set. */
  lemma LowStep(x: nat, b: nat)
    ensures BitOf(x, b) == 0 ==> Low(x, b + 1) == Low(x, b)
    ensures BitOf(x, b) != 0 ==> BitOf(x, b) == 1 && Low(x, b + 1) == Low(x, b) + Pow2(b)
  {
    ModSplit(x, b);
  }

  /**
   * The invariant of the MSB-first descents: the window [left, right) of a
   * level holds exactly the values of `vals` whose low bits fall in the
   * bucket [prefix, prefix + 2^lvl); the descents keep prefix a multiple
   * of 2^lvl alongside.
   */
  ghost predicate Holds(stage: seq<nat>, left: nat, right: nat, vals: seq<nat>, prefix: nat, lvl: nat, sigma: nat)
  {
    left <= right <= |stage| &&
    multiset(stage[left..right]) == multiset(Within(vals, prefix, prefix + Pow2(lvl), sigma))
  }

  /** At the top every window holds what it holds: all values lie in [0, 2^sigma). */
  lemma {:induction false} HoldsAtTop(data: seq<nat>, l: nat, r: nat, sigma: nat)
    requires l <= r <= |data|
    ensures Holds(MsbStage(data, sigma, sigma), l, r, data[l..r], 0, sigma, sigma)
  {
    WithinFull(data[l..r], sigma);
  }

  /**
   * The clear-bit part of a window that holds the aligned bucket
   * [prefix, prefix + 2^(b+1)) holds the lower half of that bucket.
   */
  lemma {:induction false} LowerHalf(window: seq<nat>, vals: seq<nat>, prefix: nat, b: nat, sigma: nat)
    requires b < sigma && prefix % Pow2(b + 1) == 0
    requires multiset(window) == multiset(Within(vals, prefix, prefix + Pow2(b + 1), sigma))
    ensures multiset(Bucket(window, b, 0)) == multiset(Within(vals, prefix, prefix + Pow2(b), sigma))
    ensures |Bucket(window, b, 0)| == |Within(vals, prefix, prefix + Pow2(b), sigma)|
  {
    WithinBuckets(vals, prefix, b, sigma);
    BucketSameMultiset(window, Within(vals, prefix, prefix + Pow2(b + 1), sigma), b, 0);
    assert |multiset(Bucket(window, b, 0))| == |Bucket(window, b, 0)|;
    assert |multiset(Within(vals, prefix, prefix + Pow2(b), sigma))| == |Within(vals, prefix, prefix + Pow2(b), sigma)|;
  }

  /**
   * The set-bit part of a window that holds the aligned bucket
   * [prefix, prefix + 2^(b+1)) holds the upper half of that bucket.
   */
  lemma {:induction false} UpperHalf(window: seq<nat>, vals: seq<nat>, prefix: nat, b: nat, sigma: nat)
    requires b < sigma && prefix % Pow2(b + 1) == 0
    requires multiset(window) == multiset(Within(vals, prefix, prefix + Pow2(b + 1), sigma))
    ensures multiset(Bucket(window, b, 1)) == multiset(Within(vals, prefix + Pow2(b), prefix + Pow2(b) + Pow2(b), sigma))
  {
    WithinBuckets(vals, prefix, b, sigma);
    BucketSameMultiset(window, Within(vals, prefix, prefix + Pow2(b + 1), sigma), b, 1);
    assert Pow2(b + 1) == Pow2(b) + Pow2(b);
  }

  /**
   * One step down at bit b, clear-bit side: the clear-bit part of the window
   * goes to the window [ZeroCount(..left), ZeroCount(..right)) of the next
   * level and holds the lower half of the bucket.
   */
  lemma {:induction false} DescendZero(stage: seq<nat>, b: nat, left: nat, right: nat, vals: seq<nat>, prefix: nat, sigma: nat)
    requires b < sigma && prefix % Pow2(b + 1) == 0
    requires Holds(stage, left, right, vals, prefix, b + 1, sigma)
    ensures ZeroCount(stage[..right], b) - ZeroCount(stage[..left], b) == |Within(vals, prefix, prefix + Pow2(b), sigma)|
    ensures Holds(Partition(stage, b), ZeroCount(stage[..left], b), ZeroCount(stage[..right], b), vals, prefix, b, sigma)
  {
    PartitionRange(stage, b, left, right);
    AlignedHalves(prefix, b);
    LowerHalf(stage[left..right], vals, prefix, b, sigma);
  }

  /**
   * One step down at bit b, set-bit side, with the row's counts named: zl
   * and zr at the window's ends, tz over the whole level. The set-bit part
   * of the window lands at [nl, nr), behind all clear bits of the level,
   * and holds the upper half of the bucket.
   */
  lemma {:induction false} DescendOne(stage: seq<nat>, b: nat, left: nat, right: nat, vals: seq<nat>, prefix: nat, sigma: nat, zl: nat, zr: nat, tz: nat, nl: nat, nr: nat)
    requires b < sigma && prefix % Pow2(b + 1) == 0
    requires Holds(stage, left, right, vals, prefix, b + 1, sigma)
    requires zl == ZeroCount(stage[..left], b) && zr == ZeroCount(stage[..right], b) && tz == ZeroCount(stage, b)
    requires nl == tz + (left - zl) && nr == tz + (right - zr)
    ensures Holds(Partition(stage, b), nl, nr, vals, prefix + Pow2(b), b, sigma)
  {
    OnesWindow(stage, b, left, right, zl, zr, tz, nl, nr);
    UpperHalf(stage[left..right], vals, prefix, b, sigma);
  }

  /** PartitionRangeOnes with the window's new ends named. */
  lemma {:induction false} OnesWindow(stage: seq<nat>, b: nat, left: nat, right: nat, zl: nat, zr: nat, tz: nat, nl: nat, nr: nat)
    requires left <= right <= |stage|
    requires zl == ZeroCount(stage[..left], b) && zr == ZeroCount(stage[..right], b) && tz == ZeroCount(stage, b)
    requires nl == tz + (left - zl) && nr == tz + (right - zr)
    ensures nl <= nr <= |Partition(stage, b)| && Partition(stage, b)[nl..nr] == Bucket(stage[left..right], b, 1)
  {
    PartitionRangeOnes(stage, b, left, right);
  }

  /** The bucket from prefix + 2^b, named by its start `mid`: what a window holds and how many values lie below it. */
  lemma HoldsShift(stage: seq<nat>, left: nat, right: nat, vals: seq<nat>, prefix: nat, mid: nat, b: nat, sigma: nat)
    requires mid == prefix + Pow2(b)
    requires Holds(stage, left, right, vals, prefix + Pow2(b), b, sigma)
    ensures Holds(stage, left, right, vals, mid, b, sigma)
    ensures Within(vals, prefix, mid, sigma) == Within(vals, prefix, prefix + Pow2(b), sigma)
  {
  }

  /** At the bottom a window's width is the frequency of the bucket's single value. */
  lemma {:induction false} HoldsAtBottom(stage: seq<nat>, left: nat, right: nat, vals: seq<nat>, prefix: nat, sigma: nat)
    requires Holds(stage, left, right, vals, prefix, 0, sigma)
    ensures right - left == Occ(vals, prefix, sigma)
  {
    assert |multiset(stage[left..right])| == right - left;
  }

  // ---------------------------------------------------------------------------
  // Order statistics
  // ---------------------------------------------------------------------------

  /**
   * q is the k-th smallest (from 0) of the low bits of `vals`: fewer than or
   * exactly k values lie below q, and more than k lie at or below q.
   */
  predicate IsKth(vals: seq<nat>, k: nat, q: nat, sigma: nat)
  {
    |Within(vals, 0, q, sigma)| <= k < |Within(vals, 0, q + 1, sigma)|
  }

  /** At most one value is the k-th smallest. */
  lemma {:induction false} KthUnique(vals: seq<nat>, k: nat, q1: nat, q2: nat, sigma: nat)
    requires IsKth(vals, k, q1, sigma) && IsKth(vals, k, q2, sigma)
    ensures q1 == q2
  {
    if q1 < q2 {
      WithinAdjacent(vals, 0, q1 + 1, q2, sigma);
    } else if q2 < q1 {
      WithinAdjacent(vals, 0, q2 + 1, q1, sigma);
    }
  }

  /** The k-th smallest occurs among the values. */
  lemma {:induction false} KthOccurs(vals: seq<nat>, k: nat, q: nat, sigma: nat)
    requires IsKth(vals, k, q, sigma)
    ensures Occ(vals, q, sigma) > 0
    ensures exists i :: 0 <= i < |vals| && Low(vals[i], sigma) == q
  {
    WithinAdjacent(vals, 0, q, q + 1, sigma);
    WithinKeepsNone(vals, q, q + 1, sigma);
  }

  /** The 0-th smallest is the minimum. */
  lemma {:induction false} KthFirstIsMin(vals: seq<nat>, q: nat, sigma: nat)
    requires IsKth(vals, 0, q, sigma)
    ensures exists i :: 0 <= i < |vals| && Low(vals[i], sigma) == q
    ensures forall i :: 0 <= i < |vals| ==> q <= Low(vals[i], sigma)
  {
    KthOccurs(vals, 0, q, sigma);
    WithinKeepsNone(vals, 0, q, sigma);
  }

  /** The (n-1)-th smallest of n values is the maximum. */
  lemma {:induction false} KthLastIsMax(vals: seq<nat>, q: nat, sigma: nat)
    requires |vals| > 0 && IsKth(vals, |vals| - 1, q, sigma)
    ensures exists i :: 0 <= i < |vals| && Low(vals[i], sigma) == q
    ensures forall i :: 0 <= i < |vals| ==> Low(vals[i], sigma) <= q
  {
    KthOccurs(vals, |vals| - 1, q, sigma);
    WithinKeepsAll(vals, 0, q + 1, sigma);
  }

  // ---------------------------------------------------------------------------
  // Ascending from the least significant bit: the LF step of an FM-index
  // ---------------------------------------------------------------------------

  /**
   * The invariant of the LSB-first walk for symbol c from position pos: after
   * b levels the position p splits the level into the values whose low b bits
   * are below c's, followed by those among data[..pos] whose low b bits equal c's.
   */
  ghost predicate LfHolds(stage: seq<nat>, p: nat, data: seq<nat>, pos: nat, c: nat, b: nat)
  {
    p <= |stage| && pos <= |data| &&
    multiset(stage[..p]) == multiset(Within(data, 0, Low(c, b), b)) + multiset(Within(data[..pos], Low(c, b), Low(c, b) + 1, b))
  }

  /** Before any level the walk starts at pos itself. */
  lemma {:induction false} LfStart(data: seq<nat>, pos: nat, c: nat)
    requires pos <= |data|
    ensures LfHolds(LsbStage(data, 0), pos, data, pos, c, 0)
  {
    assert Pow2(0) == 1;
    WithinEmpty(data, 0, Low(c, 0), 0);
    forall i | 0 <= i < |data[..pos]|
      ensures Low(c, 0) <= Low(data[..pos][i], 0) < Low(c, 0) + 1
    {
    }
    WithinAll(data[..pos], Low(c, 0), Low(c, 0) + 1, 0);
  }

  /** The prefix of a partition up to the set-bit window of a level prefix. */
  lemma {:induction false} PartitionPrefixOnes(s: seq<nat>, b: nat, p: nat)
    requires p <= |s|
    ensures ZeroCount(s, b) + (p - ZeroCount(s[..p], b)) <= |s|
    ensures Partition(s, b)[..ZeroCount(s, b) + (p - ZeroCount(s[..p], b))] == Bucket(s, b, 0) + Bucket(s[..p], b, 1)
  {
    PartitionRangeCounts(s, b, 0, p);
    PartitionRangeOnes(s, b, 0, p);
    assert s[..0] == [];
    assert s[0..p] == s[..p];
    var zeros := Bucket(s, b, 0);
    assert Partition(s, b)[..ZeroCount(s, b)] == zeros;
  }

  /** The prefix of a partition up to the clear-bit window of a level prefix. */
  lemma {:induction false} PartitionPrefixZeros(s: seq<nat>, b: nat, p: nat)
    requires p <= |s|
    ensures ZeroCount(s[..p], b) <= |s|
    ensures Partition(s, b)[..ZeroCount(s[..p], b)] == Bucket(s[..p], b, 0)
  {
    PartitionRangeZeros(s, b, 0, p);
    assert s[..0] == [];
    assert s[0..p] == s[..p];
  }

  /** Counting form of the LF invariant, value by value. */
  lemma {:induction false} LfCount(stage: seq<nat>, p: nat, data: seq<nat>, pos: nat, c: nat, b: nat, v: nat)
    requires LfHolds(stage, p, data, pos, c, b)
    ensures multiset(stage[..p])[v] ==
      (if Low(v, b) < Low(c, b) then multiset(data)[v] else 0) +
      (if Low(v, b) == Low(c, b) then multiset(data[..pos])[v] else 0)
  {
    var below := multiset(Within(data, 0, Low(c, b), b));
    var equal := multiset(Within(data[..pos], Low(c, b), Low(c, b) + 1, b));
    assert multiset(stage[..p]) == below + equal;
    WithinCount(data, 0, Low(c, b), b, v);
    WithinCount(data[..pos], Low(c, b), Low(c, b) + 1, b, v);
    assert multiset(stage[..p])[v] == below[v] + equal[v];
  }

  /** Value by value, the clear-bit step keeps exactly the counts the next invariant asks for. */
  lemma {:induction false} LfPointZero(v: nat, c: nat, b: nat, inData: nat, inPos: nat, inPrefix: nat)
    requires BitOf(c, b) == 0
    requires inPrefix == (if Low(v, b) < Low(c, b) then inData else 0) + (if Low(v, b) == Low(c, b) then inPos else 0)
    ensures (if BitOf(v, b) == 0 then inPrefix else 0)
         == (if Low(v, b + 1) < Low(c, b + 1) then inData else 0) + (if Low(v, b + 1) == Low(c, b + 1) then inPos else 0)
  {
    ModSplit(v, b);
    ModSplit(c, b);
    assert BitOf(v, b) < 2;
  }

  /** Value by value, the set-bit step keeps exactly the counts the next invariant asks for. */
  lemma {:induction false} LfPointOne(v: nat, c: nat, b: nat, inData: nat, inPos: nat, inPrefix: nat)
    requires BitOf(c, b) == 1
    requires inPrefix == (if Low(v, b) < Low(c, b) then inData else 0) + (if Low(v, b) == Low(c, b) then inPos else 0)
    ensures (if BitOf(v, b) == 0 then inData else 0) + (if BitOf(v, b) == 1 then inPrefix else 0)
         == (if Low(v, b + 1) < Low(c, b + 1) then inData else 0) + (if Low(v, b + 1) == Low(c, b + 1) then inPos else 0)
  {
    ModSplit(v, b);
    ModSplit(c, b);
    assert BitOf(v, b) < 2;
  }

  /** The step taken when bit b of c is clear: keep the clear-bit part of the prefix. */
  lemma {:induction false} LfStepZero(data: seq<nat>, p: nat, pos: nat, c: nat, b: nat, np: nat)
    requires LfHolds(LsbStage(data, b), p, data, pos, c, b) && BitOf(c, b) == 0
    requires np == ZeroCount(LsbStage(data, b)[..p], b)
    ensures LfHolds(LsbStage(data, b + 1), np, data, pos, c, b + 1)
  {
    var s := LsbStage(data, b);
    var next := LsbStage(data, b + 1);
    assert next == Partition(s, b);
    PartitionPrefixZeros(s, b, p);
    var kept := Bucket(s[..p], b, 0);
    assert next[..np] == kept;
    var below := multiset(Within(data, 0, Low(c, b + 1), b + 1));
    var equal := multiset(Within(data[..pos], Low(c, b + 1), Low(c, b + 1) + 1, b + 1));
    var target := below + equal;
    forall v | true
      ensures multiset(kept)[v] == target[v]
    {
      BucketCount(s[..p], b, 0, v);
      LfCount(s, p, data, pos, c, b, v);
      WithinCount(data, 0, Low(c, b + 1), b + 1, v);
      WithinCount(data[..pos], Low(c, b + 1), Low(c, b + 1) + 1, b + 1, v);
      LfPointZero(v, c, b, multiset(data)[v], multiset(data[..pos])[v], multiset(s[..p])[v]);
      assert target[v] == below[v] + equal[v];
    }
    assert multiset(next[..np]) == target;
    assert LfHolds(next, np, data, pos, c, b + 1);
  }

  /** Value by value, the set-bit step gathers all clear-bit values and the set-bit part of the prefix. */
  lemma {:induction false} LfOneCount(s: seq<nat>, p: nat, data: seq<nat>, pos: nat, c: nat, b: nat, v: nat)
    requires LfHolds(s, p, data, pos, c, b) && BitOf(c, b) == 1 && multiset(s) == multiset(data)
    ensures multiset(Bucket(s, b, 0) + Bucket(s[..p], b, 1))[v]
         == (multiset(Within(data, 0, Low(c, b + 1), b + 1)) + multiset(Within(data[..pos], Low(c, b + 1), Low(c, b + 1) + 1, b + 1)))[v]
  {
    var all0: seq<nat>, some1: seq<nat> := Bucket(s, b, 0), Bucket(s[..p], b, 1);
    var below := multiset(Within(data, 0, Low(c, b + 1), b + 1));
    var equal := multiset(Within(data[..pos], Low(c, b + 1), Low(c, b + 1) + 1, b + 1));
    BucketCount(s, b, 0, v);
    BucketCount(s[..p], b, 1, v);
    LfCount(s, p, data, pos, c, b, v);
    WithinCount(data, 0, Low(c, b + 1), b + 1, v);
    WithinCount(data[..pos], Low(c, b + 1), Low(c, b + 1) + 1, b + 1, v);
    LfPointOne(v, c, b, multiset(data)[v], multiset(data[..pos])[v], multiset(s[..p])[v]);
    assert multiset(all0 + some1)[v] == multiset(all0)[v] + multiset(some1)[v];
    assert (below + equal)[v] == below[v] + equal[v];
  }

  /** With bit b of c set, the clear-bit elements of the level and the set-bit elements before p are what the next level's invariant needs. */
  lemma {:induction false} LfOneBuckets(data: seq<nat>, p: nat, pos: nat, c: nat, b: nat)
    requires LfHolds(LsbStage(data, b), p, data, pos, c, b) && BitOf(c, b) == 1
    ensures multiset(Bucket(LsbStage(data, b), b, 0) + Bucket(LsbStage(data, b)[..p], b, 1))
         == multiset(Within(data, 0, Low(c, b + 1), b + 1)) + multiset(Within(data[..pos], Low(c, b + 1), Low(c, b + 1) + 1, b + 1))
  {
    var s := LsbStage(data, b);
    var all0 := Bucket(s, b, 0);
    var some1 := Bucket(s[..p], b, 1);
    LsbStagePermutes(data, b);
    var target := multiset(Within(data, 0, Low(c, b + 1), b + 1)) + multiset(Within(data[..pos], Low(c, b + 1), Low(c, b + 1) + 1, b + 1));
    forall v | true
      ensures multiset(all0 + some1)[v] == target[v]
    {
      LfOneCount(s, p, data, pos, c, b, v);
    }
  }

  /** The step taken when bit b of c is set: all clear-bit values, then the set-bit part of the prefix. */
  lemma {:induction false} LfStepOne(data: seq<nat>, p: nat, pos: nat, c: nat, b: nat, z: nat, total: nat, np: nat)
    requires LfHolds(LsbStage(data, b), p, data, pos, c, b) && BitOf(c, b) == 1
    requires z == ZeroCount(LsbStage(data, b)[..p], b) && total == ZeroCount(LsbStage(data, b), b)
    requires np == total + (p - z)
    ensures LfHolds(LsbStage(data, b + 1), np, data, pos, c, b + 1)
  {
    var s := LsbStage(data, b);
    var next := LsbStage(data, b + 1);
    assert next == Partition(s, b);
    assert |s[..p]| == p;
    PartitionPrefixOnes(s, b, p);
    var all0 := Bucket(s, b, 0);
    var some1 := Bucket(s[..p], b, 1);
    assert next[..np] == all0 + some1;
    LfOneBuckets(data, p, pos, c, b);
    assert multiset(next[..np]) == multiset(all0 + some1);
    assert LfHolds(next, np, data, pos, c, b + 1);
  }

  /** After all sigma levels the walk has reached C[c] + rank_c(pos). */
  lemma {:induction false} LfEnd(data: seq<nat>, p: nat, pos: nat, c: nat, sigma: nat)
    requires LfHolds(LsbStage(data, sigma), p, data, pos, c, sigma)
    ensures p == |Within(data, 0, Low(c, sigma), sigma)| + Occ(data[..pos], Low(c, sigma), sigma)
  {
    SplitSize(LsbStage(data, sigma)[..p], Within(data, 0, Low(c, sigma), sigma),
              Within(data[..pos], Low(c, sigma), Low(c, sigma) + 1, sigma));
  }

  /**
   * The position the LF walk reaches after levels 0 .. b - 1 of an LSB-first
   * matrix, starting at pos: each level keeps it among the clear-bit
   * elements, or moves it behind them, as bit b of c says.
   */
  ghost function LfPos(data: seq<nat>, pos: nat, c: nat, b: nat): (r: nat)
    requires pos <= |data|
    ensures r <= |data|
  {
    if b == 0 then pos
    else
      var p := LfPos(data, pos, c, b - 1);
      var s := LsbStage(data, b - 1);
      PartitionRangeCounts(s, b - 1, p, p);
      if BitOf(c, b - 1) == 0 then ZeroCount(s[..p], b - 1)
      else ZeroCount(s, b - 1) + (p - ZeroCount(s[..p], b - 1))
  }

  /** A level whose bit of c is clear keeps the walk among that level's clear-bit elements. */
  lemma LfPosZero(data: seq<nat>, pos: nat, c: nat, b: nat, p: nat, z: nat)
    requires pos <= |data| && p == LfPos(data, pos, c, b) && BitOf(c, b) == 0
    requires z == ZeroCount(LsbStage(data, b)[..p], b)
    ensures LfPos(data, pos, c, b + 1) == z
  {
    assert (b + 1) - 1 == b;
  }

  /** A level whose bit of c is set moves the walk behind all of that level's clear-bit elements. */
  lemma LfPosOne(data: seq<nat>, pos: nat, c: nat, b: nat, p: nat, z: nat, total: nat)
    requires pos <= |data| && p == LfPos(data, pos, c, b) && BitOf(c, b) != 0
    requires z == ZeroCount(LsbStage(data, b)[..p], b) && total == ZeroCount(LsbStage(data, b), b)
    ensures LfPos(data, pos, c, b + 1) == total + (p - z)
  {
    assert (b + 1) - 1 == b;
  }

  /** A level whose bit of c is clear keeps the LF walk's invariant. */
  lemma LfNextZero(data: seq<nat>, pos: nat, c: nat, b: nat)
    requires pos <= |data| && LfHolds(LsbStage(data, b), LfPos(data, pos, c, b), data, pos, c, b) && BitOf(c, b) == 0
    ensures LfHolds(LsbStage(data, b + 1), LfPos(data, pos, c, b + 1), data, pos, c, b + 1)
  {
    var p := LfPos(data, pos, c, b);
    var z := ZeroCount(LsbStage(data, b)[..p], b);
    LfPosZero(data, pos, c, b, p, z);
    LfStepZero(data, p, pos, c, b, z);
  }

  /** A level whose bit of c is set keeps the LF walk's invariant. */
  lemma LfNextOne(data: seq<nat>, pos: nat, c: nat, b: nat)
    requires pos <= |data| && LfHolds(LsbStage(data, b), LfPos(data, pos, c, b), data, pos, c, b) && BitOf(c, b) == 1
    ensures LfHolds(LsbStage(data, b + 1), LfPos(data, pos, c, b + 1), data, pos, c, b + 1)
  {
    var p := LfPos(data, pos, c, b);
    var z := ZeroCount(LsbStage(data, b)[..p], b);
    var total := ZeroCount(LsbStage(data, b), b);
    LfPosOne(data, pos, c, b, p, z, total);
    LfStepOne(data, p, pos, c, b, z, total, LfPos(data, pos, c, b + 1));
  }

  /** Every position the LF walk reaches holds its invariant. */
  lemma {:induction false} LfPosHolds(data: seq<nat>, pos: nat, c: nat, b: nat)
    requires pos <= |data|
    ensures LfHolds(LsbStage(data, b), LfPos(data, pos, c, b), data, pos, c, b)
  {
    if b == 0 {
      LfStart(data, pos, c);
    } else {
      var prev := b - 1;
      assert prev + 1 == b;
      LfPosHolds(data, pos, c, prev);
      if BitOf(c, prev) == 0 {
        LfNextZero(data, pos, c, prev);
      } else {
        assert BitOf(c, prev) == 1 by {
          assert BitOf(c, prev) < 2;
        }
        LfNextOne(data, pos, c, prev);
      }
    }
  }

  /**
   * The LF walk over all sigma levels ends at C[c] + rank_c(pos): the number
   * of elements below c, plus the occurrences of c before pos.
   */
  lemma {:induction false} LfPosCounts(data: seq<nat>, pos: nat, c: nat, sigma: nat)
    requires pos <= |data|
    ensures LfPos(data, pos, c, sigma) == |Within(data, 0, Low(c, sigma), sigma)| + Occ(data[..pos], Low(c, sigma), sigma)
  {
    LfPosHolds(data, pos, c, sigma);
    LfEnd(data, LfPos(data, pos, c, sigma), pos, c, sigma);
  }

  /** A sequence holding the elements of two others has their total length. */
  lemma SplitSize(a: seq<nat>, x: seq<nat>, y: seq<nat>)
    requires multiset(a) == multiset(x) + multiset(y)
    ensures |a| == |x| + |y|
  {
    assert |multiset(a)| == |a|;
  }

  // ---------------------------------------------------------------------------
  // Counting and listing a value range by descending into aligned buckets
  // ---------------------------------------------------------------------------

  /** How many values of the aligned bucket [prefix, prefix + 2^lvl) lie in [x, y). */
  function Share(vals: seq<nat>, prefix: nat, lvl: nat, x: nat, y: nat, sigma: nat): nat
  {
    |Within(Within(vals, prefix, prefix + Pow2(lvl), sigma), x, y, sigma)|
  }

  /** The root bucket [0, 2^sigma) holds every value. */
  lemma {:induction false} ShareAtRoot(vals: seq<nat>, x: nat, y: nat, sigma: nat)
    ensures Share(vals, 0, sigma, x, y, sigma) == |Within(vals, x, y, sigma)|
  {
    WithinFull(vals, sigma);
  }

  /** A bucket's count is the sum of its two halves' counts. */
  lemma {:induction false} ShareSplit(vals: seq<nat>, prefix: nat, b: nat, x: nat, y: nat, sigma: nat)
    requires b < sigma && prefix % Pow2(b + 1) == 0
    ensures Share(vals, prefix, b + 1, x, y, sigma)
         == Share(vals, prefix, b, x, y, sigma) + Share(vals, prefix + Pow2(b), b, x, y, sigma)
  {
    var whole := Within(vals, prefix, prefix + Pow2(b + 1), sigma);
    WithinBuckets(vals, prefix, b, sigma);
    UpperEnd(vals, prefix, b, sigma);
    WithinBucketsCount(whole, b, x, y, sigma);
  }

  /** The upper half of the bucket [prefix, prefix + 2^(b+1)) ends 2^b after it starts. */
  lemma UpperEnd(vals: seq<nat>, prefix: nat, b: nat, sigma: nat)
    ensures Within(vals, prefix + Pow2(b), prefix + Pow2(b + 1), sigma) == Within(vals, prefix + Pow2(b), prefix + Pow2(b) + Pow2(b), sigma)
  {
    assert Pow2(b + 1) == Pow2(b) + Pow2(b);
  }

  /** A bucket disjoint from [x, y) contributes nothing. */
  lemma {:induction false} SharePruned(vals: seq<nat>, prefix: nat, lvl: nat, x: nat, y: nat, sigma: nat)
    requires prefix + Pow2(lvl) <= x || y <= prefix
    ensures Share(vals, prefix, lvl, x, y, sigma) == 0
  {
    WithinNested(vals, prefix, prefix + Pow2(lvl), x, y, sigma);
    WithinEmpty(vals, Max(prefix, x), Min(prefix + Pow2(lvl), y), sigma);
  }

  /** A single-value bucket contributes that value's frequency when it lies in [x, y). */
  lemma {:induction false} ShareLeaf(vals: seq<nat>, prefix: nat, x: nat, y: nat, sigma: nat)
    ensures Share(vals, prefix, 0, x, y, sigma) == if x <= prefix < y then Occ(vals, prefix, sigma) else 0
  {
    assert Pow2(0) == 1;
    var lo, hi := Max(prefix, x), Min(prefix + 1, y);
    assert Share(vals, prefix, 0, x, y, sigma) == |Within(Within(vals, prefix, prefix + 1, sigma), x, y, sigma)|;
    WithinNested(vals, prefix, prefix + 1, x, y, sigma);
    if x <= prefix < y {
      assert lo == prefix && hi == prefix + 1;
    } else {
      WithinEmpty(vals, lo, hi, sigma);
    }
  }

  /** An empty window holds nothing of its bucket. */
  lemma {:induction false} HoldsEmpty(stage: seq<nat>, left: nat, vals: seq<nat>, prefix: nat, lvl: nat, sigma: nat)
    requires Holds(stage, left, left, vals, prefix, lvl, sigma)
    ensures Within(vals, prefix, prefix + Pow2(lvl), sigma) == []
  {
    assert stage[left..left] == [];
    assert |multiset(Within(vals, prefix, prefix + Pow2(lvl), sigma))| == 0;
  }

  /**
   * The distinct values in [lo, hi) that occur in `vals`, each with its
   * frequency, largest value first.
   */
  function Listing(vals: seq<nat>, lo: nat, hi: nat, sigma: nat): (r: seq<(nat, nat)>)
    decreases hi - lo
  {
    if hi <= lo then []
    else (if Occ(vals, hi - 1, sigma) > 0 then [(hi - 1, Occ(vals, hi - 1, sigma))] else []) + Listing(vals, lo, hi - 1, sigma)
  }

  /** Listing [lo, hi) is listing [mid, hi) and then [lo, mid). */
  lemma {:induction false} ListingSplit(vals: seq<nat>, lo: nat, mid: nat, hi: nat, sigma: nat)
    requires lo <= mid <= hi
    ensures Listing(vals, lo, hi, sigma) == Listing(vals, mid, hi, sigma) + Listing(vals, lo, mid, sigma)
    decreases hi - mid
  {
    if mid < hi {
      ListingSplit(vals, lo, mid, hi - 1, sigma);
    }
  }

  /** Nothing is listed from a range where no value occurs. */
  lemma {:induction false} ListingNone(vals: seq<nat>, lo: nat, hi: nat, sigma: nat)
    requires forall v :: lo <= v < hi ==> Occ(vals, v, sigma) == 0
    ensures Listing(vals, lo, hi, sigma) == []
    decreases hi - lo
  {
    if lo < hi {
      ListingNone(vals, lo, hi - 1, sigma);
    }
  }

  /**
   * Listing the part of [x, y) inside the aligned bucket [p, p + 2h) is
   * listing its part in the upper half and then its part in the lower half.
   */
  lemma {:induction false} ListingHalves(vals: seq<nat>, p: nat, h: nat, x: nat, y: nat, sigma: nat)
    ensures Listing(vals, Max(p, x), Min(p + h + h, y), sigma)
         == Listing(vals, Max(p + h, x), Min(p + h + h, y), sigma) + Listing(vals, Max(p, x), Min(p + h, y), sigma)
  {
    var lo, hi := Max(p, x), Min(p + h + h, y);
    if y <= p + h {
      assert Listing(vals, Max(p + h, x), hi, sigma) == [];
    } else if p + h <= x {
      assert Listing(vals, lo, Min(p + h, y), sigma) == [];
    } else {
      ListingSplit(vals, lo, p + h, hi, sigma);
    }
  }

  /** A value outside a bucket holding nothing of `vals` does not occur. */
  lemma {:induction false} EmptyBucketOcc(vals: seq<nat>, p: nat, lvl: nat, v: nat, sigma: nat)
    requires Within(vals, p, p + Pow2(lvl), sigma) == [] && p <= v < p + Pow2(lvl)
    ensures Occ(vals, v, sigma) == 0
  {
    WithinNested(vals, p, p + Pow2(lvl), v, v + 1, sigma);
    assert Max(p, v) == v && Min(p + Pow2(lvl), v + 1) == v + 1;
  }

  /** A bucket holding nothing of `vals` lists nothing. */
  lemma {:induction false} ListingOfEmptyBucket(vals: seq<nat>, p: nat, lvl: nat, x: nat, y: nat, sigma: nat)
    requires Within(vals, p, p + Pow2(lvl), sigma) == []
    ensures Listing(vals, Max(p, x), Min(p + Pow2(lvl), y), sigma) == []
  {
    forall v | Max(p, x) <= v < Min(p + Pow2(lvl), y)
      ensures Occ(vals, v, sigma) == 0
    {
      EmptyBucketOcc(vals, p, lvl, v, sigma);
    }
    ListingNone(vals, Max(p, x), Min(p + Pow2(lvl), y), sigma);
  }

  /** A single-value bucket lists that value with its frequency when it lies in [x, y) and occurs. */
  lemma {:induction false} ListingLeaf(vals: seq<nat>, p: nat, x: nat, y: nat, sigma: nat)
    ensures Listing(vals, Max(p, x), Min(p + Pow2(0), y), sigma)
         == if x <= p < y && Occ(vals, p, sigma) > 0 then [(p, Occ(vals, p, sigma))] else []
  {
    assert Pow2(0) == 1;
    if x <= p < y {
      assert Listing(vals, p, p, sigma) == [];
    }
  }

  /** No value at or above 2^sigma occurs, so the root bucket lists all of [x, y). */
  lemma {:induction false} ListingAtRoot(vals: seq<nat>, x: nat, y: nat, sigma: nat)
    ensures Listing(vals, Max(0, x), Min(0 + Pow2(sigma), y), sigma) == Listing(vals, x, y, sigma)
  {
    var top := Pow2(sigma);
    forall v | top <= v
      ensures Occ(vals, v, sigma) == 0
    {
      WithinKeepsNone(vals, v, v + 1, sigma);
    }
    if top < y {
      if x <= top {
        ListingSplit(vals, x, top, y, sigma);
        ListingNone(vals, top, y, sigma);
      } else {
        ListingNone(vals, x, y, sigma);
      }
    }
  }

  /** Every listed entry is a value of [lo, hi) that occurs, with its frequency. */
  lemma {:induction false} ListingEntries(vals: seq<nat>, lo: nat, hi: nat, sigma: nat)
    ensures forall i :: 0 <= i < |Listing(vals, lo, hi, sigma)| ==>
      lo <= Listing(vals, lo, hi, sigma)[i].0 < hi &&
      Listing(vals, lo, hi, sigma)[i].1 == Occ(vals, Listing(vals, lo, hi, sigma)[i].0, sigma) > 0
    decreases hi - lo
  {
    if lo < hi {
      ListingEntries(vals, lo, hi - 1, sigma);
      var occ := Occ(vals, hi - 1, sigma);
      var head := if occ > 0 then [(hi - 1, occ)] else [];
      var rest := Listing(vals, lo, hi - 1, sigma);
      var all := Listing(vals, lo, hi, sigma);
      assert all == head + rest;
      forall i | 0 <= i < |all|
        ensures lo <= all[i].0 < hi && all[i].1 == Occ(vals, all[i].0, sigma) > 0
      {
        if i >= |head| {
          assert all[i] == rest[i - |head|];
        }
      }
    }
  }

  /** Listed values strictly decrease. */
  lemma {:induction false} ListingDescending(vals: seq<nat>, lo: nat, hi: nat, sigma: nat)
    ensures forall i, j :: 0 <= i < j < |Listing(vals, lo, hi, sigma)| ==>
      Listing(vals, lo, hi, sigma)[i].0 > Listing(vals, lo, hi, sigma)[j].0
    decreases hi - lo
  {
    if lo < hi {
      ListingDescending(vals, lo, hi - 1, sigma);
      ListingEntries(vals, lo, hi - 1, sigma);
      var occ := Occ(vals, hi - 1, sigma);
      var head := if occ > 0 then [(hi - 1, occ)] else [];
      var rest := Listing(vals, lo, hi - 1, sigma);
      var all := Listing(vals, lo, hi, sigma);
      assert all == head + rest;
      forall i, j | 0 <= i < j < |all|
        ensures all[i].0 > all[j].0
      {
        assert all[j] == rest[j - |head|];
        if i >= |head| {
          assert all[i] == rest[i - |head|];
        }
      }
    }
  }

  /** Every value of [lo, hi) that occurs is listed, with its frequency. */
  lemma {:induction false} ListingComplete(vals: seq<nat>, lo: nat, hi: nat, sigma: nat, v: nat)
    requires lo <= v < hi && Occ(vals, v, sigma) > 0
    ensures (v, Occ(vals, v, sigma)) in Listing(vals, lo, hi, sigma)
    decreases hi - lo
  {
    var occ := Occ(vals, hi - 1, sigma);
    var head := if occ > 0 then [(hi - 1, occ)] else [];
    var rest := Listing(vals, lo, hi - 1, sigma);
    assert Listing(vals, lo, hi, sigma) == head + rest;
    if v == hi - 1 {
      assert (v, occ) in head;
    } else {
      ListingComplete(vals, lo, hi - 1, sigma, v);
    }
  }

  /** The sum of the frequencies in a listing. */
  function TotalCount(l: seq<(nat, nat)>): nat
  {
    if l == [] then 0 else l[0].1 + TotalCount(l[1..])
  }

  /** The listed frequencies add up to the number of values in [lo, hi). */
  lemma {:induction false} ListingTotal(vals: seq<nat>, lo: nat, hi: nat, sigma: nat)
    ensures TotalCount(Listing(vals, lo, hi, sigma)) == |Within(vals, lo, hi, sigma)|
    decreases hi - lo
  {
    if hi <= lo {
      WithinEmpty(vals, lo, hi, sigma);
      assert Listing(vals, lo, hi, sigma) == [];
    } else {
      ListingTotal(vals, lo, hi - 1, sigma);
      TotalGrow(vals, lo, hi, sigma);
    }
  }

  /** ListingTotal for [lo, hi) from ListingTotal for [lo, hi - 1). */
  lemma {:induction false} TotalGrow(vals: seq<nat>, lo: nat, hi: nat, sigma: nat)
    requires lo < hi && TotalCount(Listing(vals, lo, hi - 1, sigma)) == |Within(vals, lo, hi - 1, sigma)|
    ensures TotalCount(Listing(vals, lo, hi, sigma)) == |Within(vals, lo, hi, sigma)|
  {
    WithinAdjacent(vals, lo, hi - 1, hi, sigma);
    TotalStep(vals, lo, hi, sigma);
  }

  /** Extending a listing by the value hi - 1 adds that value's frequency to the total. */
  lemma {:induction false} TotalStep(vals: seq<nat>, lo: nat, hi: nat, sigma: nat)
    requires lo < hi
    ensures TotalCount(Listing(vals, lo, hi, sigma)) == |Within(vals, hi - 1, hi, sigma)| + TotalCount(Listing(vals, lo, hi - 1, sigma))
  {
    var rest := Listing(vals, lo, hi - 1, sigma);
    var occ := Occ(vals, hi - 1, sigma);
    if occ > 0 {
      var l := [(hi - 1, occ)] + rest;
      assert Listing(vals, lo, hi, sigma) == l;
      assert l[1..] == rest;
    } else {
      assert Listing(vals, lo, hi, sigma) == rest;
    }
  }
}
