/**
 * RingOA's plain wavelet matrix (RingOA/wm/plain_wm.cpp). The matrix keeps
 * the data and, for every bit b below sigma, a row of length+1 rank-of-zeros
 * counts, all rows in one flat vector at offset b*(length+1). An MSB-first
 * build computes the row for bit b on the level obtained by stably
 * partitioning the data by the bits above b; an LSB-first build on the level
 * obtained by partitioning by the bits below b. The queries walk these rows.
 */
module PlainWm {
  import opened Bits
  import opened Wrappers
  import opened WaveletLevels
  import opened CharMapper

  /** The order in which the levels are built. */
  datatype BuildOrder = MsbFirst | LsbFirst

  /** std::out_of_range and std::invalid_argument. */
  datatype WmError = OutOfRange | InvalidArgument

  /** The table a build leaves behind: empty for empty data, else the rows for bits 0 .. sigma-1. */
  function Table(order: BuildOrder, data: seq<nat>, sigma: nat): seq<nat>
  {
    if |data| == 0 then []
    else if order == MsbFirst then MsbTable(data, sigma, 0)
    else LsbRows(data, sigma)
  }

  /** The level on which the row for bit b was computed. */
  function Level(order: BuildOrder, data: seq<nat>, sigma: nat, b: nat): (r: seq<nat>)
    requires b < sigma
    ensures |r| == |data|
  {
    if order == MsbFirst then MsbStage(data, sigma, b + 1) else LsbStage(data, b)
  }

  /** Entry i of the row for bit b, at offset off + i with off = b*(length+1), counts the clear bits b among the first i elements of its level. */
  lemma {:induction false} TableAt(order: BuildOrder, data: seq<nat>, sigma: nat, b: nat, off: nat, i: nat)
    requires |data| > 0 && b < sigma && i <= |data| && off == b * (|data| + 1)
    ensures off + i < |Table(order, data, sigma)| && Table(order, data, sigma)[off + i] == ZeroCount(Level(order, data, sigma, b)[..i], b)
  {
    if order == MsbFirst {
      assert Table(order, data, sigma) == MsbTable(data, sigma, 0);
      assert Level(order, data, sigma, b) == MsbStage(data, sigma, b + 1);
      MsbTableAt(data, sigma, b, i, off + i);
    } else {
      assert Table(order, data, sigma) == LsbRows(data, sigma);
      assert Level(order, data, sigma, b) == LsbStage(data, b);
      LsbRowsAt(data, sigma, b, i, off + i);
    }
  }

  /** The last entry of the row for bit b counts the clear bits b of the whole level. */
  lemma {:induction false} TableEnd(order: BuildOrder, data: seq<nat>, sigma: nat, b: nat, off: nat)
    requires |data| > 0 && b < sigma && off == b * (|data| + 1)
    ensures off + |data| < |Table(order, data, sigma)| && Table(order, data, sigma)[off + |data|] == ZeroCount(Level(order, data, sigma, b), b)
  {
    var s := Level(order, data, sigma, b);
    TableAt(order, data, sigma, b, off, |data|);
    assert s[..|data|] == s;
  }

  /** The row for bit b read at positions i <= j and at its end: clear-bit counts of prefixes of the level. */
  lemma {:induction false} RowReads(order: BuildOrder, data: seq<nat>, sigma: nat, b: nat, off: nat, i: nat, j: nat)
    requires |data| > 0 && b < sigma && i <= j <= |data| && off == b * (|data| + 1)
    ensures off + |data| < |Table(order, data, sigma)|
    ensures Table(order, data, sigma)[off + i] == ZeroCount(Level(order, data, sigma, b)[..i], b)
    ensures Table(order, data, sigma)[off + j] == ZeroCount(Level(order, data, sigma, b)[..j], b)
    ensures Table(order, data, sigma)[off + |data|] == ZeroCount(Level(order, data, sigma, b), b)
  {
    TableAt(order, data, sigma, b, off, i);
    TableAt(order, data, sigma, b, off, j);
    TableEnd(order, data, sigma, b, off);
  }

  /** The row for bit b read at the ends of a window i <= j: the counts are in order and at most the positions. */
  lemma {:induction false} RowWindow(order: BuildOrder, data: seq<nat>, sigma: nat, b: nat, off: nat, i: nat, j: nat)
    requires |data| > 0 && b < sigma && i <= j <= |data| && off == b * (|data| + 1)
    ensures off + |data| < |Table(order, data, sigma)|
    ensures Table(order, data, sigma)[off + i] <= i && Table(order, data, sigma)[off + j] <= j
    ensures Table(order, data, sigma)[off + i] <= Table(order, data, sigma)[off + j]
  {
    RowReads(order, data, sigma, b, off, i, j);
    PartitionRangeCounts(Level(order, data, sigma, b), b, i, j);
  }

  /**
   * Following position j of the level `s` for bit b down one level, given
   * the row entries zb (at j), za (at j+1) and tz (at the end): the entries
   * tell whether element j has the bit clear, and the position it moves to
   * in the partitioned level holds the same element.
   */
  lemma {:induction false} RowStep(order: BuildOrder, data: seq<nat>, sigma: nat, b: nat, off: nat, j: nat, s: seq<nat>, zb: nat, za: nat, tz: nat)
    requires |data| > 0 && b < sigma && j < |data| && off == b * (|data| + 1)
    requires s == Level(order, data, sigma, b)
    requires off + |data| < |Table(order, data, sigma)|
    requires zb == Table(order, data, sigma)[off + j] && za == Table(order, data, sigma)[off + j + 1]
    requires tz == Table(order, data, sigma)[off + |data|]
    ensures zb <= j && zb <= za <= zb + 1
    ensures BitOf(s[j], b) == 0 <==> za == zb + 1
    ensures BitOf(s[j], b) == 0 ==> zb < |s| && Partition(s, b)[zb] == s[j]
    ensures BitOf(s[j], b) != 0 ==> BitOf(s[j], b) == 1 && tz + (j - zb) < |s| && Partition(s, b)[tz + (j - zb)] == s[j]
  {
    TableAt(order, data, sigma, b, off, j);
    TableAt(order, data, sigma, b, off, j + 1);
    TableEnd(order, data, sigma, b, off);
    ZeroCountStep(s, b, j);
    PartitionPos(s, b, j);
  }

  /**
   * What Access keeps while walking down: at level lvl it stands at
   * position j, the bits above lvl are decided and clear below, and on an
   * MSB-first matrix position j of the level holds the element asked for,
   * whose bits above lvl are the ones decided.
   */
  ghost predicate AccessInv(order: BuildOrder, data: seq<nat>, sigma: nat, lvl: nat, j: nat, result: nat, x: nat)
  {
    lvl <= sigma && j < |data| && result % Pow2(lvl) == 0 && result + Pow2(lvl) <= Pow2(sigma) &&
    (order == MsbFirst ==> MsbStage(data, sigma, lvl)[j] == x && result + Low(x, lvl) == Low(x, sigma))
  }

  /** AccessInv one level down, once the element's position and bit there are known. */
  lemma {:induction false} AccessInvDown(order: BuildOrder, data: seq<nat>, sigma: nat, bit: nat, n: nat, result: nat, x: nat, one: bool)
    requires bit < sigma && n < |data|
    requires result % Pow2(bit + 1) == 0 && result + Pow2(bit + 1) <= Pow2(sigma)
    requires order == MsbFirst ==> MsbStage(data, sigma, bit)[n] == x && result + Low(x, bit + 1) == Low(x, sigma)
    requires order == MsbFirst ==> (BitOf(x, bit) != 0 <==> one)
    ensures AccessInv(order, data, sigma, bit, n, if one then Or(result, Pow2(bit)) else result, x)
  {
    PrefixStep(result, bit, sigma);
    LowStep(x, bit);
  }

  /** A step of Access into the zero half keeps AccessInv. */
  lemma {:induction false} AccessZero(order: BuildOrder, data: seq<nat>, sigma: nat, bit: nat, off: nat, j: nat, result: nat, x: nat, zb: nat, za: nat)
    requires bit < sigma && off == bit * (|data| + 1)
    requires AccessInv(order, data, sigma, bit + 1, j, result, x)
    requires off + |data| < |Table(order, data, sigma)|
    requires zb == Table(order, data, sigma)[off + j] && za == Table(order, data, sigma)[off + j + 1]
    requires za - zb == 1
    ensures AccessInv(order, data, sigma, bit, zb, result, x)
  {
    var s := Level(order, data, sigma, bit);
    RowStep(order, data, sigma, bit, off, j, s, zb, za, Table(order, data, sigma)[off + |data|]);
    if order == MsbFirst {
      assert s == MsbStage(data, sigma, bit + 1) && s[j] == x;
      assert MsbStage(data, sigma, bit) == Partition(s, bit);
    }
    AccessInvDown(order, data, sigma, bit, zb, result, x, false);
  }

  /** A step of Access into the one half keeps AccessInv, setting the bit in the result. */
  lemma {:induction false} AccessOne(order: BuildOrder, data: seq<nat>, sigma: nat, bit: nat, off: nat, j: nat, result: nat, x: nat, zb: nat, za: nat, tz: nat)
    requires bit < sigma && off == bit * (|data| + 1)
    requires AccessInv(order, data, sigma, bit + 1, j, result, x)
    requires off + |data| < |Table(order, data, sigma)|
    requires zb == Table(order, data, sigma)[off + j] && za == Table(order, data, sigma)[off + j + 1]
    requires tz == Table(order, data, sigma)[off + |data|]
    requires za - zb != 1
    ensures zb <= j && AccessInv(order, data, sigma, bit, tz + (j - zb), Or(result, Pow2(bit)), x)
  {
    var s := Level(order, data, sigma, bit);
    RowStep(order, data, sigma, bit, off, j, s, zb, za, tz);
    if order == MsbFirst {
      assert s == MsbStage(data, sigma, bit + 1) && s[j] == x;
      assert MsbStage(data, sigma, bit) == Partition(s, bit);
    }
    AccessInvDown(order, data, sigma, bit, tz + (j - zb), result, x, true);
  }

  /** Entries at j and j+1 of a row differ by at most one, and the first is at most j. */
  lemma {:induction false} RowEntries(order: BuildOrder, data: seq<nat>, sigma: nat, b: nat, off: nat, j: nat)
    requires |data| > 0 && b < sigma && j < |data| && off == b * (|data| + 1)
    ensures off + |data| < |Table(order, data, sigma)|
    ensures Table(order, data, sigma)[off + j] <= j
    ensures Table(order, data, sigma)[off + j] <= Table(order, data, sigma)[off + j + 1]
  {
    var s := Level(order, data, sigma, b);
    TableEnd(order, data, sigma, b, off);
    RowStep(order, data, sigma, b, off, j, s, Table(order, data, sigma)[off + j], Table(order, data, sigma)[off + j + 1], Table(order, data, sigma)[off + |data|]);
  }

  /**
   * What Quantile keeps while walking down: the window [left, right) of
   * the level for lvl still holds more than k elements, the bits above lvl
   * are decided, and on an MSB-first matrix the window holds exactly the
   * values of `vals` whose top bits are the decided ones, with k0 - k of
   * the values below them.
   */
  ghost predicate QuantInv(order: BuildOrder, data: seq<nat>, sigma: nat, vals: seq<nat>, lvl: nat, left: nat, right: nat, k: nat, k0: nat, result: nat)
  {
    lvl <= sigma && left <= right <= |data| && k < right - left &&
    result % Pow2(lvl) == 0 && result + Pow2(lvl) <= Pow2(sigma) &&
    (order == MsbFirst ==>
      Holds(MsbStage(data, sigma, lvl), left, right, vals, result, lvl, sigma) &&
      |Within(vals, 0, result, sigma)| + k == k0)
  }

  /** QuantInv at level lvl, restated for the bit below it. */
  lemma QuantInvAt(order: BuildOrder, data: seq<nat>, sigma: nat, vals: seq<nat>, lvl: nat, bit: nat, left: nat, right: nat, k: nat, k0: nat, result: nat)
    requires lvl == bit + 1 && QuantInv(order, data, sigma, vals, lvl, left, right, k, k0, result)
    ensures QuantInv(order, data, sigma, vals, bit + 1, left, right, k, k0, result)
  {
  }

  /** A step of Quantile into the zero half keeps QuantInv. */
  lemma {:induction false} QuantZero(order: BuildOrder, data: seq<nat>, sigma: nat, vals: seq<nat>, bit: nat, left: nat, right: nat, k: nat, k0: nat, result: nat, s: seq<nat>, zl: nat, zr: nat)
    requires bit < sigma && s == Level(order, data, sigma, bit)
    requires QuantInv(order, data, sigma, vals, bit + 1, left, right, k, k0, result)
    requires zl == ZeroCount(s[..left], bit) && zr == ZeroCount(s[..right], bit)
    requires k < zr - zl
    ensures QuantInv(order, data, sigma, vals, bit, zl, zr, k, k0, result)
  {
    PartitionRangeCounts(s, bit, left, right);
    PrefixStep(result, bit, sigma);
    if order == MsbFirst {
      assert s == MsbStage(data, sigma, bit + 1);
      assert MsbStage(data, sigma, bit) == Partition(s, bit);
      DescendZero(s, bit, left, right, vals, result, sigma);
    }
  }

  /**
   * On an MSB-first matrix, the one half of the window, at [nl, nr) on the
   * next level, holds the upper half [hi, hi + 2^bit) of the bucket, and
   * the zr - zl values of the lower half join those below.
   */
  lemma {:induction false} QuantOneMsb(s: seq<nat>, p: seq<nat>, sigma: nat, vals: seq<nat>, bit: nat, left: nat, right: nat, k: nat, nk: nat, k0: nat, result: nat, hi: nat, zl: nat, zr: nat, tz: nat, nl: nat, nr: nat)
    requires bit < sigma && p == Partition(s, bit) && result % Pow2(bit + 1) == 0 && hi == result + Pow2(bit)
    requires Holds(s, left, right, vals, result, bit + 1, sigma) && |Within(vals, 0, result, sigma)| + k == k0
    requires zl == ZeroCount(s[..left], bit) && zr == ZeroCount(s[..right], bit) && tz == ZeroCount(s, bit)
    requires zl <= left && zr <= right && nk + (zr - zl) == k && nl == tz + (left - zl) && nr == tz + (right - zr)
    ensures Holds(p, nl, nr, vals, hi, bit, sigma)
    ensures |Within(vals, 0, hi, sigma)| + nk == k0
  {
    DescendZero(s, bit, left, right, vals, result, sigma);
    DescendOne(s, bit, left, right, vals, result, sigma, zl, zr, tz, nl, nr);
    HoldsShift(p, nl, nr, vals, result, hi, bit, sigma);
    BelowStep(vals, result, hi, sigma, k, nk, k0, zr - zl);
  }

  /** Skipping the `skipped` values in [lo, hi) moves them from the remaining rank to the count below. */
  lemma {:induction false} BelowStep(vals: seq<nat>, lo: nat, hi: nat, sigma: nat, k: nat, nk: nat, k0: nat, skipped: nat)
    requires lo <= hi && |Within(vals, 0, lo, sigma)| + k == k0
    requires skipped == |Within(vals, lo, hi, sigma)| && nk + skipped == k
    ensures |Within(vals, 0, hi, sigma)| + nk == k0
  {
    WithinAdjacent(vals, 0, lo, hi, sigma);
  }

  /** A step of Quantile into the one half keeps QuantInv, setting the bit in the result. */
  lemma {:induction false} QuantOne(order: BuildOrder, data: seq<nat>, sigma: nat, vals: seq<nat>, bit: nat, left: nat, right: nat, k: nat, nk: nat, k0: nat, result: nat, next: nat, s: seq<nat>, zl: nat, zr: nat, tz: nat, nl: nat, nr: nat)
    requires bit < sigma && s == Level(order, data, sigma, bit)
    requires QuantInv(order, data, sigma, vals, bit + 1, left, right, k, k0, result)
    requires zl == ZeroCount(s[..left], bit) && zr == ZeroCount(s[..right], bit) && tz == ZeroCount(s, bit)
    requires zl <= zr && zl <= left && zr <= right && nk + (zr - zl) == k
    requires nl == tz + (left - zl) && nr == tz + (right - zr) && next == Or(result, Pow2(bit))
    ensures QuantInv(order, data, sigma, vals, bit, nl, nr, nk, k0, next)
  {
    PartitionRangeCounts(s, bit, left, right);
    PrefixSet(result, next, bit, sigma);
    if order == MsbFirst {
      assert s == MsbStage(data, sigma, bit + 1);
      assert MsbStage(data, sigma, bit) == Partition(s, bit);
      QuantOneMsb(s, MsbStage(data, sigma, bit), sigma, vals, bit, left, right, k, nk, k0, result, next, zl, zr, tz, nl, nr);
    }
  }

  /** One step of Quantile into the zero half, from the row entries zl and zr at the window's ends. */
  lemma {:induction false} QuantZeroStep(order: BuildOrder, data: seq<nat>, sigma: nat, vals: seq<nat>, lvl: nat, bit: nat, off: nat, left: nat, right: nat, k: nat, k0: nat, result: nat, zl: nat, zr: nat)
    requires lvl == bit + 1 && |data| > 0 && off == bit * (|data| + 1)
    requires QuantInv(order, data, sigma, vals, lvl, left, right, k, k0, result)
    requires off + |data| < |Table(order, data, sigma)|
    requires zl == Table(order, data, sigma)[off + left] && zr == Table(order, data, sigma)[off + right]
    requires k < zr - zl
    ensures QuantInv(order, data, sigma, vals, bit, zl, zr, k, k0, result)
  {
    QuantInvAt(order, data, sigma, vals, lvl, bit, left, right, k, k0, result);
    RowReads(order, data, sigma, bit, off, left, right);
    QuantZero(order, data, sigma, vals, bit, left, right, k, k0, result, Level(order, data, sigma, bit), zl, zr);
  }

  /**
   * One step of Quantile into the one half, from the row entries zl and zr
   * at the window's ends and tz at the row's end: the window moves to
   * [nl, nr), the rank drops to nk and the result becomes `next`.
   */
  lemma {:induction false} QuantOneStep(order: BuildOrder, data: seq<nat>, sigma: nat, vals: seq<nat>, lvl: nat, bit: nat, off: nat, left: nat, right: nat, k: nat, nk: nat, k0: nat, result: nat, next: nat, zl: nat, zr: nat, tz: nat, nl: nat, nr: nat)
    requires lvl == bit + 1 && |data| > 0 && off == bit * (|data| + 1)
    requires QuantInv(order, data, sigma, vals, lvl, left, right, k, k0, result)
    requires off + |data| < |Table(order, data, sigma)|
    requires zl == Table(order, data, sigma)[off + left] && zr == Table(order, data, sigma)[off + right]
    requires tz == Table(order, data, sigma)[off + |data|]
    requires zl <= zr && zl <= left && zr <= right && nk + (zr - zl) == k
    requires nl == tz + (left - zl) && nr == tz + (right - zr) && next == Or(result, Pow2(bit))
    ensures QuantInv(order, data, sigma, vals, bit, nl, nr, nk, k0, next)
  {
    QuantInvAt(order, data, sigma, vals, lvl, bit, left, right, k, k0, result);
    RowReads(order, data, sigma, bit, off, left, right);
    QuantOne(order, data, sigma, vals, bit, left, right, k, nk, k0, result, next, Level(order, data, sigma, bit), zl, zr, tz, nl, nr);
  }

  /** Where Quantile stops, the decided value is the k0-th smallest. */
  lemma {:induction false} QuantEnd(order: BuildOrder, data: seq<nat>, sigma: nat, vals: seq<nat>, left: nat, right: nat, k: nat, k0: nat, result: nat)
    requires QuantInv(order, data, sigma, vals, 0, left, right, k, k0, result)
    ensures result < Pow2(sigma)
    ensures order == MsbFirst ==> IsKth(vals, k0, result, sigma)
  {
    if order == MsbFirst {
      HoldsAtBottom(MsbStage(data, sigma, 0), left, right, vals, result, sigma);
      WithinAdjacent(vals, 0, result, result + 1, sigma);
    }
  }

  /** One more element of a level joins the bucket of its bit and, when that bit is clear, the count. */
  lemma {:induction false} BucketGrow(level: seq<nat>, bit: nat, i: nat)
    requires i < |level|
    ensures BitOf(level[i], bit) == 1 ==>
      Bucket(level[..i + 1], bit, 1) == Bucket(level[..i], bit, 1) + [level[i]] &&
      Bucket(level[..i + 1], bit, 0) == Bucket(level[..i], bit, 0) &&
      ZeroCount(level[..i + 1], bit) == ZeroCount(level[..i], bit)
    ensures BitOf(level[i], bit) != 1 ==>
      Bucket(level[..i + 1], bit, 0) == Bucket(level[..i], bit, 0) + [level[i]] &&
      Bucket(level[..i + 1], bit, 1) == Bucket(level[..i], bit, 1) &&
      ZeroCount(level[..i + 1], bit) == ZeroCount(level[..i], bit) + 1
  {
    assert level[..i + 1][..i] == level[..i];
    assert BitOf(level[i], bit) < 2;
  }

  /** A row of zeros followed by more zeros. */
  lemma ZeroesSplit(a: nat, b: nat)
    ensures Zeroes(a + b) == Zeroes(a) + Zeroes(b)
  {
  }

  /** The flat table after the MSB-first build has filled the row for bit b, at offset `off`. */
  lemma {:induction false} MsbRowDone(data: seq<nat>, sigma: nat, level: seq<nat>, b: nat, off: nat, stride: nat, before: seq<nat>, after: seq<nat>)
    requires b < sigma && level == MsbStage(data, sigma, b + 1) && stride == |data| + 1
    requires before == Zeroes(off + stride) + MsbTable(data, sigma, b + 1)
    requires after == before[..off] + RankRow(level, b) + before[off + stride..]
    ensures after == Zeroes(off) + MsbTable(data, sigma, b)
  {
    var row, tail := RankRow(level, b), MsbTable(data, sigma, b + 1);
    ZeroesSplit(off, stride);
    assert before[..off] == Zeroes(off);
    assert before[off + stride..] == tail;
    assert MsbTable(data, sigma, b) == row + tail;
    assert after == Zeroes(off) + (row + tail);
  }

  /** The flat table after the LSB-first build has filled the row for bit b, at offset `off`, with `rest` entries after it. */
  lemma {:induction false} LsbRowDone(data: seq<nat>, level: seq<nat>, b: nat, off: nat, stride: nat, left: nat, before: seq<nat>, after: seq<nat>)
    requires off == |LsbRows(data, b)| && level == LsbStage(data, b) && stride == |data| + 1 && stride <= left
    requires before == LsbRows(data, b) + Zeroes(left)
    requires after == before[..off] + RankRow(level, b) + before[off + stride..]
    ensures after == LsbRows(data, b + 1) + Zeroes(left - stride)
  {
    var rest, row := left - stride, RankRow(level, b);
    ZeroesSplit(stride, rest);
    assert before[..off] == LsbRows(data, b);
    assert before[off + stride..] == Zeroes(rest);
    assert LsbRows(data, b + 1) == LsbRows(data, b) + row;
    assert after == (LsbRows(data, b) + row) + Zeroes(rest);
  }

  /** The slot for bit b in a partly built MSB-first table lies inside it and still holds zeros. */
  lemma {:induction false} MsbSlotFree(data: seq<nat>, sigma: nat, b: nat, off: nat, n: nat, table: seq<nat>)
    requires b < sigma
    requires table == Zeroes(off + n) + MsbTable(data, sigma, b + 1)
    ensures off + n <= |table|
    ensures forall k :: off <= k < off + n ==> table[k] == 0
  {
    forall k | off <= k < off + n
      ensures table[k] == 0
    {
      assert table[k] == Zeroes(off + n)[k];
    }
  }

  /** The zeros before the rows for bits lvl .. sigma-1 end where the row for bit lvl-1 does. */
  lemma {:induction false} UptoShrinks(lvl: nat, b: nat, stride: nat, upto: nat, off: nat)
    requires b + 1 == lvl && upto == Remaining(lvl, 0, stride) && off == b * stride
    ensures upto == off + stride && off == Remaining(b, 0, stride)
  {
    Distribute(b, 1, stride);
  }

  /** The slot for bit b in a partly built LSB-first table lies inside it and still holds zeros. */
  lemma {:induction false} LsbSlotFree(data: seq<nat>, b: nat, off: nat, n: nat, left: nat, table: seq<nat>)
    requires off == |LsbRows(data, b)| && n <= left
    requires table == LsbRows(data, b) + Zeroes(left)
    ensures off + n <= |table|
    ensures forall k :: off <= k < off + n ==> table[k] == 0
  {
    forall k | off <= k < off + n
      ensures table[k] == 0
    {
      assert table[k] == Zeroes(left)[k - off];
    }
  }

  /** The number of table entries after the rows for bits 0 .. b-1. */
  ghost function Remaining(sigma: nat, b: nat, stride: nat): nat
  {
    if b <= sigma then (sigma - b) * stride else 0
  }

  /** The row for bit b of an LSB-first table starts right after the rows below it. */
  lemma {:induction false} LsbOffset(data: seq<nat>, b: nat, stride: nat, off: nat)
    requires stride == |data| + 1 && off == b * stride
    ensures off == |LsbRows(data, b)|
  {
    LsbRowsSize(data, b);
  }

  /** What is left of the table after one more row of `stride` entries. */
  lemma {:induction false} LeftShrinks(sigma: nat, b: nat, stride: nat, left: nat)
    requires b < sigma && left == Remaining(sigma, b, stride)
    ensures stride <= left && left - stride == Remaining(sigma, b + 1, stride)
  {
    Distribute(sigma - (b + 1), 1, stride);
  }

  /** Nothing is left once every row is written. */
  lemma {:induction false} LeftEmpty(sigma: nat, stride: nat, left: nat)
    requires left == Remaining(sigma, sigma, stride)
    ensures Zeroes(left) == []
  {
  }

  /** Writing element i at position n of the buffer holding its bucket so far extends the bucket by it. */
  lemma {:induction false} BucketPushed(level: seq<nat>, bit: nat, i: nat, side: nat, before: seq<nat>, after: seq<nat>, n: nat)
    requires i < |level| && side < 2 && BitOf(level[i], bit) == side
    requires n < |before| && before[..n] == Bucket(level[..i], bit, side) && after == before[n := level[i]]
    ensures after[..n + 1] == Bucket(level[..i + 1], bit, side)
  {
    BucketGrow(level, bit, i);
    assert after[..n + 1] == before[..n] + [level[i]];
  }

  /** Element i leaves the bucket of the other bit unchanged. */
  lemma {:induction false} BucketKept(level: seq<nat>, bit: nat, i: nat, side: nat)
    requires i < |level| && side < 2 && BitOf(level[i], bit) != side
    ensures Bucket(level[..i + 1], bit, side) == Bucket(level[..i], bit, side)
  {
    BucketGrow(level, bit, i);
    assert BitOf(level[i], bit) < 2;
  }

  /**
   * The table as either build leaves it after placing the first i elements
   * of `level` for `bit`: entry off + j, for j <= i, holds the number of
   * clear bits among the first j elements; every other entry is as in `table`.
   */
  ghost function Written(table: seq<nat>, off: nat, level: seq<nat>, bit: nat, i: nat): (r: seq<nat>)
    requires i <= |level| && off + |level| + 1 <= |table|
    ensures |r| == |table|
  {
    if i == 0 then table[off := 0]
    else Written(table, off, level, bit, i - 1)[off + i := ZeroCount(level[..i], bit)]
  }

  /** The two entries one step of the build reads: the running count, and the untouched slot after it. */
  lemma {:induction false} WrittenAt(table: seq<nat>, off: nat, level: seq<nat>, bit: nat, i: nat)
    requires i < |level| && off + |level| + 1 <= |table|
    ensures Written(table, off, level, bit, i)[off + i] == ZeroCount(level[..i], bit)
    ensures Written(table, off, level, bit, i)[off + i + 1] == table[off + i + 1]
  {
    if i > 0 {
      WrittenAfter(table, off, level, bit, i - 1, off + i + 1);
    } else {
      assert level[..0] == [];
    }
  }

  /** Entries past the written part are those of the table the build started from. */
  lemma {:induction false} WrittenAfter(table: seq<nat>, off: nat, level: seq<nat>, bit: nat, i: nat, k: nat)
    requires i <= |level| && off + |level| + 1 <= |table| && off + i < k < |table|
    ensures Written(table, off, level, bit, i)[k] == table[k]
  {
    if i > 0 {
      WrittenAfter(table, off, level, bit, i - 1, k);
    }
  }

  /**
   * The table side of one step of either build: the slot after entry i,
   * still zero in the table it started from, is bumped when element i has a
   * clear bit and then receives the running count before it.
   */
  lemma {:induction false} WrittenStep(table: seq<nat>, off: nat, level: seq<nat>, bit: nat, i: nat, cur: seq<nat>, t: seq<nat>)
    requires i < |level| && off + |level| + 1 <= |table| && table[off + i + 1] == 0
    requires cur == Written(table, off, level, bit, i)
    requires BitOf(level[i], bit) == 1 ==> t == cur[off + i + 1 := cur[off + i + 1] + cur[off + i]]
    requires BitOf(level[i], bit) != 1 ==> t == cur[off + i + 1 := cur[off + i + 1] + 1 + cur[off + i]]
    ensures t == Written(table, off, level, bit, i + 1)
  {
    WrittenAt(table, off, level, bit, i);
    ZeroCountStep(level, bit, i);
    assert BitOf(level[i], bit) < 2;
  }

  /** The written part of the table is the rank row of the placed prefix. */
  lemma {:induction false} WrittenRow(table: seq<nat>, off: nat, level: seq<nat>, bit: nat, i: nat)
    requires i <= |level| && off + |level| + 1 <= |table|
    ensures Written(table, off, level, bit, i) == table[..off] + RankRow(level[..i], bit) + table[off + i + 1..]
  {
    if i == 0 {
      assert RankRow(level[..0], bit) == [0];
    } else {
      WrittenRow(table, off, level, bit, i - 1);
      RowGrow(level, bit, i - 1);
      SlotWrite(table, off, RankRow(level[..i - 1], bit), i - 1, Written(table, off, level, bit, i - 1), ZeroCount(level[..i], bit));
    }
  }

  /** The bucket side of one step of either build: element i joins the bucket of its bit. */
  lemma {:induction false} BucketStep(level: seq<nat>, bit: nat, i: nat, zb0: seq<nat>, ob0: seq<nat>, zeros: nat, ones: nat, zb: seq<nat>, ob: seq<nat>, nz: nat, no: nat)
    requires i < |level| && zeros < |zb0| && ones < |ob0|
    requires zb0[..zeros] == Bucket(level[..i], bit, 0) && ob0[..ones] == Bucket(level[..i], bit, 1)
    requires BitOf(level[i], bit) == 1 ==> zb == zb0 && nz == zeros && ob == ob0[ones := level[i]] && no == ones + 1
    requires BitOf(level[i], bit) != 1 ==> zb == zb0[zeros := level[i]] && nz == zeros + 1 && ob == ob0 && no == ones
    ensures nz + no == zeros + ones + 1 && |zb| == |zb0| && |ob| == |ob0|
    ensures zb[..nz] == Bucket(level[..i + 1], bit, 0) && ob[..no] == Bucket(level[..i + 1], bit, 1)
  {
    if BitOf(level[i], bit) == 1 {
      BucketPushed(level, bit, i, 1, ob0, ob, ones);
      BucketKept(level, bit, i, 0);
    } else {
      assert BitOf(level[i], bit) == 0 by {
        assert BitOf(level[i], bit) < 2;
      }
      BucketPushed(level, bit, i, 0, zb0, zb, zeros);
      BucketKept(level, bit, i, 1);
    }
  }

  /** Writing the slot after a partly written row extends the row. */
  lemma SlotWrite(base: seq<nat>, off: nat, row: seq<nat>, i: nat, cur: seq<nat>, v: nat)
    requires |row| == i + 1 && off + i + 1 < |base|
    requires cur == base[..off] + row + base[off + i + 1..]
    ensures cur[off + i + 1 := v] == base[..off] + (row + [v]) + base[off + (i + 1) + 1..]
  {
    assert base[off + i + 1..] == [base[off + i + 1]] + base[off + i + 2..];
  }

  /** The rank row of one more element gains the count of the longer prefix. */
  lemma RowGrow(level: seq<nat>, bit: nat, i: nat)
    requires i < |level|
    ensures RankRow(level[..i + 1], bit) == RankRow(level[..i], bit) + [ZeroCount(level[..i + 1], bit)]
    ensures RankRow(level[..i], bit)[i] == ZeroCount(level[..i], bit)
  {
    var longer := RankRow(level[..i + 1], bit);
    var shorter := RankRow(level[..i], bit);
    assert level[..i][..i] == level[..i];
    assert level[..i + 1][..i + 1] == level[..i + 1];
    forall j | 0 <= j <= i
      ensures longer[j] == shorter[j]
    {
      assert level[..i + 1][..j] == level[..i][..j];
    }
    assert longer == shorter + [ZeroCount(level[..i + 1], bit)];
  }

  /**
   * The wavelet matrix: `length` and `sigma`, the build order, the character
   * type of its mapper, the data and the flat rank-of-zeros table.
   */
  class WaveletMatrix {
    var length: nat
    var sigma: nat
    var order: BuildOrder
    var mapper: CharType
    var data: seq<nat>
    var rank0: seq<nat>

    /** The state every constructor establishes: the table is the one the data and the order determine. */
    ghost predicate Valid()
      reads this
    {
      length == |data| && rank0 == Table(order, data, sigma)
    }

    /** Builds over the ids of a text; the mapper's alphabet fixes sigma. */
    constructor FromText(text: string, t: CharType, order: BuildOrder)
      requires forall i :: 0 <= i < |text| ==> IsValidChar(t, text[i])
      ensures Valid()
      ensures this.order == order && mapper == t && sigma == AlphabetSigma(t)
      ensures |data| == |text| && forall i :: 0 <= i < |text| ==> ToId(t, text[i]) == Some(data[i])
    {
      this.order := order;
      mapper := t;
      length := 0;
      rank0 := [];
      var ids := ToIds(t, text);
      data := ids;
      sigma := AlphabetSigma(t);
      new;
      Build(data);
    }

    /** Builds over given values with a given number of bit levels; the mapper is the default DNA one. */
    constructor FromIds(values: seq<nat>, sigma: nat, order: BuildOrder)
      ensures Valid()
      ensures this.order == order && mapper == Dna && this.sigma == sigma && data == values
    {
      this.order := order;
      mapper := Dna;
      this.sigma := sigma;
      length := 0;
      rank0 := [];
      data := values;
      new;
      Build(data);
    }

    /** Sets the length and fills the table for `input`: empty when there is no data. */
    method Build(input: seq<nat>)
      modifies this`length, this`rank0
      ensures length == |input| && rank0 == Table(order, input, sigma)
    {
      length := |input|;
      if length == 0 {
        rank0 := [];
        return;
      }
      var stride := length + 1;
      rank0 := Zeroes(sigma * stride);
      var current := input;
      if order == MsbFirst {
        BuildMsbFirst(current);
      } else {
        BuildLsbFirst(current);
      }
    }

    /** Fills the rows from the top bit down, partitioning the level after each row. */
    method BuildMsbFirst(current: seq<nat>)
      requires length == |current| > 0 && rank0 == Zeroes(sigma * (length + 1))
      modifies this`rank0
      ensures rank0 == MsbTable(current, sigma, 0)
    {
      var stride := length + 1;
      var zeroBucket := Zeroes(length);
      var oneBucket := Zeroes(length);
      var level := current;
      var lvl: nat := sigma;
      var upto: nat := sigma * stride;
      assert upto == Remaining(lvl, 0, stride);
      assert rank0 == Zeroes(upto) + MsbTable(current, sigma, lvl);
      while lvl > 0
        invariant lvl <= sigma && level == MsbStage(current, sigma, lvl) && |zeroBucket| == |oneBucket| == length
        invariant upto == Remaining(lvl, 0, stride)
        invariant rank0 == Zeroes(upto) + MsbTable(current, sigma, lvl)
      {
        var bit: nat := lvl - 1;
        var off := MulNat(bit, stride);
        UptoShrinks(lvl, bit, stride, upto, off);
        MsbSlotFree(current, sigma, bit, off, stride, rank0);
        ghost var before := rank0;
        ghost var row := level;
        level, zeroBucket, oneBucket := FillRow(level, bit, off, zeroBucket, oneBucket);
        MsbRowDone(current, sigma, row, bit, off, stride, before, rank0);
        lvl, upto := bit, off;
      }
      assert upto == Remaining(0, 0, stride) == 0;
      assert rank0 == [] + MsbTable(current, sigma, 0);
    }

    /** Fills the rows from bit 0 up, partitioning the level after each row. */
    method BuildLsbFirst(current: seq<nat>)
      requires length == |current| > 0 && rank0 == Zeroes(sigma * (length + 1))
      modifies this`rank0
      ensures rank0 == LsbRows(current, sigma)
    {
      var stride := length + 1;
      var zeroBucket := Zeroes(length);
      var oneBucket := Zeroes(length);
      var level := current;
      var left: nat := sigma * stride;
      assert left == Remaining(sigma, 0, stride);
      assert rank0 == LsbRows(current, 0) + Zeroes(left);
      var bit: nat := 0;
      while bit < sigma
        invariant bit <= sigma && level == LsbStage(current, bit) && |zeroBucket| == |oneBucket| == length
        invariant left == Remaining(sigma, bit, stride)
        invariant rank0 == LsbRows(current, bit) + Zeroes(left)
      {
        var off := MulNat(bit, stride);
        LsbOffset(current, bit, stride, off);
        LeftShrinks(sigma, bit, stride, left);
        LsbSlotFree(current, bit, off, stride, left, rank0);
        ghost var before := rank0;
        ghost var row := level;
        level, zeroBucket, oneBucket := FillRow(level, bit, off, zeroBucket, oneBucket);
        LsbRowDone(current, row, bit, off, stride, left, before, rank0);
        bit, left := bit + 1, left - stride;
      }
      LeftEmpty(sigma, stride, left);
      assert rank0 == LsbRows(current, sigma) + [];
    }

    /**
     * One level of either build: writes the rank-of-zeros row for `bit` of
     * `level` into its slot of the table, and returns the level's stable
     * zeros-then-ones partition, gathered through the two bucket buffers
     * (reused from level to level; only their first zeros and ones entries
     * are read).
     */
    method FillRow(level: seq<nat>, bit: nat, off: nat, zeroBuffer: seq<nat>, oneBuffer: seq<nat>)
      returns (next: seq<nat>, zeroBucket: seq<nat>, oneBucket: seq<nat>)
      requires |level| == length == |zeroBuffer| == |oneBuffer|
      requires off + (|level| + 1) <= |rank0|
      requires forall k :: off <= k < off + (|level| + 1) ==> rank0[k] == 0
      modifies this`rank0
      ensures |zeroBucket| == |oneBucket| == length
      ensures next == Partition(level, bit)
      ensures rank0 == old(rank0)[..off] + RankRow(level, bit) + old(rank0)[off + (|level| + 1)..]
    {
      ghost var base := rank0;
      zeroBucket, oneBucket := zeroBuffer, oneBuffer;
      var zeros: nat, ones: nat := 0, 0;
      assert base[off := 0] == base;
      for i := 0 to |level|
        invariant zeros + ones == i && |zeroBucket| == |oneBucket| == |level|
        invariant zeroBucket[..zeros] == Bucket(level[..i], bit, 0) && oneBucket[..ones] == Bucket(level[..i], bit, 1)
        invariant rank0 == Written(base, off, level, bit, i)
      {
        ghost var cur := rank0;
        ghost var zb0, ob0, zeros0, ones0 := zeroBucket, oneBucket, zeros, ones;
        zeroBucket, oneBucket, zeros, ones := PlaceElement(level, bit, off, i, zeroBucket, oneBucket, zeros, ones);
        BucketStep(level, bit, i, zb0, ob0, zeros0, ones0, zeroBucket, oneBucket, zeros, ones);
        WrittenStep(base, off, level, bit, i, cur, rank0);
      }
      WrittenRow(base, off, level, bit, |level|);
      assert level[..|level|] == level;
      next := zeroBucket[..zeros] + oneBucket[..ones];
    }

    /**
     * One pass of the inner loop of either build: element i goes to the next
     * free place of the bucket of its bit, and the slot after entry i of the
     * row is bumped for a clear bit and then adds the entry before it.
     */
    method PlaceElement(level: seq<nat>, bit: nat, off: nat, i: nat, zeroBucket: seq<nat>, oneBucket: seq<nat>, zeros: nat, ones: nat)
      returns (zb: seq<nat>, ob: seq<nat>, nz: nat, no: nat)
      requires i < |level| && zeros < |zeroBucket| && ones < |oneBucket| && off + i + 1 < |rank0|
      modifies this`rank0
      ensures BitOf(level[i], bit) == 1 ==> zb == zeroBucket && nz == zeros && ob == oneBucket[ones := level[i]] && no == ones + 1
      ensures BitOf(level[i], bit) != 1 ==> zb == zeroBucket[zeros := level[i]] && nz == zeros + 1 && ob == oneBucket && no == ones
      ensures BitOf(level[i], bit) == 1 ==> rank0 == old(rank0)[off + i + 1 := old(rank0)[off + i + 1] + old(rank0)[off + i]]
      ensures BitOf(level[i], bit) != 1 ==> rank0 == old(rank0)[off + i + 1 := old(rank0)[off + i + 1] + 1 + old(rank0)[off + i]]
    {
      zb, ob, nz, no := zeroBucket, oneBucket, zeros, ones;
      var isOne := BitOf(level[i], bit) == 1;
      if isOne {
        ob := ob[no := level[i]];
        no := no + 1;
      } else {
        zb := zb[nz := level[i]];
        nz := nz + 1;
        rank0 := rank0[off + i + 1 := rank0[off + i + 1] + 1];
      }
      rank0 := rank0[off + i + 1 := rank0[off + i + 1] + rank0[off + i]];
    }

    /**
     * `Access`: the value at position i, read bit by bit from the most
     * significant level down (see AccessWalk). On an MSB-first matrix this
     * is element i of the data, reduced to sigma bits.
     */
    method Access(i: nat) returns (r: Result<nat, WmError>)
      requires Valid()
      ensures r.Failure? <==> i >= length
      ensures r.Failure? ==> r.error == WmError.OutOfRange
      ensures r.Success? ==> r.value < Pow2(sigma) && r.value == AccessPath(rank0, length, sigma, i, 0)
      ensures r.Success? && order == MsbFirst ==> r.value == Low(data[i], sigma)
    {
      if i >= length {
        return Failure(WmError.OutOfRange);
      }
      var value := AccessWalk(order, data, sigma, rank0, i);
      return Success(value);
    }

    /**
     * `Quantile`: the k-th smallest value (from 0) among positions
     * [l, r), found by narrowing the window level by level. An empty range
     * is an invalid argument; k beyond the range is out of range.
     */
    method Quantile(l: nat, r: nat, k: nat) returns (res: Result<nat, WmError>)
      requires Valid()
      requires l < r ==> r <= length
      ensures res.Failure? <==> l >= r || k >= r - l
      ensures l >= r ==> res == Failure(WmError.InvalidArgument)
      ensures l < r && k >= r - l ==> res == Failure(WmError.OutOfRange)
      ensures res.Success? ==> res.value < Pow2(sigma)
      ensures res.Success? && order == MsbFirst ==> IsKth(data[l..r], k, res.value, sigma)
    {
      if l >= r {
        return Failure(WmError.InvalidArgument);
      }
      if k >= r - l {
        return Failure(WmError.OutOfRange);
      }
      var value := QuantileWalk(order, data, sigma, rank0, l, r, k);
      return Success(value);
    }

    /** The least value of the window [l, r): the 0-th smallest. */
    method RangeMin(l: nat, r: nat) returns (res: Result<nat, WmError>)
      requires Valid()
      requires l < r ==> r <= length
      ensures res.Failure? <==> l >= r
      ensures res.Failure? ==> res.error == WmError.InvalidArgument
      ensures res.Success? && order == MsbFirst ==>
        (exists i :: l <= i < r && Low(data[i], sigma) == res.value) &&
        (forall i :: l <= i < r ==> res.value <= Low(data[i], sigma))
    {
      if l >= r {
        return Failure(WmError.InvalidArgument);
      }
      res := Quantile(l, r, 0);
      if order == MsbFirst {
        KthFirstIsMin(data[l..r], res.value, sigma);
        WindowMin(data, l, r, res.value, sigma);
      }
    }

    /** The greatest value of the window [l, r): the (r - l - 1)-th smallest. */
    method RangeMax(l: nat, r: nat) returns (res: Result<nat, WmError>)
      requires Valid()
      requires l < r ==> r <= length
      ensures res.Failure? <==> l >= r
      ensures res.Failure? ==> res.error == WmError.InvalidArgument
      ensures res.Success? && order == MsbFirst ==>
        (exists i :: l <= i < r && Low(data[i], sigma) == res.value) &&
        (forall i :: l <= i < r ==> Low(data[i], sigma) <= res.value)
    {
      if l >= r {
        return Failure(WmError.InvalidArgument);
      }
      res := Quantile(l, r, (r - l) - 1);
      if order == MsbFirst {
        KthLastIsMax(data[l..r], res.value, sigma);
        WindowMax(data, l, r, res.value, sigma);
      }
    }

    /** How many elements of the window [l, r) have a value in [x, y); an empty window or range counts nothing. */
    method RangeFreq(l: nat, r: nat, x: nat, y: nat) returns (count: nat)
      requires Valid()
      requires l < r ==> r <= length
      ensures l >= r || x >= y ==> count == 0
      ensures l < r && order == MsbFirst ==> count == |Within(data[l..r], x, y, sigma)|
    {
      if l >= r || x >= y {
        if l < r {
          WithinEmpty(data[l..r], x, y, sigma);
        }
        return 0;
      }
      count := RangeFreqWalk(order, data, sigma, rank0, l, r, x, y);
    }

    /**
     * The distinct values of the window [l, r) that lie in [x, y), each with
     * its number of occurrences, in descending order of value.
     */
    method RangeList(l: nat, r: nat, x: nat, y: nat) returns (out: seq<(nat, nat)>)
      requires Valid()
      requires l < r ==> r <= length
      ensures l >= r || x >= y ==> out == []
      ensures l < r && order == MsbFirst ==> out == Listing(data[l..r], x, y, sigma)
    {
      out := [];
      if l >= r || x >= y {
        return;
      }
      out := RangeListWalk(order, data, sigma, rank0, l, r, x, y);
    }

    /**
     * The k most frequent values of the window [l, r) with their counts,
     * most frequent first: all distinct values are listed, ordered by count,
     * and the first k kept.
     */
    method TopK(l: nat, r: nat, k: nat) returns (top: seq<(nat, nat)>)
      requires Valid()
      requires l < r ==> r <= length
      ensures l >= r ==> top == []
      ensures l < r && order == MsbFirst ==> top == Leading(SortByCount(Listing(data[l..r], 0, Pow2(sigma), sigma)), k)
      ensures l < r && order == MsbFirst ==>
        |top| == Min(k, |Listing(data[l..r], 0, Pow2(sigma), sigma)|) && ByCount(top) &&
        multiset(top) <= multiset(Listing(data[l..r], 0, Pow2(sigma), sigma)) &&
        forall a, b :: a in top && b in multiset(Listing(data[l..r], 0, Pow2(sigma), sigma)) - multiset(top) ==> a.1 >= b.1
    {
      var freq := RangeList(l, r, 0, Pow2(sigma));
      var sorted := SortByCount(freq);
      if |sorted| <= k {
        top := sorted;
      } else {
        top := sorted[..k];
      }
      if l < r && order == MsbFirst {
        LeadingIsTop(freq, k);
      }
    }

    /**
     * The LF step of an FM-index over an LSB-first matrix: the number of
     * elements with a smaller value than c, plus the occurrences of c before
     * `position`.  Other build orders and an empty matrix give 0.
     */
    method RankCF(c: nat, position: nat) returns (rank: nat)
      requires Valid()
      requires position <= length
      ensures order != LsbFirst || length == 0 ==> rank == 0
      ensures order == LsbFirst && length > 0 ==>
        rank == |Within(data, 0, Low(c, sigma), sigma)| + Occ(data[..position], Low(c, sigma), sigma)
    {
      if order != LsbFirst {
        return 0;
      }
      if length == 0 {
        return 0;
      }
      rank := RankCFWalk(data, sigma, rank0, c, position);
    }
  }

  /**
   * The walk `Access` performs, as written, over any table: from level lvl
   * down, a row step of one clear bit moves j to the zeros before it,
   * otherwise j moves into the one half and the bit is set in the result.
   * The walk reads the rows from the most significant bit down whatever the
   * build order. The first guard never fires on a table a build leaves
   * behind.
   */
  function AccessPath(table: seq<nat>, length: nat, lvl: nat, j: nat, result: nat): nat
    decreases lvl
  {
    if lvl == 0 then result
    else
      var bit: nat := lvl - 1;
      var off := bit * (length + 1);
      if off + length >= |table| || j >= length || table[off + j] > j then result
      else if table[off + j + 1] as int - table[off + j] == 1 then AccessPath(table, length, bit, table[off + j], result)
      else AccessPath(table, length, bit, table[off + length] + (j - table[off + j]), Or(result, Pow2(bit)))
  }

  /** One step of AccessPath on a clear bit. */
  lemma AccessPathZero(table: seq<nat>, length: nat, lvl: nat, bit: nat, off: nat, j: nat, result: nat, zb: nat, za: nat)
    requires lvl == bit + 1 && off == bit * (length + 1) && off + length < |table| && j < length
    requires zb == table[off + j] && za == table[off + j + 1] && zb <= j && za - zb == 1
    ensures AccessPath(table, length, lvl, j, result) == AccessPath(table, length, bit, zb, result)
  {
  }

  /** One step of AccessPath on a set bit. */
  lemma AccessPathOne(table: seq<nat>, length: nat, lvl: nat, bit: nat, off: nat, j: nat, result: nat, zb: nat, za: nat,
                      tz: nat, nj: nat, nres: nat)
    requires lvl == bit + 1 && off == bit * (length + 1) && off + length < |table| && j < length
    requires zb == table[off + j] && za == table[off + j + 1] && zb <= j && za - zb != 1
    requires tz == table[off + length] && nj == tz + (j - zb) && nres == Or(result, Pow2(bit))
    ensures AccessPath(table, length, lvl, j, result) == AccessPath(table, length, bit, nj, nres)
  {
  }

  /**
   * The loop of `Access` over the table of a matrix: from the most
   * significant level down, the row entries at i and i+1 tell whether
   * element i has the level's bit clear; i then moves to its place in the
   * zero half or the one half of the next level, and a set bit is or-ed
   * into the result.
   */
  method AccessWalk(order: BuildOrder, data: seq<nat>, sigma: nat, table: seq<nat>, i: nat) returns (result: nat)
    requires table == Table(order, data, sigma) && i < |data|
    ensures result < Pow2(sigma)
    ensures result == AccessPath(table, |data|, sigma, i, 0)
    ensures order == MsbFirst ==> result == Low(data[i], sigma)
  {
    var length := |data|;
    var stride := length + 1;
    result := 0;
    var j: nat := i;
    var lvl: nat := sigma;
    ghost var x := data[i];
    ZeroAligned(sigma);
    while lvl > 0
      invariant AccessInv(order, data, sigma, lvl, j, result, x)
      invariant AccessPath(table, length, lvl, j, result) == AccessPath(table, length, sigma, i, 0)
    {
      j, result := AccessLevel(order, data, sigma, table, lvl, j, result, x);
      lvl := lvl - 1;
    }
  }

  /** One level of the Access walk: read the row entries at j and j + 1, then follow the element into its half. */
  method AccessLevel(order: BuildOrder, data: seq<nat>, sigma: nat, table: seq<nat>, lvl: nat, j: nat, result: nat, ghost x: nat)
    returns (nj: nat, nres: nat)
    requires table == Table(order, data, sigma) && lvl > 0 && AccessInv(order, data, sigma, lvl, j, result, x)
    ensures AccessInv(order, data, sigma, lvl - 1, nj, nres, x)
    ensures AccessPath(table, |data|, lvl, j, result) == AccessPath(table, |data|, lvl - 1, nj, nres)
  {
    var length := |data|;
    var bit: nat := lvl - 1;
    var off := MulNat(bit, length + 1);
    RowEntries(order, data, sigma, bit, off, j);
    var zBefore := table[off + j];
    var zAfter := table[off + j + 1];
    if zAfter - zBefore == 1 {
      AccessZero(order, data, sigma, bit, off, j, result, x, zBefore, zAfter);
      AccessPathZero(table, length, lvl, bit, off, j, result, zBefore, zAfter);
      nj, nres := zBefore, result;
    } else {
      var totalZeros := table[off + length];
      AccessOne(order, data, sigma, bit, off, j, result, x, zBefore, zAfter, totalZeros);
      nj, nres := totalZeros + (j - zBefore), Or(result, Pow2(bit));
      AccessPathOne(table, length, lvl, bit, off, j, result, zBefore, zAfter, totalZeros, nj, nres);
    }
  }

  /** The bits of 2 and 1. */
  lemma TwoOneBits()
    ensures BitOf(2, 0) == 0 && BitOf(1, 0) == 1 && BitOf(2, 1) == 1 && BitOf(1, 1) == 0
  {
    assert Pow2(0) == 1 && Pow2(1) == 2;
  }

  /** The rows of bit 0 and bit 1 over the level [2, 1]. */
  lemma TwoOneRows()
    ensures Partition([2, 1], 0) == [2, 1]
    ensures RankRow([2, 1], 0) == [0, 1, 1] && RankRow([2, 1], 1) == [0, 0, 1]
  {
    TwoOneBits();
    var s: seq<nat> := [2, 1];
    assert s[..0] == [] && s[..1] == [2] && s[..2] == s;
    assert [2][..0] == [];
    assert Bucket([2], 0, 0) == [2] && Bucket([2], 0, 1) == [];
    assert Bucket([2], 1, 0) == [];
    assert Bucket(s, 0, 0) == [2] && Bucket(s, 0, 1) == [1];
    assert Bucket(s, 1, 0) == [1];
  }

  /** The table of an LSB-first build over [2, 1] with two bit levels. */
  lemma LsbTwoOneTable()
    ensures Table(LsbFirst, [2, 1], 2) == [0, 1, 1, 0, 0, 1]
  {
    TwoOneRows();
    assert LsbStage([2, 1], 1) == Partition([2, 1], 0);
    assert LsbRows([2, 1], 1) == [0, 1, 1];
  }

  /**
   * Access walks the rows from the most significant bit down whatever the
   * build order: on the LSB-first matrix over [2, 1] with two bit levels,
   * position 0 reads back 3 although the element is 2.
   */
  lemma LsbAccessMisreads()
    ensures AccessPath(Table(LsbFirst, [2, 1], 2), 2, 2, 0, 0) == 3
    ensures Low([2, 1][0], 2) == 2
  {
    LsbTwoOneTable();
    var t: seq<nat> := [0, 1, 1, 0, 0, 1];
    assert Pow2(0) == 1 && Pow2(1) == 2 && Pow2(2) == 4;
    assert Or(0, 2) == 2 && Or(2, 1) == 3;
    assert AccessPath(t, 2, 1, 1, 2) == AccessPath(t, 2, 0, 1, 3);
    assert AccessPath(t, 2, 2, 0, 0) == AccessPath(t, 2, 1, 1, 2);
  }

  /**
   * The loop of `Quantile` over the table of a matrix: from the most
   * significant level down, the row entries at the window's ends count its
   * elements with the level's bit clear; if more than k, the window moves
   * to the zero half, otherwise k drops by that count, the window moves to
   * the one half and the bit is set in the result.
   */
  method QuantileWalk(order: BuildOrder, data: seq<nat>, sigma: nat, table: seq<nat>, l: nat, r: nat, k: nat) returns (result: nat)
    requires table == Table(order, data, sigma) && l < r <= |data| && k < r - l
    ensures result < Pow2(sigma)
    ensures order == MsbFirst ==> IsKth(data[l..r], k, result, sigma)
  {
    var length := |data|;
    var stride := length + 1;
    ghost var vals := data[l..r];
    result := 0;
    var left: nat, right: nat, rank: nat := l, r, k;
    var lvl: nat := sigma;
    ZeroAligned(sigma);
    if order == MsbFirst {
      HoldsAtTop(data, l, r, sigma);
      WithinEmpty(vals, 0, 0, sigma);
    }
    while lvl > 0
      invariant QuantInv(order, data, sigma, vals, lvl, left, right, rank, k, result)
    {
      var bit: nat := lvl - 1;
      var off := MulNat(bit, stride);
      RowWindow(order, data, sigma, bit, off, left, right);
      var zLeft := table[off + left];
      var zRight := table[off + right];
      var zeroCount := zRight - zLeft;
      if rank < zeroCount {
        QuantZeroStep(order, data, sigma, vals, lvl, bit, off, left, right, rank, k, result, zLeft, zRight);
        left, right := zLeft, zRight;
      } else {
        var totalZeros := table[off + length];
        var nextLeft := totalZeros + (left - zLeft);
        var nextRight := totalZeros + (right - zRight);
        var nextRank := rank - zeroCount;
        var next := Or(result, Pow2(bit));
        QuantOneStep(order, data, sigma, vals, lvl, bit, off, left, right, rank, nextRank, k, result, next, zLeft, zRight, totalZeros, nextLeft, nextRight);
        left, right, rank, result := nextLeft, nextRight, nextRank, next;
      }
      lvl := bit;
    }
    QuantEnd(order, data, sigma, vals, left, right, rank, k, result);
  }

  // ---------------------------------------------------------------------------
  // The range walks of RangeFreq and RangeList: a stack of pending buckets
  // ---------------------------------------------------------------------------

  /** A pending node of the range walks: the window [left, right) of the level for lvl, covering the bucket from prefix. */
  datatype Node = Node(left: nat, right: nat, lvl: nat, prefix: nat)

  /**
   * Where a node may lie whatever the build order: its window inside a
   * level, its bucket [prefix, prefix + 2^lvl) aligned and below 2^sigma.
   */
  ghost predicate Placed(data: seq<nat>, sigma: nat, left: nat, right: nat, lvl: nat, prefix: nat)
  {
    lvl <= sigma && left <= right <= |data| && prefix % Pow2(lvl) == 0 && prefix + Pow2(lvl) <= Pow2(sigma)
  }

  /**
   * What every pending node satisfies: it is placed, and on an MSB-first
   * matrix its window holds exactly the values of `vals` in its bucket.
   */
  ghost predicate Fits(order: BuildOrder, data: seq<nat>, sigma: nat, vals: seq<nat>, left: nat, right: nat, lvl: nat, prefix: nat)
  {
    Placed(data, sigma, left, right, lvl, prefix) &&
    (order == MsbFirst ==> Holds(MsbStage(data, sigma, lvl), left, right, vals, prefix, lvl, sigma))
  }

  /** Fits, for a node. */
  ghost predicate NodeOk(order: BuildOrder, data: seq<nat>, sigma: nat, vals: seq<nat>, n: Node)
  {
    Fits(order, data, sigma, vals, n.left, n.right, n.lvl, n.prefix)
  }

  /** A node's bucket meets [x, y): the walks push only such nodes. */
  ghost predicate Meets(n: Node, x: nat, y: nat)
  {
    x < n.prefix + Pow2(n.lvl) && n.prefix < y
  }

  /**
   * c is the clear-bit half of the inner node n: on the level below, its
   * window is where the clear-bit elements of n's window go, and its bucket
   * is the lower half of n's.
   */
  ghost predicate IsZeroHalf(order: BuildOrder, data: seq<nat>, sigma: nat, n: Node, c: Node)
  {
    n.lvl == c.lvl + 1 && c.lvl < sigma && n.left <= n.right <= |data| && c.prefix == n.prefix &&
    c.left == ZeroCount(Level(order, data, sigma, c.lvl)[..n.left], c.lvl) &&
    c.right == ZeroCount(Level(order, data, sigma, c.lvl)[..n.right], c.lvl)
  }

  /**
   * c is the set-bit half of the inner node n: its window is where the
   * set-bit elements of n's window go, behind all clear bits of the level,
   * and its bucket is the upper half of n's.
   */
  ghost predicate IsOneHalf(order: BuildOrder, data: seq<nat>, sigma: nat, n: Node, c: Node)
  {
    n.lvl == c.lvl + 1 && c.lvl < sigma && n.left <= n.right <= |data| && c.prefix == n.prefix + Pow2(c.lvl) &&
    c.left == ZeroCount(Level(order, data, sigma, c.lvl), c.lvl) + (n.left - ZeroCount(Level(order, data, sigma, c.lvl)[..n.left], c.lvl)) &&
    c.right == ZeroCount(Level(order, data, sigma, c.lvl), c.lvl) + (n.right - ZeroCount(Level(order, data, sigma, c.lvl)[..n.right], c.lvl))
  }

  /** Every node of a stack is a pending node. */
  ghost predicate AllOk(order: BuildOrder, data: seq<nat>, sigma: nat, vals: seq<nat>, st: seq<Node>)
  {
    forall i :: 0 <= i < |st| ==> NodeOk(order, data, sigma, vals, st[i])
  }

  /** Popping keeps the rest of the stack pending and hands out a pending node. */
  lemma AllOkPop(order: BuildOrder, data: seq<nat>, sigma: nat, vals: seq<nat>, st: seq<Node>)
    requires st != [] && AllOk(order, data, sigma, vals, st)
    ensures AllOk(order, data, sigma, vals, st[..|st| - 1]) && NodeOk(order, data, sigma, vals, st[|st| - 1])
  {
  }

  /** Pushing a pending node keeps the stack pending. */
  lemma AllOkPush(order: BuildOrder, data: seq<nat>, sigma: nat, vals: seq<nat>, st: seq<Node>, n: Node)
    requires AllOk(order, data, sigma, vals, st) && NodeOk(order, data, sigma, vals, n)
    ensures AllOk(order, data, sigma, vals, st + [n])
  {
  }

  /** The size of the subtree still to visit below a node: 2^(lvl+1) - 1 nodes at most. */
  ghost function NodeWeight(n: Node): nat
  {
    Pow2(n.lvl) + Pow2(n.lvl) - 1
  }

  /** The work left on a stack, which every iteration of the walks lowers. */
  ghost function Weight(st: seq<Node>): nat
  {
    if st == [] then 0 else Weight(st[..|st| - 1]) + NodeWeight(st[|st| - 1])
  }

  /** How many values of `vals` in [x, y) the nodes of a stack still have to count. */
  ghost function Pending(vals: seq<nat>, st: seq<Node>, x: nat, y: nat, sigma: nat): nat
  {
    if st == [] then 0 else Pending(vals, st[..|st| - 1], x, y, sigma) + Share(vals, st[|st| - 1].prefix, st[|st| - 1].lvl, x, y, sigma)
  }

  /** What one node still has to list: the part of [x, y) inside its bucket, largest value first. */
  ghost function NodeListing(vals: seq<nat>, n: Node, x: nat, y: nat, sigma: nat): seq<(nat, nat)>
  {
    Listing(vals, Max(n.prefix, x), Min(n.prefix + Pow2(n.lvl), y), sigma)
  }

  /** What the nodes of a stack still have to list, in the order they are popped (top first). */
  ghost function PendingList(vals: seq<nat>, st: seq<Node>, x: nat, y: nat, sigma: nat): seq<(nat, nat)>
  {
    if st == [] then [] else NodeListing(vals, st[|st| - 1], x, y, sigma) + PendingList(vals, st[..|st| - 1], x, y, sigma)
  }

  /** Pushing a node adds its weight, its count and its listing (in front) to the stack's. */
  lemma {:induction false} StackPush(vals: seq<nat>, st: seq<Node>, n: Node, x: nat, y: nat, sigma: nat)
    ensures Weight(st + [n]) == Weight(st) + NodeWeight(n)
    ensures Pending(vals, st + [n], x, y, sigma) == Pending(vals, st, x, y, sigma) + Share(vals, n.prefix, n.lvl, x, y, sigma)
    ensures PendingList(vals, st + [n], x, y, sigma) == NodeListing(vals, n, x, y, sigma) + PendingList(vals, st, x, y, sigma)
  {
    assert (st + [n])[..|st|] == st;
  }

  /** The walks start from the root node over [l, r), which counts and lists all of [x, y). */
  lemma {:induction false} RootNode(order: BuildOrder, data: seq<nat>, sigma: nat, l: nat, r: nat, x: nat, y: nat)
    requires l <= r <= |data|
    ensures NodeOk(order, data, sigma, data[l..r], Node(l, r, sigma, 0))
    ensures Pending(data[l..r], [Node(l, r, sigma, 0)], x, y, sigma) == |Within(data[l..r], x, y, sigma)|
    ensures PendingList(data[l..r], [Node(l, r, sigma, 0)], x, y, sigma) == Listing(data[l..r], x, y, sigma)
  {
    var st := [Node(l, r, sigma, 0)];
    assert st[..0] == [];
    ZeroAligned(sigma);
    if order == MsbFirst {
      HoldsAtTop(data, l, r, sigma);
    }
    ShareAtRoot(data[l..r], x, y, sigma);
    ListingAtRoot(data[l..r], x, y, sigma);
  }

  /** A node with an empty window has nothing to count or list. */
  lemma {:induction false} EmptyNode(order: BuildOrder, data: seq<nat>, sigma: nat, vals: seq<nat>, n: Node, x: nat, y: nat)
    requires order == MsbFirst && NodeOk(order, data, sigma, vals, n) && n.right <= n.left
    ensures Share(vals, n.prefix, n.lvl, x, y, sigma) == 0
    ensures NodeListing(vals, n, x, y, sigma) == []
  {
    HoldsEmpty(MsbStage(data, sigma, n.lvl), n.left, vals, n.prefix, n.lvl, sigma);
    ListingOfEmptyBucket(vals, n.prefix, n.lvl, x, y, sigma);
  }

  /** A node at the bottom level counts and lists the frequency of its single value, its window's width. */
  lemma {:induction false} LeafNode(order: BuildOrder, data: seq<nat>, sigma: nat, vals: seq<nat>, n: Node, x: nat, y: nat)
    requires order == MsbFirst && NodeOk(order, data, sigma, vals, n) && n.lvl == 0 && n.left < n.right
    ensures Share(vals, n.prefix, 0, x, y, sigma) == if x <= n.prefix < y then n.right - n.left else 0
    ensures NodeListing(vals, n, x, y, sigma) == if x <= n.prefix < y then [(n.prefix, n.right - n.left)] else []
  {
    HoldsAtBottom(MsbStage(data, sigma, 0), n.left, n.right, vals, n.prefix, sigma);
    ShareLeaf(vals, n.prefix, x, y, sigma);
    ListingLeaf(vals, n.prefix, x, y, sigma);
  }

  /** The row entries at the ends of a window are the clear-bit counts of the level's prefixes up to them. */
  lemma {:induction false} WindowCounts(order: BuildOrder, data: seq<nat>, sigma: nat, b: nat, off: nat, left: nat, right: nat, s: seq<nat>, zl: nat, zr: nat)
    requires |data| > 0 && b < sigma && left <= right <= |data| && off == b * (|data| + 1) && s == Level(order, data, sigma, b)
    requires off + |data| < |Table(order, data, sigma)|
    requires zl == Table(order, data, sigma)[off + left] && zr == Table(order, data, sigma)[off + right]
    ensures zl == ZeroCount(s[..left], b) && zr == ZeroCount(s[..right], b)
  {
    TableAt(order, data, sigma, b, off, left);
    TableAt(order, data, sigma, b, off, right);
  }

  /**
   * The clear-bit child of an inner node, from the clear-bit counts zl and
   * zr of the level `s` up to the node's window ends: a pending node again,
   * for the lower half of the bucket.
   */
  lemma {:induction false} ZeroChild(order: BuildOrder, data: seq<nat>, sigma: nat, vals: seq<nat>, left: nat, right: nat, prefix: nat, lvl: nat, bit: nat, s: seq<nat>, zl: nat, zr: nat)
    requires lvl == bit + 1 && bit < sigma && Fits(order, data, sigma, vals, left, right, lvl, prefix)
    requires s == Level(order, data, sigma, bit) && zl == ZeroCount(s[..left], bit) && zr == ZeroCount(s[..right], bit)
    ensures Fits(order, data, sigma, vals, zl, zr, bit, prefix)
  {
    PartitionRangeCounts(s, bit, left, right);
    PrefixStep(prefix, bit, sigma);
    if order == MsbFirst {
      assert s == MsbStage(data, sigma, bit + 1);
      assert MsbStage(data, sigma, bit) == Partition(s, bit);
      DescendZero(s, bit, left, right, vals, prefix, sigma);
    }
  }

  /**
   * The set-bit child of an inner node, from the clear-bit counts zl and zr
   * of the level `s` up to the node's window ends and tz over all of it: a
   * pending node again, at [nl, nr), for the upper half of the bucket, which
   * starts at `low`.
   */
  lemma {:induction false} OneChild(order: BuildOrder, data: seq<nat>, sigma: nat, vals: seq<nat>, left: nat, right: nat, prefix: nat, lvl: nat, bit: nat, s: seq<nat>, zl: nat, zr: nat, tz: nat, nl: nat, nr: nat, low: nat)
    requires lvl == bit + 1 && bit < sigma && Fits(order, data, sigma, vals, left, right, lvl, prefix)
    requires s == Level(order, data, sigma, bit)
    requires zl == ZeroCount(s[..left], bit) && zr == ZeroCount(s[..right], bit) && tz == ZeroCount(s, bit)
    requires zl <= left && zr <= right && nl == tz + (left - zl) && nr == tz + (right - zr)
    requires low == prefix + Pow2(bit)
    ensures Fits(order, data, sigma, vals, nl, nr, bit, low)
  {
    PartitionRangeCounts(s, bit, left, right);
    UpperAligned(prefix, low, bit, sigma);
    if order == MsbFirst {
      assert s == MsbStage(data, sigma, bit + 1);
      assert MsbStage(data, sigma, bit) == Partition(s, bit);
      DescendOne(s, bit, left, right, vals, prefix, sigma, zl, zr, tz, nl, nr);
      HoldsShift(Partition(s, bit), nl, nr, vals, prefix, low, bit, sigma);
    }
  }

  /** The upper half of an aligned bucket, named by its start `low`, is aligned and below 2^sigma. */
  lemma {:induction false} UpperAligned(prefix: nat, low: nat, bit: nat, sigma: nat)
    requires prefix % Pow2(bit + 1) == 0 && prefix + Pow2(bit + 1) <= Pow2(sigma) && low == prefix + Pow2(bit)
    ensures low % Pow2(bit) == 0 && low + Pow2(bit) <= Pow2(sigma)
  {
    PrefixStep(prefix, bit, sigma);
  }

  /** Both halves c0 and c1 of a pending inner node n are pending nodes, and together they weigh less than it. */
  lemma {:induction false} HalvesOk(order: BuildOrder, data: seq<nat>, sigma: nat, vals: seq<nat>, n: Node, c0: Node, c1: Node)
    requires NodeOk(order, data, sigma, vals, n) && IsZeroHalf(order, data, sigma, n, c0) && IsOneHalf(order, data, sigma, n, c1)
    ensures NodeOk(order, data, sigma, vals, c0) && NodeOk(order, data, sigma, vals, c1)
    ensures NodeWeight(c0) + NodeWeight(c1) < NodeWeight(n)
  {
    var bit := c0.lvl;
    var s := Level(order, data, sigma, bit);
    var zl, zr, tz := ZeroCount(s[..n.left], bit), ZeroCount(s[..n.right], bit), ZeroCount(s, bit);
    ZeroChild(order, data, sigma, vals, n.left, n.right, n.prefix, n.lvl, bit, s, zl, zr);
    OneChild(order, data, sigma, vals, n.left, n.right, n.prefix, n.lvl, bit, s, zl, zr, tz, c1.left, c1.right, c1.prefix);
    assert Pow2(bit + 1) == 2 * Pow2(bit);
  }

  /**
   * An inner node's count is the sum of its two halves' counts, a half whose
   * bucket does not meet [x, y) counting nothing.
   */
  lemma {:induction false} InnerShare(vals: seq<nat>, prefix: nat, bit: nat, x: nat, y: nat, sigma: nat)
    requires bit < sigma && prefix % Pow2(bit + 1) == 0
    ensures Share(vals, prefix, bit + 1, x, y, sigma)
         == (if x < prefix + Pow2(bit) && prefix < y then Share(vals, prefix, bit, x, y, sigma) else 0)
          + (if x < prefix + Pow2(bit) + Pow2(bit) && prefix + Pow2(bit) < y then Share(vals, prefix + Pow2(bit), bit, x, y, sigma) else 0)
  {
    ShareSplit(vals, prefix, bit, x, y, sigma);
    ShareMasked(vals, prefix, bit, x, y, sigma);
    ShareMasked(vals, prefix + Pow2(bit), bit, x, y, sigma);
  }

  /** A bucket that does not meet [x, y) counts nothing. */
  lemma ShareMasked(vals: seq<nat>, prefix: nat, lvl: nat, x: nat, y: nat, sigma: nat)
    ensures (if x < prefix + Pow2(lvl) && prefix < y then Share(vals, prefix, lvl, x, y, sigma) else 0)
         == Share(vals, prefix, lvl, x, y, sigma)
  {
    if !(x < prefix + Pow2(lvl) && prefix < y) {
      SharePruned(vals, prefix, lvl, x, y, sigma);
    }
  }

  /** A bucket [p, p + h) that does not meet [x, y) lists nothing. */
  lemma ListingMasked(vals: seq<nat>, p: nat, h: nat, x: nat, y: nat, sigma: nat)
    ensures (if x < p + h && p < y then Listing(vals, Max(p, x), Min(p + h, y), sigma) else [])
         == Listing(vals, Max(p, x), Min(p + h, y), sigma)
  {
    if !(x < p + h && p < y) {
      assert Min(p + h, y) <= Max(p, x);
    }
  }

  /** On counts, an inner node n is its halves c0 (lower) and c1 (upper) that meet [x, y). */
  lemma {:induction false} HalvesCount(vals: seq<nat>, n: Node, c0: Node, c1: Node, x: nat, y: nat, sigma: nat)
    requires n.lvl <= sigma && n.lvl == c0.lvl + 1 && c1.lvl == c0.lvl && n.prefix % Pow2(n.lvl) == 0
    requires c0.prefix == n.prefix && c1.prefix == n.prefix + Pow2(c0.lvl)
    ensures Share(vals, n.prefix, n.lvl, x, y, sigma)
         == (if Meets(c0, x, y) then Share(vals, c0.prefix, c0.lvl, x, y, sigma) else 0)
          + (if Meets(c1, x, y) then Share(vals, c1.prefix, c1.lvl, x, y, sigma) else 0)
  {
    var h := Pow2(c0.lvl);
    assert Pow2(n.lvl) == h + h;
    InnerShare(vals, n.prefix, c0.lvl, x, y, sigma);
    assert Meets(c1, x, y) == (x < n.prefix + h + h && n.prefix + h < y);
    assert Meets(c0, x, y) == (x < n.prefix + h && n.prefix < y);
  }

  /** On listings, an inner node n is its halves c1 (upper) and c0 (lower) that meet [x, y), in that order. */
  lemma {:induction false} HalvesList(vals: seq<nat>, n: Node, c0: Node, c1: Node, x: nat, y: nat, sigma: nat)
    requires n.lvl == c0.lvl + 1 && c1.lvl == c0.lvl
    requires c0.prefix == n.prefix && c1.prefix == n.prefix + Pow2(c0.lvl)
    ensures NodeListing(vals, n, x, y, sigma)
         == (if Meets(c1, x, y) then NodeListing(vals, c1, x, y, sigma) else [])
          + (if Meets(c0, x, y) then NodeListing(vals, c0, x, y, sigma) else [])
  {
    var h := Pow2(c0.lvl);
    assert Pow2(n.lvl) == h + h;
    var upper := Listing(vals, Max(n.prefix + h, x), Min(n.prefix + h + h, y), sigma);
    var lower := Listing(vals, Max(n.prefix, x), Min(n.prefix + h, y), sigma);
    ListingHalves(vals, n.prefix, h, x, y, sigma);
    assert NodeListing(vals, n, x, y, sigma) == upper + lower;
    assert NodeListing(vals, c1, x, y, sigma) == upper;
    assert NodeListing(vals, c0, x, y, sigma) == lower;
    ListingMasked(vals, n.prefix, h, x, y, sigma);
    ListingMasked(vals, n.prefix + h, h, x, y, sigma);
    assert Meets(c1, x, y) == (x < n.prefix + h + h && n.prefix + h < y);
    assert Meets(c0, x, y) == (x < n.prefix + h && n.prefix < y);
  }

  /**
   * The split of an inner node in `RangeFreq` and `RangeList`: from the row
   * entries at the ends of its window and at the row's end it computes the
   * node's two halves, and whether each half's bucket meets [x, y).
   */
  method Children(order: BuildOrder, data: seq<nat>, sigma: nat, table: seq<nat>, n: Node, x: nat, y: nat)
    returns (zeroNode: Node, oneNode: Node, pushZero: bool, pushOne: bool)
    requires table == Table(order, data, sigma) && Placed(data, sigma, n.left, n.right, n.lvl, n.prefix)
    requires n.lvl > 0 && n.left < n.right
    ensures IsZeroHalf(order, data, sigma, n, zeroNode) && IsOneHalf(order, data, sigma, n, oneNode)
    ensures pushZero <==> Meets(zeroNode, x, y)
    ensures pushOne <==> Meets(oneNode, x, y)
  {
    var length := |data|;
    var stride := length + 1;
    var bit: nat := n.lvl - 1;
    var off := MulNat(bit, stride);
    RowWindow(order, data, sigma, bit, off, n.left, n.right);
    var zLeft := table[off + n.left];
    var zRight := table[off + n.right];
    var totalZeros := table[off + length];
    var low0 := n.prefix;
    var high0 := n.prefix + Pow2(bit);
    var low1 := Or(n.prefix, Pow2(bit));
    var high1 := n.prefix + Pow2(bit + 1);
    WindowCounts(order, data, sigma, bit, off, n.left, n.right, Level(order, data, sigma, bit), zLeft, zRight);
    TableEnd(order, data, sigma, bit, off);
    PrefixSet(n.prefix, low1, bit, sigma);
    zeroNode := Node(zLeft, zRight, bit, low0);
    oneNode := Node(totalZeros + (n.left - zLeft), totalZeros + (n.right - zRight), bit, low1);
    pushZero := !(high0 <= x || y <= low0);
    pushOne := !(high1 <= x || y <= low1);
    ChildNodes(order, data, sigma, n, Level(order, data, sigma, bit), zLeft, zRight, totalZeros);
    assert high1 == low1 + Pow2(bit);
  }

  /** The halves of an inner node n, from the clear-bit counts zl, zr up to its window ends and tz over the whole level. */
  lemma ChildNodes(order: BuildOrder, data: seq<nat>, sigma: nat, n: Node, s: seq<nat>, zl: nat, zr: nat, tz: nat)
    requires 0 < n.lvl <= sigma && n.left <= n.right <= |data| && s == Level(order, data, sigma, n.lvl - 1)
    requires zl == ZeroCount(s[..n.left], n.lvl - 1) && zr == ZeroCount(s[..n.right], n.lvl - 1) && tz == ZeroCount(s, n.lvl - 1)
    requires zl <= n.left && zr <= n.right
    ensures IsZeroHalf(order, data, sigma, n, Node(zl, zr, n.lvl - 1, n.prefix))
    ensures IsOneHalf(order, data, sigma, n, Node(tz + (n.left - zl), tz + (n.right - zr), n.lvl - 1, n.prefix + Pow2(n.lvl - 1)))
  {
  }

  /**
   * One split of the range walks: the pending inner node n is replaced on
   * the stack st by those of its halves whose buckets meet [x, y), the
   * clear-bit half first.  The stack gets lighter, and what it still has to
   * count or list is unchanged.
   */
  method Expand(order: BuildOrder, data: seq<nat>, sigma: nat, table: seq<nat>, ghost vals: seq<nat>, st: seq<Node>, n: Node, x: nat, y: nat)
    returns (next: seq<Node>)
    requires table == Table(order, data, sigma) && AllOk(order, data, sigma, vals, st) && NodeOk(order, data, sigma, vals, n)
    requires n.lvl > 0 && n.left < n.right
    ensures AllOk(order, data, sigma, vals, next)
    ensures Weight(next) < Weight(st) + NodeWeight(n)
    ensures order == MsbFirst ==> Pending(vals, next, x, y, sigma) == Share(vals, n.prefix, n.lvl, x, y, sigma) + Pending(vals, st, x, y, sigma)
    ensures order == MsbFirst ==> PendingList(vals, next, x, y, sigma) == NodeListing(vals, n, x, y, sigma) + PendingList(vals, st, x, y, sigma)
  {
    var zeroNode, oneNode, pushZero, pushOne := Children(order, data, sigma, table, n, x, y);
    HalvesOk(order, data, sigma, vals, n, zeroNode, oneNode);
    ghost var lower := if pushZero then NodeListing(vals, zeroNode, x, y, sigma) else [];
    ghost var upper := if pushOne then NodeListing(vals, oneNode, x, y, sigma) else [];
    if order == MsbFirst {
      HalvesCount(vals, n, zeroNode, oneNode, x, y, sigma);
      HalvesList(vals, n, zeroNode, oneNode, x, y, sigma);
    }
    next := st;
    if pushZero {
      StackPush(vals, next, zeroNode, x, y, sigma);
      AllOkPush(order, data, sigma, vals, next, zeroNode);
      next := next + [zeroNode];
    }
    assert PendingList(vals, next, x, y, sigma) == lower + PendingList(vals, st, x, y, sigma);
    if pushOne {
      StackPush(vals, next, oneNode, x, y, sigma);
      AllOkPush(order, data, sigma, vals, next, oneNode);
      next := next + [oneNode];
    }
    Assoc(upper, lower, PendingList(vals, st, x, y, sigma));
  }

  /**
   * The loop of `RangeFreq` over the table of a matrix: a stack of nodes,
   * each a window of a level and the aligned bucket of values it covers,
   * starts from the window [l, r) at the top. A popped node with an empty
   * window adds nothing; one at the bottom adds its width when its value
   * lies in [x, y); any other is split into its two halves, and each half
   * whose bucket meets [x, y) is pushed, the clear-bit half first.
   */
  method RangeFreqWalk(order: BuildOrder, data: seq<nat>, sigma: nat, table: seq<nat>, l: nat, r: nat, x: nat, y: nat) returns (count: nat)
    requires table == Table(order, data, sigma) && l < r <= |data| && x < y
    ensures order == MsbFirst ==> count == |Within(data[l..r], x, y, sigma)|
  {
    ghost var vals := data[l..r];
    var st: seq<Node> := [Node(l, r, sigma, 0)];
    count := 0;
    RootNode(order, data, sigma, l, r, x, y);
    while st != []
      invariant AllOk(order, data, sigma, vals, st)
      invariant order == MsbFirst ==> count + Pending(vals, st, x, y, sigma) == |Within(vals, x, y, sigma)|
      decreases Weight(st)
    {
      var n := st[|st| - 1];
      AllOkPop(order, data, sigma, vals, st);
      st := st[..|st| - 1];
      if n.left >= n.right {
        if order == MsbFirst {
          EmptyNode(order, data, sigma, vals, n, x, y);
        }
        continue;
      }
      if n.lvl == 0 {
        if order == MsbFirst {
          LeafNode(order, data, sigma, vals, n, x, y);
        }
        if x <= n.prefix < y {
          count := count + (n.right - n.left);
        }
        continue;
      }
      st := Expand(order, data, sigma, table, vals, st, n, x, y);
    }
  }

  /**
   * The range-list walk: the same descent as the range-frequency walk, but
   * every non-empty leaf with its value in [x, y) contributes the pair
   * (value, count) to the output.  Because the set-bit half is pushed last
   * and so popped first, the pairs come out in descending order of value.
   */
  method RangeListWalk(order: BuildOrder, data: seq<nat>, sigma: nat, table: seq<nat>, l: nat, r: nat, x: nat, y: nat)
    returns (out: seq<(nat, nat)>)
    requires table == Table(order, data, sigma) && l < r <= |data| && x < y
    ensures order == MsbFirst ==> out == Listing(data[l..r], x, y, sigma)
  {
    ghost var vals := data[l..r];
    var st: seq<Node> := [Node(l, r, sigma, 0)];
    out := [];
    RootNode(order, data, sigma, l, r, x, y);
    while st != []
      invariant AllOk(order, data, sigma, vals, st)
      invariant order == MsbFirst ==> out + PendingList(vals, st, x, y, sigma) == Listing(vals, x, y, sigma)
      decreases Weight(st)
    {
      var n := st[|st| - 1];
      AllOkPop(order, data, sigma, vals, st);
      var rest := st[..|st| - 1];
      ghost var pending := PendingList(vals, rest, x, y, sigma);
      ghost var here := NodeListing(vals, n, x, y, sigma);
      assert PendingList(vals, st, x, y, sigma) == here + pending;
      st := rest;
      if n.left >= n.right {
        if order == MsbFirst {
          EmptyNode(order, data, sigma, vals, n, x, y);
          assert here + pending == pending;
        }
        continue;
      }
      if n.lvl == 0 {
        if order == MsbFirst {
          LeafNode(order, data, sigma, vals, n, x, y);
        }
        ghost var before := out;
        if x <= n.prefix < y {
          out := out + [(n.prefix, n.right - n.left)];
        }
        if order == MsbFirst {
          assert out == before + here;
          Assoc(before, here, pending);
          assert out + pending == Listing(vals, x, y, sigma);
        }
        continue;
      }
      st := Expand(order, data, sigma, table, vals, st, n, x, y);
      if order == MsbFirst {
        Assoc(out, here, pending);
      }
    }
  }

  /** Concatenation of listings is associative. */
  lemma Assoc(a: seq<(nat, nat)>, b: seq<(nat, nat)>, c: seq<(nat, nat)>)
    ensures a + (b + c) == (a + b) + c
  {
  }

  /** The first k entries of a list, or all of it when it is shorter. */
  function Leading(s: seq<(nat, nat)>, k: nat): (r: seq<(nat, nat)>)
    ensures |r| == Min(k, |s|) && r == s[..|r|]
  {
    if |s| <= k then s else s[..k]
  }

  /** A list of (value, count) pairs ordered by count, the most frequent first. */
  ghost predicate ByCount(s: seq<(nat, nat)>)
  {
    forall i, j :: 0 <= i < j < |s| ==> s[i].1 >= s[j].1
  }

  /** Inserting a pair into a list ordered by count, ahead of the pairs with the same count. */
  function InsertByCount(e: (nat, nat), s: seq<(nat, nat)>): (r: seq<(nat, nat)>)
    ensures multiset(r) == multiset(s) + multiset{e}
    ensures ByCount(s) ==> ByCount(r)
  {
    if s == [] then [e]
    else if e.1 >= s[0].1 then [e] + s
    else
      var rest := InsertByCount(e, s[1..]);
      assert s == [s[0]] + s[1..];
      assert ByCount(s) ==> ByCount([s[0]] + rest) by {
        if ByCount(s) {
          assert ByCount(s[1..]);
          HeadLeads(s[0], e, s[1..], rest);
        }
      }
      [s[0]] + rest
  }

  /**
   * A pair whose count is at least that of every pair of t and of e also
   * leads any arrangement of t and e.
   */
  lemma HeadLeads(h: (nat, nat), e: (nat, nat), t: seq<(nat, nat)>, rest: seq<(nat, nat)>)
    requires ByCount([h] + t) && ByCount(rest) && e.1 < h.1 && multiset(rest) == multiset(t) + multiset{e}
    ensures ByCount([h] + rest)
  {
    var hs := [h] + rest;
    forall i, j | 0 <= i < j < |hs|
      ensures hs[i].1 >= hs[j].1
    {
      if i == 0 {
        var x := rest[j - 1];
        assert hs[0] == h && hs[j] == x;
        assert x in multiset(rest);
        if x != e {
          assert x in multiset(t);
          var k :| 0 <= k < |t| && t[k] == x;
          assert ([h] + t)[0] == h && ([h] + t)[k + 1] == x;
        }
      } else {
        assert hs[i] == rest[i - 1] && hs[j] == rest[j - 1];
      }
    }
  }

  /**
   * The ordering of a frequency list by descending count (an insertion
   * sort), the ordering `std::sort` gives TopK.
   */
  function SortByCount(s: seq<(nat, nat)>): (r: seq<(nat, nat)>)
    ensures multiset(r) == multiset(s)
    ensures ByCount(r)
  {
    if s == [] then []
    else
      assert s == [s[0]] + s[1..];
      InsertByCount(s[0], SortByCount(s[1..]))
  }

  /** In a list ordered by count, every pair before a cut counts at least as much as every pair after it. */
  lemma CutByCount(sorted: seq<(nat, nat)>, n: nat)
    requires ByCount(sorted) && n <= |sorted|
    ensures forall a, b :: a in sorted[..n] && b in sorted[n..] ==> a.1 >= b.1
  {
    forall a: (nat, nat), b: (nat, nat) | a in sorted[..n] && b in sorted[n..]
      ensures a.1 >= b.1
    {
      var i :| 0 <= i < n && sorted[..n][i] == a;
      var j :| 0 <= j < |sorted| - n && sorted[n..][j] == b;
      assert sorted[i] == a && sorted[n + j] == b;
    }
  }

  /**
   * The first k pairs of a list sorted by count are the k most frequent:
   * they come from the list, and no pair left behind has a larger count than
   * any pair kept.
   */
  lemma {:induction false} LeadingIsTop(s: seq<(nat, nat)>, k: nat)
    ensures multiset(Leading(SortByCount(s), k)) <= multiset(s)
    ensures ByCount(Leading(SortByCount(s), k))
    ensures forall a, b :: a in Leading(SortByCount(s), k) && b in multiset(s) - multiset(Leading(SortByCount(s), k)) ==> a.1 >= b.1
  {
    var sorted := SortByCount(s);
    var top := Leading(sorted, k);
    var n := |top|;
    assert sorted == top + sorted[n..];
    assert multiset(s) == multiset(top) + multiset(sorted[n..]);
    assert multiset(s) - multiset(top) == multiset(sorted[n..]);
    CutByCount(sorted, n);
    forall i, j | 0 <= i < j < |top|
      ensures top[i].1 >= top[j].1
    {
      assert top[i] == sorted[i] && top[j] == sorted[j];
    }
  }

  /** The least value of a window of the data, as the least of the window's values. */
  lemma WindowMin(data: seq<nat>, l: nat, r: nat, q: nat, sigma: nat)
    requires l <= r <= |data|
    requires exists i :: 0 <= i < |data[l..r]| && Low(data[l..r][i], sigma) == q
    requires forall i :: 0 <= i < |data[l..r]| ==> q <= Low(data[l..r][i], sigma)
    ensures exists i :: l <= i < r && Low(data[i], sigma) == q
    ensures forall i :: l <= i < r ==> q <= Low(data[i], sigma)
  {
    var i :| 0 <= i < |data[l..r]| && Low(data[l..r][i], sigma) == q;
    assert data[l + i] == data[l..r][i];
    forall j | l <= j < r
      ensures q <= Low(data[j], sigma)
    {
      assert data[j] == data[l..r][j - l];
    }
  }

  /** The greatest value of a window of the data, as the greatest of the window's values. */
  lemma WindowMax(data: seq<nat>, l: nat, r: nat, q: nat, sigma: nat)
    requires l <= r <= |data|
    requires exists i :: 0 <= i < |data[l..r]| && Low(data[l..r][i], sigma) == q
    requires forall i :: 0 <= i < |data[l..r]| ==> Low(data[l..r][i], sigma) <= q
    ensures exists i :: l <= i < r && Low(data[i], sigma) == q
    ensures forall i :: l <= i < r ==> Low(data[i], sigma) <= q
  {
    var i :| 0 <= i < |data[l..r]| && Low(data[l..r][i], sigma) == q;
    assert data[l + i] == data[l..r][i];
    forall j | l <= j < r
      ensures Low(data[j], sigma) <= q
    {
      assert data[j] == data[l..r][j - l];
    }
  }

  /**
   * The loop of `RankCF` over the table of an LSB-first matrix: bit by bit
   * from the least significant, the position moves into the bucket of c's
   * bit, and at the end it counts the elements below c and the occurrences
   * of c before the start position.
   */
  method RankCFWalk(data: seq<nat>, sigma: nat, table: seq<nat>, c: nat, position: nat) returns (rank: nat)
    requires table == Table(LsbFirst, data, sigma) && |data| > 0 && position <= |data|
    ensures rank == LfPos(data, position, c, sigma)
    ensures rank == |Within(data, 0, Low(c, sigma), sigma)| + Occ(data[..position], Low(c, sigma), sigma)
  {
    rank := position;
    var bit: nat := 0;
    while bit < sigma
      invariant bit <= sigma && rank == LfPos(data, position, c, bit)
    {
      rank := RankStep(data, sigma, table, c, position, bit, rank);
      bit := bit + 1;
    }
    LfPosCounts(data, position, c, sigma);
  }

  /**
   * One level of `RankCF`: with bit `bit` of c clear the position moves to
   * the zeros before it, with the bit set to the total zeros plus the ones
   * before it.
   */
  method RankStep(data: seq<nat>, sigma: nat, table: seq<nat>, c: nat, position: nat, bit: nat, rank: nat) returns (next: nat)
    requires table == Table(LsbFirst, data, sigma) && |data| > 0 && bit < sigma && position <= |data|
    requires rank == LfPos(data, position, c, bit)
    ensures next == LfPos(data, position, c, bit + 1)
  {
    var zpos, totalZeros := LsbRow(data, sigma, table, bit, rank);
    if BitOf(c, bit) == 0 {
      LfPosZero(data, position, c, bit, rank, zpos);
      next := zpos;
    } else {
      LfPosOne(data, position, c, bit, rank, zpos, totalZeros);
      next := totalZeros + (rank - zpos);
    }
  }

  /**
   * The two entries of row `bit` of an LSB-first table that one step of
   * `RankCF` reads: the zeros before `pos`, and all zeros of the level.
   */
  method LsbRow(data: seq<nat>, sigma: nat, table: seq<nat>, bit: nat, pos: nat) returns (zpos: nat, totalZeros: nat)
    requires table == Table(LsbFirst, data, sigma) && |data| > 0 && bit < sigma && pos <= |data|
    ensures zpos == ZeroCount(LsbStage(data, bit)[..pos], bit) && totalZeros == ZeroCount(LsbStage(data, bit), bit)
    ensures zpos <= pos && totalZeros + (pos - zpos) <= |data|
  {
    var length := |data|;
    var off := MulNat(bit, length + 1);
    assert Level(LsbFirst, data, sigma, bit) == LsbStage(data, bit);
    TableAt(LsbFirst, data, sigma, bit, off, pos);
    TableEnd(LsbFirst, data, sigma, bit, off);
    PartitionRangeCounts(LsbStage(data, bit), bit, pos, pos);
    zpos := table[off + pos];
    totalZeros := table[off + length];
  }
}
