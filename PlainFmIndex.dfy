/**
 * The plain FM-index of RingOA (RingOA/wm/plain_wm.cpp): an LSB-first
 * wavelet matrix over the Burrows-Wheeler transform of the reversed text,
 * the backward search that narrows a row interval one query character at
 * a time, the longest-prefix-match length computed through the matrix or
 * directly on the BWT string, and the per-bit encoding of a query that the
 * secure protocols consume.
 */
module PlainFmIndex {
  import opened Bits
  import opened Wrappers
  import opened WaveletLevels
  import opened CharMapper
  import opened PlainWm
  import opened TextCount

  // ---------------------------------------------------------------------------
  // Backward search over a BWT string
  // ---------------------------------------------------------------------------

  /**
   * The LF mapping of character c at row p: the number of characters of
   * the BWT smaller than c (the C-table entry) plus the occurrences of c in
   * the first p rows (its rank).
   */
  function LfChar(bwt: string, c: char, p: nat): (r: nat)
    requires p <= |bwt|
    ensures r <= |bwt|
  {
    BelowAndChar(bwt, c);
    CountPrefixMonotone(bwt, c, p, |bwt|);
    assert bwt[..|bwt|] == bwt;
    CountBelow(bwt, c) + CountChar(bwt[..p], c)
  }

  /** The LF mapping keeps the order of rows. */
  lemma LfMonotone(bwt: string, c: char, p: nat, q: nat)
    requires p <= q <= |bwt|
    ensures LfChar(bwt, c, p) <= LfChar(bwt, c, q)
  {
    CountPrefixMonotone(bwt, c, p, q);
  }

  /**
   * The rows reached after searching the characters of q in order, starting
   * from all rows: each character maps both ends of the interval by LF.
   */
  function Search(bwt: string, q: string): (r: Rows)
    ensures r.left <= r.right <= |bwt|
  {
    if q == [] then Rows(0, |bwt|)
    else
      var prev := Search(bwt, q[..|q| - 1]);
      var c := q[|q| - 1];
      LfMonotone(bwt, c, prev.left, prev.right);
      Rows(LfChar(bwt, c, prev.left), LfChar(bwt, c, prev.right))
  }

  /** The interval after the first k characters of q is not empty. */
  predicate PrefixFound(bwt: string, q: string, k: nat)
    requires k <= |q|
  {
    Search(bwt, q[..k]).Nonempty()
  }

  /** The number of rows after the first k characters of q. */
  function PrefixWidth(bwt: string, q: string, k: nat): nat
    requires k <= |q|
  {
    Search(bwt, q[..k]).right - Search(bwt, q[..k]).left
  }

  /** The number of rows left after each character of q. */
  function Widths(bwt: string, q: string): (r: seq<nat>)
    ensures |r| == |q|
  {
    if q == [] then []
    else
      var rows := Search(bwt, q);
      Widths(bwt, q[..|q| - 1]) + [rows.right - rows.left]
  }

  /** Entry k of the widths is the size of the interval after the first k + 1 characters. */
  lemma {:induction false} WidthsAt(bwt: string, q: string)
    ensures forall k :: 0 <= k < |q| ==> Widths(bwt, q)[k] == PrefixWidth(bwt, q, k + 1)
  {
    if q != [] {
      var init := q[..|q| - 1];
      WidthsAt(bwt, init);
      forall k | 0 <= k < |q|
        ensures Widths(bwt, q)[k] == PrefixWidth(bwt, q, k + 1)
      {
        if k < |init| {
          assert init[..k + 1] == q[..k + 1];
        } else {
          assert q[..k + 1] == q;
        }
      }
    }
  }

  /** The number of leading entries of s that are not zero. */
  function LeadingNonzero(s: seq<nat>): (r: nat)
    ensures r <= |s|
    ensures forall k :: 0 <= k < r ==> s[k] != 0
    ensures r < |s| ==> s[r] == 0
  {
    if s == [] || s[0] == 0 then 0
    else
      var rest := LeadingNonzero(s[1..]);
      assert forall k :: 1 <= k < rest + 1 ==> s[k] == s[1..][k - 1];
      rest + 1
  }

  /**
   * The longest-prefix-match length of a query: the number of leading query
   * characters after each of which the row interval is still non-empty.
   */
  function Lpm(bwt: string, q: string): (r: nat)
    ensures r <= |q|
    ensures forall k :: 1 <= k <= r ==> PrefixFound(bwt, q, k)
    ensures r < |q| ==> !PrefixFound(bwt, q, r + 1)
  {
    var widths := Widths(bwt, q);
    var r := LeadingNonzero(widths);
    WidthsAt(bwt, q);
    assert forall k :: 1 <= k <= r ==> PrefixFound(bwt, q, k) by {
      forall k | 1 <= k <= r
        ensures PrefixFound(bwt, q, k)
      {
        assert widths[k - 1] != 0;
      }
    }
    assert r < |q| ==> widths[r] == 0;
    r
  }

  /** An empty interval stays empty whatever character is searched next. */
  lemma EmptyStays(bwt: string, q: string, c: char)
    requires !Search(bwt, q).Nonempty()
    ensures !Search(bwt, q + [c]).Nonempty()
  {
    assert (q + [c])[..|q|] == q;
  }

  /** A non-empty interval was reached through non-empty intervals only. */
  lemma {:induction false} NonemptyPrefixes(bwt: string, q: string)
    requires Search(bwt, q).Nonempty()
    ensures forall k :: 1 <= k <= |q| ==> PrefixFound(bwt, q, k)
  {
    if q != [] {
      var init := q[..|q| - 1];
      assert q == init + [q[|q| - 1]];
      if !Search(bwt, init).Nonempty() {
        EmptyStays(bwt, init, q[|q| - 1]);
      }
      NonemptyPrefixes(bwt, init);
      forall k | 1 <= k <= |q|
        ensures PrefixFound(bwt, q, k)
      {
        if k < |q| {
          assert q[..k] == init[..k];
          assert PrefixFound(bwt, init, k);
        } else {
          assert q[..k] == q;
        }
      }
    }
  }

  /**
   * Searching one more character adds one to the match length exactly when
   * the new interval is non-empty: the match length is the number of
   * non-empty intervals, not only the leading ones.
   */
  lemma LpmSnoc(bwt: string, q: string, c: char)
    ensures Lpm(bwt, q + [c]) == Lpm(bwt, q) + (if Search(bwt, q + [c]).Nonempty() then 1 else 0)
  {
    var s := q + [c];
    var rq, rs := Lpm(bwt, q), Lpm(bwt, s);
    assert forall k :: 0 <= k <= |q| ==> s[..k] == q[..k];
    assert forall k :: 1 <= k <= |q| ==> (PrefixFound(bwt, s, k) <==> PrefixFound(bwt, q, k));
    assert PrefixFound(bwt, s, |s|) <==> Search(bwt, s).Nonempty() by {
      assert s[..|s|] == s;
    }
    if Search(bwt, s).Nonempty() {
      NonemptyPrefixes(bwt, s);
    }
  }

  // ---------------------------------------------------------------------------
  // The wavelet matrix's LF step is the LF mapping of the BWT
  // ---------------------------------------------------------------------------

  /** An id fits in sigma bits, so the matrix indexes all of it. */
  lemma LowOfId(x: nat, sigma: nat)
    requires x < Pow2(sigma)
    ensures Low(x, sigma) == x
  {
    DivModUnique(x, Pow2(sigma), 0, x);
  }

  /** An alphabet character and its id: the id fits in sigma bits and ids compare as the characters do. */
  lemma IdOrder(t: CharType, a: char, b: char)
    requires IsValidChar(t, a) && IsValidChar(t, b)
    ensures Low(ToId(t, a).value, AlphabetSigma(t)) == ToId(t, a).value
    ensures a < b <==> ToId(t, a).value < ToId(t, b).value
    ensures a == b <==> ToId(t, a).value == ToId(t, b).value
  {
    AlphabetFacts(t);
    var i, j := ToId(t, a).value, ToId(t, b).value;
    LowOfId(i, AlphabetSigma(t));
    if i < j {
      assert Alphabet(t)[i] < Alphabet(t)[j];
    } else if j < i {
      assert Alphabet(t)[j] < Alphabet(t)[i];
    }
  }

  /**
   * ids stands for s as seen from character c with id `id`: each id is
   * indexed whole by the matrix, is below `id` exactly when its character
   * is below c, and equals `id` exactly when its character is c.
   */
  ghost predicate IdsMatch(s: string, ids: seq<nat>, c: char, id: nat, sigma: nat)
  {
    |ids| == |s|
    && forall i :: 0 <= i < |s| ==>
      Low(ids[i], sigma) == ids[i] && (s[i] < c <==> ids[i] < id) && (s[i] == c <==> ids[i] == id)
  }

  lemma IdsMatchPrefix(s: string, ids: seq<nat>, c: char, id: nat, sigma: nat, n: nat)
    requires IdsMatch(s, ids, c, id, sigma) && n <= |s|
    ensures IdsMatch(s[..n], ids[..n], c, id, sigma)
  {
  }

  /** The ids of the characters of an alphabet string stand for it as seen from any alphabet character. */
  lemma IdsMatchFromIds(t: CharType, s: string, ids: seq<nat>, c: char)
    requires |ids| == |s| && forall i :: 0 <= i < |s| ==> ToId(t, s[i]) == Some(ids[i])
    requires IsValidChar(t, c)
    ensures IdsMatch(s, ids, c, ToId(t, c).value, AlphabetSigma(t))
  {
    forall i | 0 <= i < |s|
      ensures Low(ids[i], AlphabetSigma(t)) == ids[i]
      ensures s[i] < c <==> ids[i] < ToId(t, c).value
      ensures s[i] == c <==> ids[i] == ToId(t, c).value
    {
      assert ToId(t, s[i]) == Some(ids[i]);
      IdOrder(t, s[i], c);
    }
  }

  /** The ids below `id` are the characters below c. */
  lemma {:induction false} IdsBelow(s: string, ids: seq<nat>, c: char, id: nat, sigma: nat)
    requires IdsMatch(s, ids, c, id, sigma)
    ensures |Within(ids, 0, id, sigma)| == CountBelow(s, c)
  {
    if s != [] {
      var n := |s| - 1;
      IdsMatchPrefix(s, ids, c, id, sigma, n);
      IdsBelow(s[..n], ids[..n], c, id, sigma);
      assert ids[..|ids| - 1] == ids[..n];
    }
  }

  /** The ids equal to `id` are the occurrences of c. */
  lemma {:induction false} IdsOcc(s: string, ids: seq<nat>, c: char, id: nat, sigma: nat)
    requires IdsMatch(s, ids, c, id, sigma)
    ensures |Within(ids, id, id + 1, sigma)| == CountChar(s, c)
  {
    if s != [] {
      var n := |s| - 1;
      IdsMatchPrefix(s, ids, c, id, sigma, n);
      IdsOcc(s[..n], ids[..n], c, id, sigma);
      assert ids[..|ids| - 1] == ids[..n];
    }
  }

  /** `RankCF` over the ids of the BWT is the LF mapping of the BWT string. */
  lemma RankIsLf(t: CharType, bwt: string, ids: seq<nat>, c: char, p: nat)
    requires |ids| == |bwt| && forall i :: 0 <= i < |bwt| ==> ToId(t, bwt[i]) == Some(ids[i])
    requires IsValidChar(t, c) && p <= |bwt|
    ensures |Within(ids, 0, Low(ToId(t, c).value, AlphabetSigma(t)), AlphabetSigma(t))|
      + Occ(ids[..p], Low(ToId(t, c).value, AlphabetSigma(t)), AlphabetSigma(t)) == LfChar(bwt, c, p)
  {
    var id, sigma := ToId(t, c).value, AlphabetSigma(t);
    IdOrder(t, c, c);
    IdsMatchFromIds(t, bwt, ids, c);
    IdsMatchPrefix(bwt, ids, c, id, sigma, p);
    IdsBelow(bwt, ids, c, id, sigma);
    IdsOcc(bwt[..p], ids[..p], c, id, sigma);
  }

  // ---------------------------------------------------------------------------
  // The per-bit encoding of a query
  // ---------------------------------------------------------------------------

  /** The first k bits of v, least significant first. */
  function BitsOf(v: nat, k: nat): (r: seq<nat>)
    ensures |r| == k
    ensures forall b :: 0 <= b < k ==> r[b] == BitOf(v, b)
  {
    if k == 0 then [] else BitsOf(v, k - 1) + [BitOf(v, k - 1)]
  }

  /** The bits of each id in turn, sigma bits per id. */
  function BitRows(ids: seq<nat>, sigma: nat): (r: seq<nat>)
    ensures |r| == |ids| * sigma
  {
    if ids == [] then [] else BitRows(ids[..|ids| - 1], sigma) + BitsOf(ids[|ids| - 1], sigma)
  }

  lemma RowIndexBound(i: nat, b: nat, n: nat, sigma: nat)
    requires i < n && b < sigma
    ensures i * sigma + b < n * sigma
  {
    var rest := MulNat(n - i - 1, sigma);
    assert n * sigma == (i + 1) * sigma + (n - i - 1) * sigma;
  }

  /** Row i, column b of the bit matrix is bit b of id i. */
  lemma {:induction false} BitRowsAt(ids: seq<nat>, sigma: nat, i: nat, b: nat)
    requires i < |ids| && b < sigma
    ensures i * sigma + b < |BitRows(ids, sigma)|
    ensures BitRows(ids, sigma)[i * sigma + b] == BitOf(ids[i], b)
  {
    var n := |ids| - 1;
    var init := ids[..n];
    RowIndexBound(i, b, |ids|, sigma);
    if i < n {
      RowIndexBound(i, b, n, sigma);
      BitRowsAt(init, sigma, i, b);
    } else {
      assert i * sigma == |BitRows(init, sigma)|;
    }
  }

  // ---------------------------------------------------------------------------
  // The index
  // ---------------------------------------------------------------------------

  /** `std::reverse` of a string. */
  function Reversed(s: string): (r: string)
    ensures |r| == |s| && forall i :: 0 <= i < |s| ==> r[i] == s[|s| - 1 - i]
  {
    if s == [] then [] else [s[|s| - 1]] + Reversed(s[..|s| - 1])
  }

  /** The smallest element of a non-empty set of characters exists. */
  lemma {:induction false} HasLeast(s: set<char>)
    requires s != {}
    ensures exists m :: m in s && forall x :: x in s ==> m <= x
  {
    var x :| x in s;
    if s != {x} {
      HasLeast(s - {x});
      var m :| m in s - {x} && forall y :: y in s - {x} ==> m <= y;
      var least := if x < m then x else m;
      forall y | y in s
        ensures least <= y
      {
        if y != x {
          assert y in s - {x};
        }
      }
      assert least in s;
    } else {
      assert forall y :: y in s ==> x <= y;
    }
  }

  class FmIndex {
    /** The indexed text, reversed so that prefix matches become suffix walks. */
    var text: string
    /** The Burrows-Wheeler transform of `text`, with `$` as the terminator. */
    var bwt: string
    /** The LSB-first wavelet matrix over the ids of `bwt`. */
    var wm: WaveletMatrix

    /** The matrix holds the ids of the BWT in the matrix's own alphabet. */
    ghost predicate Valid()
      reads this, wm
    {
      wm.Valid() && wm.order == LsbFirst && wm.sigma == AlphabetSigma(wm.mapper)
      && |wm.data| == |bwt|
      && forall i :: 0 <= i < |bwt| ==> ToId(wm.mapper, bwt[i]) == Some(wm.data[i])
    }

    /** Stores the reversed text and builds the matrix over the given BWT of it. */
    constructor (input: string, t: CharType, transform: string)
      requires forall i :: 0 <= i < |transform| ==> IsValidChar(t, transform[i])
      ensures Valid()
      ensures text == Reversed(input) && bwt == transform && wm.mapper == t
    {
      text := Reversed(input);
      bwt := transform;
      wm := new WaveletMatrix.FromText(transform, t, LsbFirst);
    }

    /**
     * `ConvertToBitMatrix`: the ids of the query, each spread over sigma
     * entries holding its bits from the least significant one up.
     */
    method ConvertToBitMatrix(query: string) returns (bits: seq<nat>)
      requires Valid()
      requires forall i :: 0 <= i < |query| ==> IsValidChar(wm.mapper, query[i])
      ensures |bits| == |query| * wm.sigma
      ensures forall i, b :: 0 <= i < |query| && 0 <= b < wm.sigma ==>
        i * wm.sigma + b < |bits| && bits[i * wm.sigma + b] == BitOf(ToId(wm.mapper, query[i]).value, b)
    {
      var nums := ToIds(wm.mapper, query);
      var sigma := wm.sigma;
      bits := BitMatrix(nums, sigma);
      forall i, b | 0 <= i < |query| && 0 <= b < sigma
        ensures i * sigma + b < |bits| && bits[i * sigma + b] == BitOf(ToId(wm.mapper, query[i]).value, b)
      {
        BitRowsAt(nums, sigma, i, b);
      }
    }

    /** `BackwardSearch`: both ends of the interval move by the LF mapping of c. */
    method BackwardSearch(c: char, left: nat, right: nat) returns (newLeft: nat, newRight: nat)
      requires Valid()
      requires IsValidChar(wm.mapper, c) && left <= |bwt| && right <= |bwt|
      ensures newLeft == LfChar(bwt, c, left) && newRight == LfChar(bwt, c, right)
    {
      var cid := ToId(wm.mapper, c).value;
      newLeft := wm.RankCF(cid, left);
      newRight := wm.RankCF(cid, right);
      if |bwt| > 0 {
        RankIsLf(wm.mapper, bwt, wm.data, c, left);
        RankIsLf(wm.mapper, bwt, wm.data, c, right);
      }
    }

    /**
     * `ComputeLPMfromWM`: searches every query character through the
     * matrix, recording the interval widths, and counts the widths before
     * the first zero.
     */
    method ComputeLpmFromWm(query: string) returns (lpm: nat)
      requires Valid()
      requires forall i :: 0 <= i < |query| ==> IsValidChar(wm.mapper, query[i])
      ensures lpm == Lpm(bwt, query)
    {
      var left: nat := 0;
      var right: nat := |bwt|;
      var intervals: seq<nat> := [];
      for i := 0 to |query|
        invariant Rows(left, right) == Search(bwt, query[..i])
        invariant intervals == Widths(bwt, query[..i])
      {
        left, right, intervals := SearchOne(query, i, left, right, intervals);
      }
      assert query[..|query|] == query;
      lpm := CountLeading(intervals);
    }

    /** One iteration of the first loop of `ComputeLPMfromWM`: search query[i] and record the new width. */
    method SearchOne(query: string, i: nat, left: nat, right: nat, intervals: seq<nat>)
      returns (newLeft: nat, newRight: nat, newIntervals: seq<nat>)
      requires Valid()
      requires i < |query| && IsValidChar(wm.mapper, query[i])
      requires Rows(left, right) == Search(bwt, query[..i]) && intervals == Widths(bwt, query[..i])
      ensures Rows(newLeft, newRight) == Search(bwt, query[..i + 1]) && newIntervals == Widths(bwt, query[..i + 1])
    {
      SearchNext(bwt, query, i);
      newLeft, newRight := BackwardSearch(query[i], left, right);
      var width: nat := newRight - newLeft;
      WidthsNext(bwt, query, i, width);
      newIntervals := intervals + [width];
    }

    /**
     * `ComputeLPMfromBWT`: the same search without the matrix.  The C-table
     * is built by counting each character and taking running sums in
     * character order; a character absent from the BWT gets offset 0, and
     * every step whose interval is non-empty is counted.
     */
    method ComputeLpmFromBwt(query: string) returns (lpm: nat)
      requires Valid()
      ensures lpm == Lpm(bwt, query)
    {
      var n := |bwt|;
      var charCount := CharCounts(bwt);
      var offsets := Offsets(bwt, charCount);
      var f: nat := 0;
      var g: nat := n;
      lpm := 0;
      for qi := 0 to |query|
        invariant OffsetsOk(bwt, offsets)
        invariant Agrees(bwt, query[..qi], f, g)
        invariant lpm == Lpm(bwt, query[..qi])
      {
        var c := query[qi];
        assert query[..qi + 1] == query[..qi] + [c];
        offsets, f, g := OffsetStep(bwt, offsets, query[..qi], c, f, g);
        if f < g {
          lpm := lpm + 1;
        }
      }
      assert query[..|query|] == query;
    }
  }

  /** The second loop of `ComputeLPMfromWM`: counts widths up to the first zero. */
  method CountLeading(intervals: seq<nat>) returns (lpm: nat)
    ensures lpm == LeadingNonzero(intervals)
  {
    lpm := 0;
    for i := 0 to |intervals|
      invariant lpm == i
      invariant LeadingNonzero(intervals) == i + LeadingNonzero(intervals[i..])
    {
      if intervals[i] == 0 {
        break;
      }
      assert intervals[i..][1..] == intervals[i + 1..];
      lpm := lpm + 1;
    }
  }

  /** The bit matrix of a sequence of ids, filled row by row. */
  method BitMatrix(nums: seq<nat>, sigma: nat) returns (bits: seq<nat>)
    ensures bits == BitRows(nums, sigma)
  {
    bits := [];
    for i := 0 to |nums|
      invariant bits == BitRows(nums[..i], sigma)
    {
      assert nums[..i + 1][..i] == nums[..i];
      bits := AppendBits(bits, nums[i], sigma);
    }
    assert nums[..|nums|] == nums;
  }

  /** Appends the sigma low bits of val, least significant first. */
  method AppendBits(bits: seq<nat>, val: nat, sigma: nat) returns (out: seq<nat>)
    ensures out == bits + BitsOf(val, sigma)
  {
    out := bits;
    for b := 0 to sigma
      invariant out == bits + BitsOf(val, b)
    {
      out := out + [BitOf(val, b)];
    }
  }

  /** Searching one more character maps the interval by LF and records its width. */
  lemma SearchSnoc(bwt: string, q: string, c: char)
    ensures Search(bwt, q + [c]) == Rows(LfChar(bwt, c, Search(bwt, q).left), LfChar(bwt, c, Search(bwt, q).right))
    ensures Widths(bwt, q + [c]) == Widths(bwt, q) + [Search(bwt, q + [c]).right - Search(bwt, q + [c]).left]
  {
    assert (q + [c])[..|q|] == q;
  }

  /** `SearchSnoc` for the prefixes of one query. */
  lemma SearchNext(bwt: string, query: string, i: nat)
    requires i < |query|
    ensures Search(bwt, query[..i + 1]) == Rows(LfChar(bwt, query[i], Search(bwt, query[..i]).left), LfChar(bwt, query[i], Search(bwt, query[..i]).right))
  {
    assert query[..i + 1] == query[..i] + [query[i]];
    SearchSnoc(bwt, query[..i], query[i]);
  }

  /** The widths of one more prefix gain the width of its interval. */
  lemma WidthsNext(bwt: string, query: string, i: nat, width: nat)
    requires i < |query| && width == PrefixWidth(bwt, query, i + 1)
    ensures Widths(bwt, query[..i + 1]) == Widths(bwt, query[..i]) + [width]
  {
    assert query[..i + 1] == query[..i] + [query[i]];
    SearchSnoc(bwt, query[..i], query[i]);
  }

  /** The occurrences of each character of the text. */
  method CharCounts(bwt: string) returns (charCount: map<char, nat>)
    ensures forall x :: x in charCount <==> x in bwt
    ensures forall x :: x in charCount ==> charCount[x] == CountChar(bwt, x)
  {
    charCount := map[];
    for i := 0 to |bwt|
      invariant forall x :: x in charCount <==> x in bwt[..i]
      invariant forall x :: x in charCount ==> charCount[x] == CountChar(bwt[..i], x)
    {
      var c := bwt[i];
      assert bwt[..i + 1][..i] == bwt[..i];
      assert bwt[..i + 1] == bwt[..i] + [c];
      if c !in charCount {
        CountAbsent(bwt[..i], c);
      }
      charCount := charCount[c := (if c in charCount then charCount[c] else 0) + 1];
      forall x
        ensures x in charCount <==> x in bwt[..i + 1]
      {
        assert x in bwt[..i] + [c] <==> x in bwt[..i] || x == c;
      }
    }
    assert bwt[..|bwt|] == bwt;
  }

  /** The offsets of `ComputeLPMfromBWT`: a character of the BWT maps to its C-table entry, any other to 0. */
  ghost predicate OffsetsOk(bwt: string, offsets: map<char, nat>)
  {
    (forall x :: x in bwt ==> x in offsets)
    && forall x :: x in offsets ==> offsets[x] == if x in bwt then CountBelow(bwt, x) else 0
  }

  /**
   * The offset table built from the character counts by visiting the
   * characters in ascending order and handing each the running total.
   */
  method Offsets(bwt: string, charCount: map<char, nat>) returns (offsets: map<char, nat>)
    requires forall x :: x in charCount <==> x in bwt
    requires forall x :: x in charCount ==> charCount[x] == CountChar(bwt, x)
    ensures offsets.Keys == charCount.Keys
    ensures OffsetsOk(bwt, offsets)
  {
    offsets := map[];
    var offset := 0;
    var remaining := charCount.Keys;
    CountInNone(bwt);
    assert offsets.Keys == {};
    while remaining != {}
      invariant Visiting(bwt, charCount, offsets, offset, remaining)
      decreases |remaining|
    {
      offsets, offset, remaining := NextOffset(bwt, charCount, offsets, offset, remaining);
    }
  }

  /**
   * The state of the offset loop: the characters visited so far are all
   * below the remaining ones, each holds its C-table entry, and the running
   * total counts the visited characters.
   */
  ghost predicate Visiting(bwt: string, charCount: map<char, nat>, offsets: map<char, nat>, offset: nat, remaining: set<char>)
  {
    remaining <= charCount.Keys && offsets.Keys == charCount.Keys - remaining
    && (forall x, y :: x in offsets && y in remaining ==> x < y)
    && (forall x :: x in offsets ==> offsets[x] == CountBelow(bwt, x))
    && offset == CountIn(bwt, offsets.Keys)
  }

  /** Hands the least remaining character the running total and adds its count. */
  method NextOffset(bwt: string, charCount: map<char, nat>, offsets: map<char, nat>, offset: nat, remaining: set<char>)
    returns (offsets': map<char, nat>, offset': nat, remaining': set<char>)
    requires forall x :: x in charCount <==> x in bwt
    requires forall x :: x in charCount ==> charCount[x] == CountChar(bwt, x)
    requires Visiting(bwt, charCount, offsets, offset, remaining) && remaining != {}
    ensures Visiting(bwt, charCount, offsets', offset', remaining')
    ensures |remaining'| < |remaining|
  {
    HasLeast(remaining);
    var c :| c in remaining && forall x :: x in remaining ==> c <= x;
    CountInBelow(bwt, offsets.Keys, c);
    CountInAdd(bwt, offsets.Keys, c);
    offsets' := offsets[c := offset];
    offset' := offset + charCount[c];
    remaining' := remaining - {c};
    assert offsets'.Keys == offsets.Keys + {c};
    forall x, y | x in offsets' && y in remaining'
      ensures x < y
    {
      if x != c {
        assert x in offsets;
      }
    }
  }

  /**
   * The state of `ComputeLPMfromBWT` after a prefix q of the query: an
   * interval [f, g) that is empty exactly when the reference search's is,
   * and equal to it when non-empty.
   */
  ghost predicate Agrees(bwt: string, q: string, f: nat, g: nat)
  {
    f <= g <= |bwt|
    && (f < g <==> Search(bwt, q).Nonempty())
    && (f < g ==> Rows(f, g) == Search(bwt, q))
  }

  /** One query character of `ComputeLPMfromBWT`: look up (or insert) its offset and count its rank at both ends. */
  method OffsetStep(bwt: string, offsets: map<char, nat>, ghost q: string, c: char, f: nat, g: nat)
    returns (offsets': map<char, nat>, nf: nat, ng: nat)
    requires OffsetsOk(bwt, offsets) && Agrees(bwt, q, f, g)
    ensures OffsetsOk(bwt, offsets') && Agrees(bwt, q + [c], nf, ng)
    ensures Lpm(bwt, q + [c]) == Lpm(bwt, q) + (if nf < ng then 1 else 0)
  {
    var rankF := CountChar(bwt[..f], c);
    var rankG := CountChar(bwt[..g], c);
    offsets' := offsets;
    if c !in offsets' {
      offsets' := offsets'[c := 0];
    }
    var offset := offsets'[c];
    nf := offset + rankF;
    ng := offset + rankG;
    SearchStep(bwt, q, c, f, g, offset, nf, ng);
  }

  /**
   * One step of `ComputeLPMfromBWT`: from an interval that agrees with the
   * reference search whenever it is non-empty, the new interval again
   * agrees, and the match length grows by one exactly when it is non-empty.
   */
  lemma SearchStep(bwt: string, q: string, c: char, f: nat, g: nat, offset: nat, nf: nat, ng: nat)
    requires f <= g <= |bwt|
    requires f < g <==> Search(bwt, q).Nonempty()
    requires f < g ==> Rows(f, g) == Search(bwt, q)
    requires offset == if c in bwt then CountBelow(bwt, c) else 0
    requires nf == offset + CountChar(bwt[..f], c) && ng == offset + CountChar(bwt[..g], c)
    ensures nf <= ng <= |bwt|
    ensures nf < ng <==> Search(bwt, q + [c]).Nonempty()
    ensures nf < ng ==> Rows(nf, ng) == Search(bwt, q + [c])
    ensures Lpm(bwt, q + [c]) == Lpm(bwt, q) + (if nf < ng then 1 else 0)
  {
    assert (q + [c])[..|q|] == q;
    LfMonotone(bwt, c, f, g);
    if c !in bwt {
      assert forall x :: x in bwt[..f] ==> x in bwt;
      assert forall x :: x in bwt[..g] ==> x in bwt;
      CountAbsent(bwt[..f], c);
      CountAbsent(bwt[..g], c);
    }
    if f == g {
      EmptyStays(bwt, q, c);
    }
    LpmSnoc(bwt, q, c);
  }
}
