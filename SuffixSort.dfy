/**
 * The suffix order of FssWM's FM-index (FssWM/wm/fmindex.cpp): strings
 * compare as `std::string::compare` does (character by character, a proper
 * prefix first), and the suffix array is the list of start positions
 * sorted by the suffixes that start there.
 */
module SuffixSort {

  /** `a.compare(b) < 0`: the first differing character decides, and a proper prefix comes first. */
  predicate LexLess(a: string, b: string)
    decreases |a|
  {
    if a == [] then b != []
    else if b == [] then false
    else if a[0] != b[0] then a[0] < b[0]
    else LexLess(a[1..], b[1..])
  }

  /** Two different strings are ordered one way or the other. */
  lemma {:induction false} LexTotal(a: string, b: string)
    ensures a == b || LexLess(a, b) || LexLess(b, a)
    decreases |a|
  {
    if a != [] && b != [] && a[0] == b[0] {
      LexTotal(a[1..], b[1..]);
      if a[1..] == b[1..] {
        assert a == [a[0]] + a[1..] && b == [b[0]] + b[1..];
      }
    }
  }

  /** The order is strict: never both ways, and never a string against itself. */
  lemma {:induction false} LexAsymmetric(a: string, b: string)
    requires LexLess(a, b)
    ensures !LexLess(b, a) && a != b
    decreases |a|
  {
    if a != [] && a[0] == b[0] {
      LexAsymmetric(a[1..], b[1..]);
    }
  }

  lemma {:induction false} LexTransitive(a: string, b: string, c: string)
    requires LexLess(a, b) && LexLess(b, c)
    ensures LexLess(a, c)
    decreases |a|
  {
    if a != [] && b != [] && c != [] && a[0] == b[0] && b[0] == c[0] {
      LexTransitive(a[1..], b[1..], c[1..]);
    }
  }

  /** Every entry is a position of the text. */
  ghost predicate Positions(s: seq<nat>, n: nat)
  {
    forall i :: 0 <= i < |s| ==> s[i] < n
  }

  /** Each suffix is not greater than the next one. */
  ghost predicate Ordered(text: string, s: seq<nat>)
    requires Positions(s, |text|)
  {
    forall i, j {:trigger s[i], s[j]} :: 0 <= i && j == i + 1 && j < |s| ==> !LexLess(text[s[j]..], text[s[i]..])
  }

  /** The positions 0, 1, ..., n - 1. */
  function Range(n: nat): (r: seq<nat>)
    ensures |r| == n && forall i :: 0 <= i < n ==> r[i] == i
  {
    if n == 0 then [] else Range(n - 1) + [n - 1]
  }

  /** Inserts position x before the first position whose suffix is greater. */
  function InsertSuffix(text: string, x: nat, s: seq<nat>): (r: seq<nat>)
    requires x < |text| && Positions(s, |text|)
    ensures |r| == |s| + 1 && multiset(r) == multiset(s) + multiset{x}
    ensures Positions(r, |text|)
    ensures s != [] ==> r[0] == x || r[0] == s[0]
  {
    if s == [] then [x]
    else if LexLess(text[x..], text[s[0]..]) then [x] + s
    else
      assert s == [s[0]] + s[1..];
      [s[0]] + InsertSuffix(text, x, s[1..])
  }

  /** Inserting into an ordered list keeps it ordered. */
  lemma {:induction false} InsertOrdered(text: string, x: nat, s: seq<nat>)
    requires x < |text| && Positions(s, |text|) && Ordered(text, s)
    ensures Ordered(text, InsertSuffix(text, x, s))
  {
    if s == [] {
    } else if LexLess(text[x..], text[s[0]..]) {
      LexAsymmetric(text[x..], text[s[0]..]);
    } else {
      var tail := s[1..];
      assert Ordered(text, tail) by {
        forall i | 0 <= i < |tail| - 1
          ensures !LexLess(text[tail[i + 1]..], text[tail[i]..])
        {
          assert tail[i] == s[i + 1] && tail[i + 1] == s[i + 2];
        }
      }
      InsertOrdered(text, x, tail);
      var rest := InsertSuffix(text, x, tail);
      var r := [s[0]] + rest;
      assert r == InsertSuffix(text, x, s);
      forall i | 0 <= i < |r| - 1
        ensures !LexLess(text[r[i + 1]..], text[r[i]..])
      {
        if i > 0 {
          assert r[i] == rest[i - 1] && r[i + 1] == rest[i];
        } else if tail != [] && rest[0] == tail[0] {
          assert s[1] == tail[0];
        }
      }
    }
  }

  /** `std::sort` of positions by their suffixes, as an insertion sort. */
  function SortSuffixes(text: string, s: seq<nat>): (r: seq<nat>)
    requires Positions(s, |text|)
    ensures |r| == |s| && Positions(r, |text|)
  {
    if s == [] then []
    else
      var init := s[..|s| - 1];
      InsertSuffix(text, s[|s| - 1], SortSuffixes(text, init))
  }

  /** The sort rearranges the positions and leaves their suffixes in order. */
  lemma {:induction false} SortSuffixesSorts(text: string, s: seq<nat>)
    requires Positions(s, |text|)
    ensures multiset(SortSuffixes(text, s)) == multiset(s)
    ensures Ordered(text, SortSuffixes(text, s))
  {
    if s != [] {
      var init := s[..|s| - 1];
      assert s == init + [s[|s| - 1]];
      SortSuffixesSorts(text, init);
      InsertOrdered(text, s[|s| - 1], SortSuffixes(text, init));
    }
  }

  /** Suffixes starting at different positions differ (their lengths do). */
  lemma DistinctSuffixes(text: string, x: nat, y: nat)
    requires x < |text| && y < |text| && x != y
    ensures text[x..] != text[y..]
  {
    assert |text[x..]| != |text[y..]|;
  }

  /** A permutation of the positions holds each position once. */
  lemma {:induction false} PermutationDistinct(s: seq<nat>, n: nat)
    requires multiset(s) == multiset(Range(n))
    ensures Positions(s, n)
    ensures forall i, j :: 0 <= i < j < |s| ==> s[i] != s[j]
  {
    forall k: nat | k < n
      ensures multiset(Range(n))[k] == 1
    {
      RangeCount(n, k);
    }
    forall i | 0 <= i < |s|
      ensures s[i] < n
    {
      assert s[i] in multiset(s);
      assert s[i] in Range(n);
    }
    forall i, j | 0 <= i < j < |s|
      ensures s[i] != s[j]
    {
      TwiceCounted(s, i, j);
    }
  }

  /** A value at two indices is counted at least twice. */
  lemma TwiceCounted(s: seq<nat>, i: nat, j: nat)
    requires i < j < |s|
    ensures s[i] == s[j] ==> multiset(s)[s[i]] >= 2
  {
    assert s == s[..j] + [s[j]] + s[j + 1..];
    assert s[i] in multiset(s[..j]) by {
      assert s[..j][i] == s[i];
    }
  }

  /** Each position occurs once in the range. */
  lemma {:induction false} RangeCount(n: nat, k: nat)
    requires k < n
    ensures multiset(Range(n))[k] == 1
  {
    RangeSnoc(n, k);
    if k < n - 1 {
      RangeCount(n - 1, k);
    } else {
      RangeAbove(n - 1, k);
    }
  }

  lemma {:induction false} RangeAbove(n: nat, k: nat)
    requires n <= k
    ensures multiset(Range(n))[k] == 0
  {
    if n > 0 {
      RangeSnoc(n, k);
      RangeAbove(n - 1, k);
    }
  }

  lemma RangeSnoc(n: nat, k: nat)
    requires n > 0
    ensures multiset(Range(n))[k] == multiset(Range(n - 1))[k] + if k == n - 1 then 1 else 0
  {
    assert Range(n) == Range(n - 1) + [n - 1];
  }

  /**
   * The suffix array: a permutation of the text's positions whose suffixes
   * are each smaller than the next, so strictly increasing throughout.
   */
  lemma {:induction false} SuffixArrayIncreasing(text: string, sa: seq<nat>)
    requires multiset(sa) == multiset(Range(|text|))
    requires Positions(sa, |text|) && Ordered(text, sa)
    ensures forall i, j :: 0 <= i < j < |sa| ==> LexLess(text[sa[i]..], text[sa[j]..])
  {
    PermutationDistinct(sa, |text|);
    forall i | 0 <= i < |sa| - 1
      ensures LexLess(text[sa[i]..], text[sa[i + 1]..])
    {
      DistinctSuffixes(text, sa[i], sa[i + 1]);
      LexTotal(text[sa[i]..], text[sa[i + 1]..]);
    }
    forall i, j | 0 <= i < j < |sa|
      ensures LexLess(text[sa[i]..], text[sa[j]..])
    {
      IncreasingFrom(text, sa, i, j);
    }
  }

  lemma {:induction false} IncreasingFrom(text: string, sa: seq<nat>, i: nat, j: nat)
    requires Positions(sa, |text|) && i < j < |sa|
    requires forall k :: 0 <= k < |sa| - 1 ==> LexLess(text[sa[k]..], text[sa[k + 1]..])
    ensures LexLess(text[sa[i]..], text[sa[j]..])
    decreases j - i
  {
    if i + 1 < j {
      IncreasingFrom(text, sa, i + 1, j);
      LexTransitive(text[sa[i]..], text[sa[i + 1]..], text[sa[j]..]);
    }
  }
}
