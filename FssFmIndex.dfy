/**
 * FssWM's plain FM-index (FssWM/wm/fmindex.cpp): the text with a '$'
 * appended, its suffix array and Burrows-Wheeler transform, a dense id for
 * each character in order of first appearance in the BWT, the C-table over
 * those ids, and pattern counting and location by backward search.  The
 * wavelet matrix built over the ids is seen only through its rank query,
 * which counts an id in a prefix.
 */
module FssFmIndex {
  import opened TextCount
  import opened SuffixSort

  // ---------------------------------------------------------------------------
  // Reference definitions
  // ---------------------------------------------------------------------------

  /** The BWT from a suffix array: the character before each suffix, the text's last one before the whole text. */
  function BwtOf(text: string, sa: seq<nat>): (r: string)
    requires Positions(sa, |text|)
    ensures |r| == |sa|
    ensures forall i :: 0 <= i < |sa| ==> r[i] == if sa[i] == 0 then text[|text| - 1] else text[sa[i] - 1]
  {
    seq(|sa|, i requires 0 <= i < |sa| => if sa[i] == 0 then text[|text| - 1] else text[sa[i] - 1])
  }

  /** No character occurs twice. */
  ghost predicate Distinct(s: string)
  {
    forall i, j :: 0 <= i < j < |s| ==> s[i] != s[j]
  }

  /** The distinct characters of s in order of first appearance. */
  function Firsts(s: string): (r: string)
    ensures Distinct(r)
    ensures forall c :: c in r <==> c in s
  {
    if s == [] then []
    else
      var init := s[..|s| - 1];
      assert s == init + [s[|s| - 1]];
      var f := Firsts(init);
      if s[|s| - 1] in f then f else f + [s[|s| - 1]]
  }

  /** char2id and id2char are inverse: id k names id2char[k], and every mapped character sits at its id. */
  ghost predicate Mapping(char2id: map<char, nat>, id2char: string)
  {
    |char2id| == |id2char|
    && (forall k :: 0 <= k < |id2char| ==> id2char[k] in char2id && char2id[id2char[k]] == k)
    && (forall c :: c in char2id ==> char2id[c] < |id2char| && id2char[char2id[c]] == c)
  }

  /** The characters of cs. */
  ghost function CharSet(cs: string): set<char>
  {
    set x | x in cs
  }

  /** The characters of cs smaller than c. */
  ghost function CharsBelow(cs: string, c: char): set<char>
  {
    set x | x in cs && x < c
  }

  /** The occurrences in s of the characters of cs, added up in the order of cs. */
  function SumCounts(s: string, cs: string): nat
  {
    if cs == [] then 0 else SumCounts(s, cs[..|cs| - 1]) + CountChar(s, cs[|cs| - 1])
  }

  /** Adding up the counts of distinct characters counts the text's characters among them. */
  lemma {:induction false} SumCountsIn(s: string, cs: string)
    requires Distinct(cs)
    ensures SumCounts(s, cs) == CountIn(s, CharSet(cs))
  {
    if cs == [] {
      assert CharSet(cs) == {};
      CountInNone(s);
    } else {
      var init := cs[..|cs| - 1];
      var c := cs[|cs| - 1];
      assert cs == init + [c];
      assert CharSet(cs) == CharSet(init) + {c};
      SumCountsIn(s, init);
      CountInAdd(s, CharSet(init), c);
    }
  }

  /**
   * The running total before a character plus that character's count never
   * exceeds the text: the characters counted are distinct.
   */
  lemma PrefixTotalFits(s: string, cs: string, k: nat)
    requires Distinct(cs) && k < |cs|
    ensures SumCounts(s, cs[..k]) + CountChar(s, cs[k]) <= |s|
  {
    assert cs[..k + 1][..k] == cs[..k];
    SumCountsIn(s, cs[..k + 1]);
  }

  /** Over all the characters of s, the running total is the length of s. */
  lemma SumCountsAll(s: string, cs: string)
    requires Distinct(cs) && forall x :: x in s ==> x in cs
    ensures SumCounts(s, cs) == |s|
  {
    SumCountsIn(s, cs);
    CountInAll(s, CharSet(cs));
  }

  /** The occurrences in s of the characters of cs smaller than c. */
  function SumBelow(s: string, cs: string, c: char): nat
  {
    if cs == [] then 0
    else SumBelow(s, cs[..|cs| - 1], c) + (if cs[|cs| - 1] < c then CountChar(s, cs[|cs| - 1]) else 0)
  }

  /** Over distinct characters covering s, the total below c is the number of characters of s below c. */
  lemma SumBelowIsCountBelow(s: string, cs: string, c: char)
    requires Distinct(cs) && forall x :: x in s ==> x in cs
    ensures SumBelow(s, cs, c) == CountBelow(s, c)
  {
    SumBelowIn(s, cs, c);
    CountInBelow(s, CharsBelow(cs, c), c);
  }

  lemma {:induction false} SumBelowIn(s: string, cs: string, c: char)
    requires Distinct(cs)
    ensures SumBelow(s, cs, c) == CountIn(s, CharsBelow(cs, c))
  {
    if cs == [] {
      assert CharsBelow(cs, c) == {};
      CountInNone(s);
    } else {
      var init := cs[..|cs| - 1];
      var last := cs[|cs| - 1];
      assert cs == init + [last];
      SumBelowIn(s, init, c);
      if last < c {
        assert CharsBelow(cs, c) == CharsBelow(init, c) + {last};
        CountInAdd(s, CharsBelow(init, c), last);
      } else {
        assert CharsBelow(cs, c) == CharsBelow(init, c);
      }
    }
  }

  /** `rank(v, pos)` of the wavelet matrix: how often v occurs among the first pos entries. */
  function Rank(ids: seq<nat>, v: nat, pos: nat): (r: nat)
    requires pos <= |ids|
    ensures r <= pos
  {
    if pos == 0 then 0 else Rank(ids, v, pos - 1) + if ids[pos - 1] == v then 1 else 0
  }

  // ---------------------------------------------------------------------------
  // Backward search
  // ---------------------------------------------------------------------------

  /** Every offset leaves room for its character's occurrences within the BWT. */
  ghost predicate OffsetsFit(bwt: string, offsets: map<char, nat>)
  {
    forall c :: c in offsets ==> offsets[c] + CountChar(bwt, c) <= |bwt|
  }

  /**
   * One backward-search step for c: a character without an offset empties
   * the interval; otherwise each end moves to the character's offset plus
   * its rank there.
   */
  function Step(bwt: string, offsets: map<char, nat>, c: char, r: Rows): (r': Rows)
    requires OffsetsFit(bwt, offsets) && r.left <= r.right <= |bwt|
    ensures r'.left <= r'.right <= |bwt|
    ensures !r.Nonempty() ==> !r'.Nonempty()
    ensures c !in offsets ==> r' == Rows(0, 0)
  {
    if c !in offsets then Rows(0, 0)
    else
      assert bwt[..|bwt|] == bwt;
      CountPrefixMonotone(bwt, c, r.left, r.right);
      CountPrefixMonotone(bwt, c, r.right, |bwt|);
      Rows(offsets[c] + CountChar(bwt[..r.left], c), offsets[c] + CountChar(bwt[..r.right], c))
  }

  /** The interval of a pattern: start with every row and step through the pattern from its last character to its first. */
  function BackRange(bwt: string, offsets: map<char, nat>, p: string): (r: Rows)
    requires OffsetsFit(bwt, offsets)
    ensures r.left <= r.right <= |bwt|
  {
    if p == [] then Rows(0, |bwt|) else Step(bwt, offsets, p[0], BackRange(bwt, offsets, p[1..]))
  }

  /** Once the interval of a suffix of the pattern is empty, the pattern's is too. */
  lemma {:induction false} EmptyStays(bwt: string, offsets: map<char, nat>, p: string, i: nat)
    requires OffsetsFit(bwt, offsets) && i <= |p|
    requires !BackRange(bwt, offsets, p[i..]).Nonempty()
    ensures !BackRange(bwt, offsets, p).Nonempty()
    decreases i
  {
    if i > 0 {
      assert p[i - 1..][1..] == p[i..];
      EmptyStays(bwt, offsets, p, i - 1);
    } else {
      assert p[0..] == p;
    }
  }

  /** A pattern character without an offset leaves the pattern no rows. */
  lemma UnknownEmpties(bwt: string, offsets: map<char, nat>, p: string, i: nat)
    requires OffsetsFit(bwt, offsets) && i < |p| && p[i] !in offsets
    ensures !BackRange(bwt, offsets, p).Nonempty()
  {
    assert p[i..][1..] == p[i + 1..];
    EmptyStays(bwt, offsets, p, i);
  }

  /** The offsets a C-table in character order gives: the number of BWT characters smaller than each one. */
  ghost function CharOrderOffsets(bwt: string): (m: map<char, nat>)
    ensures OffsetsFit(bwt, m)
    ensures forall c :: c in m <==> c in bwt
  {
    assert forall c :: CountBelow(bwt, c) + CountChar(bwt, c) <= |bwt| by {
      forall c: char
        ensures CountBelow(bwt, c) + CountChar(bwt, c) <= |bwt|
      {
        BelowAndChar(bwt, c);
      }
    }
    map c | c in bwt :: CountBelow(bwt, c)
  }

  /** The position of c in cs, where it first occurs. */
  function IndexIn(cs: string, c: char): (r: nat)
    requires c in cs
    ensures r < |cs| && cs[r] == c && c !in cs[..r]
  {
    if cs[|cs| - 1] != c || c in cs[..|cs| - 1] then
      assert cs == cs[..|cs| - 1] + [cs[|cs| - 1]];
      var k := IndexIn(cs[..|cs| - 1], c);
      assert cs[..|cs| - 1][..k] == cs[..k];
      k
    else
      |cs| - 1
  }

  /**
   * The entry `build_ctable` gives a character of the BWT: the running total
   * of the counts of the characters whose ids, handed out in order of first
   * appearance in the BWT, are smaller.
   */
  function IdOffset(bwt: string, c: char): nat
    requires c in bwt
  {
    var f := Firsts(bwt);
    SumCounts(bwt, f[..IndexIn(f, c)])
  }

  /** Each id-order entry leaves room for its character's occurrences. */
  lemma IdOffsetFits(bwt: string, c: char)
    requires c in bwt
    ensures IdOffset(bwt, c) + CountChar(bwt, c) <= |bwt|
  {
    var f := Firsts(bwt);
    PrefixTotalFits(bwt, f, IndexIn(f, c));
  }

  /** The offsets of the C-table in id order. */
  ghost function IdOrderOffsets(bwt: string): (m: map<char, nat>)
    ensures OffsetsFit(bwt, m)
    ensures forall c :: c in m <==> c in bwt
    ensures forall c :: c in m ==> m[c] == IdOffset(bwt, c)
  {
    forall c | c in bwt
      ensures IdOffset(bwt, c) + CountChar(bwt, c) <= |bwt|
    {
      IdOffsetFits(bwt, c);
    }
    map c | c in bwt :: IdOffset(bwt, c)
  }

  /** The characters strictly increase. */
  ghost predicate StrictlyAscending(cs: string)
  {
    forall i, j :: 0 <= i < j < |cs| ==> cs[i] < cs[j]
  }

  /** In strictly increasing characters, those before c are those smaller than c. */
  lemma BeforeIsBelow(f: string, c: char, x: char)
    requires StrictlyAscending(f) && c in f && x in f
    ensures x in f[..IndexIn(f, c)] <==> x < c
  {
    var k := IndexIn(f, c);
    var i := IndexIn(f, x);
    assert x in f[..k] <==> i < k by {
      if i < k {
        assert f[..k][i] == x;
      } else {
        assert f[..k] == f[..i][..k];
      }
    }
    assert i < k ==> f[i] < f[k];
    assert k < i ==> f[k] < f[i];
  }

  /** When first appearance happens to be character order, the two C-tables give the same offsets. */
  lemma IdOrderIsCharOrder(bwt: string)
    requires StrictlyAscending(Firsts(bwt))
    ensures IdOrderOffsets(bwt) == CharOrderOffsets(bwt)
  {
    var f := Firsts(bwt);
    forall c | c in bwt
      ensures IdOrderOffsets(bwt)[c] == CharOrderOffsets(bwt)[c]
    {
      var k := IndexIn(f, c);
      var before := f[..k];
      forall x | x in bwt
        ensures x in CharSet(before) <==> x < c
      {
        BeforeIsBelow(f, c, x);
      }
      SumCountsIn(bwt, before);
      CountInBelow(bwt, CharSet(before), c);
    }
  }

  /**
   * What `count` returns as written, with the C-table in id order: the
   * width of the pattern's interval under the id-order offsets.
   */
  ghost function CountAsWritten(bwt: string, pattern: string): (n: nat)
    ensures n <= |bwt|
  {
    var r := BackRange(bwt, IdOrderOffsets(bwt), pattern);
    r.right - r.left
  }

  /**
   * When the characters happen to first appear in the BWT in character
   * order, the as-written count is the width of the pattern's interval
   * under the character-order offsets, which `FmIndex.Count` returns.
   */
  lemma CountAsWrittenAgrees(bwt: string, pattern: string)
    requires StrictlyAscending(Firsts(bwt))
    ensures var r := BackRange(bwt, CharOrderOffsets(bwt), pattern); CountAsWritten(bwt, pattern) == r.right - r.left
  {
    IdOrderIsCharOrder(bwt);
  }

  // ---------------------------------------------------------------------------
  // Sorting the located positions
  // ---------------------------------------------------------------------------

  /** Each entry is at most the next. */
  ghost predicate Ascending(s: seq<nat>)
  {
    forall i, j {:trigger s[i], s[j]} :: 0 <= i && j == i + 1 && j < |s| ==> s[i] <= s[j]
  }

  /** Inserts x before the first larger entry. */
  function InsertPosition(x: nat, s: seq<nat>): (r: seq<nat>)
    ensures |r| == |s| + 1 && multiset(r) == multiset(s) + multiset{x}
    ensures s != [] ==> r[0] == x || r[0] == s[0]
  {
    if s == [] then [x]
    else if x <= s[0] then [x] + s
    else
      assert s == [s[0]] + s[1..];
      [s[0]] + InsertPosition(x, s[1..])
  }

  /** Inserting into an ascending list keeps it ascending. */
  lemma {:induction false} InsertAscending(x: nat, s: seq<nat>)
    requires Ascending(s)
    ensures Ascending(InsertPosition(x, s))
  {
    if s != [] && x > s[0] {
      var tail := s[1..];
      assert Ascending(tail) by {
        forall i, j | 0 <= i && j == i + 1 && j < |tail|
          ensures tail[i] <= tail[j]
        {
          assert tail[i] == s[i + 1] && tail[j] == s[j + 1];
        }
      }
      InsertAscending(x, tail);
      var rest := InsertPosition(x, tail);
      var r := [s[0]] + rest;
      forall i, j | 0 <= i && j == i + 1 && j < |r|
        ensures r[i] <= r[j]
      {
        if i > 0 {
          assert r[i] == rest[i - 1] && r[j] == rest[i];
        } else if tail != [] && rest[0] == tail[0] {
          assert s[0] <= s[1] && s[1] == tail[0];
        }
      }
    }
  }

  /** `std::sort` of the located positions, ascending. */
  function SortPositions(s: seq<nat>): (r: seq<nat>)
    ensures multiset(r) == multiset(s) && Ascending(r)
  {
    if s == [] then []
    else
      var init := s[..|s| - 1];
      assert s == init + [s[|s| - 1]];
      var sorted := SortPositions(init);
      InsertAscending(s[|s| - 1], sorted);
      InsertPosition(s[|s| - 1], sorted)
  }

  /** Adds up the frequencies of the ids whose characters are smaller than c. */
  method SmallerTotal(bwt: string, id2char: string, freq: seq<nat>, c: char) returns (sum: nat)
    requires Distinct(id2char) && forall x :: x in bwt ==> x in id2char
    requires |freq| == |id2char|
    requires forall k :: 0 <= k < |id2char| ==> freq[k] == CountChar(bwt, id2char[k])
    ensures sum == CountBelow(bwt, c)
  {
    sum := 0;
    for j := 0 to |id2char|
      invariant sum == SumBelow(bwt, id2char[..j], c)
    {
      assert id2char[..j + 1][..j] == id2char[..j];
      if id2char[j] < c {
        sum := sum + freq[j];
      }
    }
    assert id2char[..|id2char|] == id2char;
    SumBelowIsCountBelow(bwt, id2char, c);
  }

  // ---------------------------------------------------------------------------
  // Building the tables
  // ---------------------------------------------------------------------------

  /** `build_suffix_array`: the positions 0..n-1, sorted by the suffixes starting there. */
  method BuildSuffixArray(text: string) returns (sa: seq<nat>)
    ensures sa == SortSuffixes(text, Range(|text|))
  {
    var n := |text|;
    sa := seq(n, _ => 0);
    for i := 0 to n
      invariant |sa| == n
      invariant forall k :: 0 <= k < i ==> sa[k] == k
    {
      sa := sa[i := i];
    }
    assert sa == Range(n);
    sa := SortSuffixes(text, sa);
  }

  /** `build_bwt`: row i holds the character before suffix sa[i], and the text's last character where sa[i] is 0. */
  method BuildBwt(text: string, sa: seq<nat>) returns (bwt: string)
    requires Positions(sa, |text|) && |sa| == |text|
    ensures bwt == BwtOf(text, sa)
  {
    var n := |text|;
    bwt := seq(n, _ => '\0');
    for i := 0 to n
      invariant |bwt| == n
      invariant forall k :: 0 <= k < i ==> bwt[k] == BwtOf(text, sa)[k]
    {
      var p := sa[i];
      if p == 0 {
        bwt := bwt[i := text[n - 1]];
      } else {
        bwt := bwt[i := text[p - 1]];
      }
    }
  }

  /**
   * `char_to_id` on the two tables it updates: a known character keeps its
   * id and the tables stay as they are; a new one gets the next id, the
   * number of characters mapped so far, and is appended to id2char.
   */
  method CharToId(char2id: map<char, nat>, id2char: string, c: char)
    returns (char2id': map<char, nat>, id2char': string, id: nat)
    requires Mapping(char2id, id2char)
    ensures Mapping(char2id', id2char')
    ensures c in char2id' && id == char2id'[c]
    ensures c in char2id ==> char2id' == char2id && id2char' == id2char
    ensures c !in char2id ==> id == |char2id| && char2id' == char2id[c := id] && id2char' == id2char + [c]
  {
    if c in char2id {
      return char2id, id2char, char2id[c];
    }
    id := |char2id|;
    char2id' := char2id[c := id];
    id2char' := id2char + [c];
  }

  /** The mapping loop of the constructor: every BWT character gets an id, in order of first appearance. */
  method MapChars(bwt: string) returns (char2id: map<char, nat>, id2char: string)
    ensures Mapping(char2id, id2char) && id2char == Firsts(bwt)
    ensures forall i :: 0 <= i < |bwt| ==> bwt[i] in char2id
  {
    char2id, id2char := map[], [];
    for i := 0 to |bwt|
      invariant Mapping(char2id, id2char) && id2char == Firsts(bwt[..i])
      invariant forall k :: 0 <= k < i ==> bwt[k] in char2id
    {
      char2id, id2char := MapOne(bwt, i, char2id, id2char);
    }
    assert bwt[..|bwt|] == bwt;
  }

  /** One iteration of the mapping loop: `char_to_id(bwt[i])`. */
  method MapOne(bwt: string, i: nat, char2id: map<char, nat>, id2char: string)
    returns (char2id': map<char, nat>, id2char': string)
    requires i < |bwt| && Mapping(char2id, id2char) && id2char == Firsts(bwt[..i])
    requires forall k :: 0 <= k < i ==> bwt[k] in char2id
    ensures Mapping(char2id', id2char') && id2char' == Firsts(bwt[..i + 1])
    ensures forall k :: 0 <= k <= i ==> bwt[k] in char2id'
  {
    assert bwt[..i + 1] == bwt[..i] + [bwt[i]];
    assert bwt[..i + 1][..i] == bwt[..i];
    var id;
    char2id', id2char', id := CharToId(char2id, id2char, bwt[i]);
    assert bwt[i] in id2char <==> bwt[i] in char2id by {
      if bwt[i] in id2char {
        var k :| 0 <= k < |id2char| && id2char[k] == bwt[i];
      }
    }
  }

  /** The frequency loop of `build_ctable`: the occurrences of each id's character in the BWT. */
  method Frequencies(bwt: string, char2id: map<char, nat>, id2char: string) returns (freq: seq<nat>)
    requires Mapping(char2id, id2char)
    requires forall i :: 0 <= i < |bwt| ==> bwt[i] in char2id
    ensures |freq| == |id2char|
    ensures forall k :: 0 <= k < |id2char| ==> freq[k] == CountChar(bwt, id2char[k])
  {
    freq := seq(|id2char|, _ => 0);
    for i := 0 to |bwt|
      invariant |freq| == |id2char|
      invariant forall k :: 0 <= k < |id2char| ==> freq[k] == CountChar(bwt[..i], id2char[k])
    {
      var id := char2id[bwt[i]];
      assert bwt[..i + 1][..i] == bwt[..i];
      freq := freq[id := freq[id] + 1];
    }
    assert bwt[..|bwt|] == bwt;
  }

  /**
   * `build_ctable` as written: the running total of the frequencies in id
   * order, so each id's entry counts the BWT characters whose ids are
   * smaller, not the characters that are smaller.
   */
  method BuildCTable(bwt: string, char2id: map<char, nat>, id2char: string) returns (cTable: seq<nat>)
    requires Mapping(char2id, id2char)
    requires forall i :: 0 <= i < |bwt| ==> bwt[i] in char2id
    ensures |cTable| == |id2char|
    ensures forall k :: 0 <= k < |id2char| ==> cTable[k] == SumCounts(bwt, id2char[..k])
  {
    var freq := Frequencies(bwt, char2id, id2char);
    cTable := seq(|id2char|, _ => 0);
    var sum := 0;
    for i := 0 to |id2char|
      invariant |cTable| == |id2char|
      invariant sum == SumCounts(bwt, id2char[..i])
      invariant forall k :: 0 <= k < i ==> cTable[k] == SumCounts(bwt, id2char[..k])
    {
      cTable := cTable[i := sum];
      assert id2char[..i + 1][..i] == id2char[..i];
      sum := sum + freq[i];
    }
  }

  /** The last running total plus the last id's count is the length of the BWT. */
  lemma CTableTotal(bwt: string, id2char: string, cTable: seq<nat>)
    requires Distinct(id2char) && forall x :: x in bwt ==> x in id2char
    requires |cTable| == |id2char| > 0
    requires forall k :: 0 <= k < |id2char| ==> cTable[k] == SumCounts(bwt, id2char[..k])
    ensures cTable[|cTable| - 1] + CountChar(bwt, id2char[|id2char| - 1]) == |bwt|
  {
    var last := |id2char| - 1;
    assert id2char[..last + 1] == id2char;
    assert id2char[..last + 1][..last] == id2char[..last];
    SumCountsAll(bwt, id2char);
  }

  /** The entries `build_ctable` computes are the id-order offsets of the characters. */
  lemma CTableIsIdOrder(bwt: string, char2id: map<char, nat>, id2char: string, cTable: seq<nat>)
    requires Mapping(char2id, id2char) && id2char == Firsts(bwt)
    requires |cTable| == |id2char|
    requires forall k :: 0 <= k < |id2char| ==> cTable[k] == SumCounts(bwt, id2char[..k])
    ensures forall c :: c in bwt ==> c in char2id && cTable[char2id[c]] == IdOrderOffsets(bwt)[c]
  {
    forall c | c in bwt
      ensures c in char2id && cTable[char2id[c]] == IdOrderOffsets(bwt)[c]
    {
      var i := IndexIn(id2char, c);
      assert char2id[id2char[i]] == i;
    }
  }

  /**
   * The C-table in character order, as the comment on `build_ctable`
   * describes it: each id's entry is the number of BWT characters smaller
   * than the id's character.
   */
  method BuildCTableByChar(bwt: string, char2id: map<char, nat>, id2char: string) returns (cTable: seq<nat>)
    requires Mapping(char2id, id2char) && Distinct(id2char)
    requires forall i :: 0 <= i < |bwt| ==> bwt[i] in char2id
    ensures |cTable| == |id2char|
    ensures forall k :: 0 <= k < |id2char| ==> cTable[k] == CountBelow(bwt, id2char[k])
  {
    var freq := Frequencies(bwt, char2id, id2char);
    forall x | x in bwt
      ensures x in id2char
    {
      var i :| 0 <= i < |bwt| && bwt[i] == x;
      assert id2char[char2id[x]] == x;
    }
    cTable := seq(|id2char|, _ => 0);
    for i := 0 to |id2char|
      invariant |cTable| == |id2char|
      invariant forall k :: 0 <= k < i ==> cTable[k] == CountBelow(bwt, id2char[k])
    {
      var sum := SmallerTotal(bwt, id2char, freq, id2char[i]);
      cTable := cTable[i := sum];
    }
  }

  /** `bwt_to_ints`: the BWT as ids. */
  method BwtToInts(bwt: string, char2id: map<char, nat>) returns (arr: seq<nat>)
    requires forall i :: 0 <= i < |bwt| ==> bwt[i] in char2id
    ensures |arr| == |bwt|
    ensures forall i :: 0 <= i < |bwt| ==> arr[i] == char2id[bwt[i]]
  {
    arr := seq(|bwt|, _ => 0);
    for i := 0 to |bwt|
      invariant |arr| == |bwt|
      invariant forall k :: 0 <= k < i ==> arr[k] == char2id[bwt[k]]
    {
      arr := arr[i := char2id[bwt[i]]];
    }
  }

  // ---------------------------------------------------------------------------
  // The index
  // ---------------------------------------------------------------------------

  class FmIndex {
    /** The input text followed by '$'. */
    var text: string
    var bwt: string
    var suffixArray: seq<nat>
    /** The ids of the BWT's characters, the data of the wavelet matrix. */
    var ids: seq<nat>
    var cTable: seq<nat>
    var char2id: map<char, nat>
    var id2char: string
    var alphabetSize: nat

    /**
     * What the queries rely on: ids and characters correspond one to one,
     * the mapped characters are those of the BWT, each id's C-table entry
     * counts the BWT characters smaller than its character, and the wavelet
     * matrix holds the BWT's ids.
     */
    ghost predicate Valid()
      reads this
    {
      Mapping(char2id, id2char)
      && (forall c :: c in char2id <==> c in bwt)
      && alphabetSize == |id2char| && |cTable| == alphabetSize
      && (forall c :: c in char2id ==> cTable[char2id[c]] == CountBelow(bwt, c))
      && |ids| == |bwt| && |suffixArray| == |bwt|
      && (forall i :: 0 <= i < |bwt| ==> bwt[i] in char2id && ids[i] == char2id[bwt[i]])
    }

    /** The tables as the constructor builds them from the text. */
    ghost predicate Built()
      reads this
    {
      suffixArray == SortSuffixes(text, Range(|text|))
      && bwt == BwtOf(text, suffixArray)
      && id2char == Firsts(bwt)
      && alphabetSize == |id2char| && |cTable| == alphabetSize
      && (forall k :: 0 <= k < alphabetSize ==> cTable[k] == CountBelow(bwt, id2char[k]))
    }

    /**
     * `FMIndex(text)`: appends the sentinel and builds every table from it,
     * the C-table in character order.
     */
    constructor (input: string)
      ensures text == input + "$"
      ensures Built() && Valid()
    {
      var t := input + "$";
      var sa := BuildSuffixArray(t);
      var b := BuildBwt(t, sa);
      var c2i, i2c := MapChars(b);
      var table := BuildCTableByChar(b, c2i, i2c);
      var arr := BwtToInts(b, c2i);
      text, suffixArray, bwt := t, sa, b;
      char2id, id2char, alphabetSize := c2i, i2c, |c2i|;
      cTable, ids := table, arr;
      new;
      BuiltIsValid();
    }

    /** The constructor's tables meet what the queries rely on. */
    lemma BuiltIsValid()
      requires Mapping(char2id, id2char) && id2char == Firsts(bwt)
      requires alphabetSize == |id2char| && |cTable| == alphabetSize
      requires forall k :: 0 <= k < alphabetSize ==> cTable[k] == CountBelow(bwt, id2char[k])
      requires |ids| == |bwt| && |suffixArray| == |bwt|
      requires forall i :: 0 <= i < |bwt| ==> bwt[i] in char2id && ids[i] == char2id[bwt[i]]
      ensures Valid()
    {
      forall c | c in bwt
        ensures c in char2id
      {
        assert c in id2char;
        var k :| 0 <= k < |id2char| && id2char[k] == c;
      }
    }

    /** The suffix array is a permutation of the positions, in strictly increasing suffix order. */
    lemma SuffixArrayOrder()
      requires Built()
      ensures |suffixArray| == |text|
      ensures multiset(suffixArray) == multiset(Range(|text|))
      ensures forall i, j :: 0 <= i < j < |suffixArray| ==> LexLess(text[suffixArray[i]..], text[suffixArray[j]..])
    {
      SortSuffixesSorts(text, Range(|text|));
      SuffixArrayIncreasing(text, suffixArray);
    }

    /** `id_to_char`: the character an id was handed out for. */
    method IdToChar(id: nat) returns (c: char)
      requires Valid() && id < alphabetSize
      ensures c in bwt && char2id[c] == id
    {
      c := id2char[id];
    }

    /** Ranking a character's id counts the character in the BWT prefix: ids name characters one to one. */
    lemma {:induction false} RankCounts(c: char, pos: nat)
      requires Valid() && c in char2id && pos <= |bwt|
      ensures Rank(ids, char2id[c], pos) == CountChar(bwt[..pos], c)
    {
      if pos > 0 {
        RankCounts(c, pos - 1);
        assert bwt[..pos][..pos - 1] == bwt[..pos - 1];
        assert ids[pos - 1] == char2id[c] <==> bwt[pos - 1] == c;
      }
    }

    /**
     * `backward_search`: a character the index has never seen empties the
     * interval; otherwise each end moves to the character's C-table entry
     * plus its rank there.
     */
    method BackwardSearch(c: char, left: nat, right: nat) returns (newLeft: nat, newRight: nat)
      requires Valid() && left <= right <= |bwt|
      ensures Rows(newLeft, newRight) == Step(bwt, CharOrderOffsets(bwt), c, Rows(left, right))
      ensures c !in bwt ==> newLeft == 0 && newRight == 0
    {
      if c !in char2id {
        return 0, 0;
      }
      var cid := char2id[c];
      var leftOcc := Rank(ids, cid, left);
      var rightOcc := Rank(ids, cid, right);
      RankCounts(c, left);
      RankCounts(c, right);
      newLeft := cTable[cid] + leftOcc;
      newRight := cTable[cid] + rightOcc;
    }

    /**
     * The search loop shared by `count` and `locate`: from the last pattern
     * character to the first, stopping as soon as the interval is empty.
     */
    method SearchPattern(pattern: string) returns (left: nat, right: nat)
      requires Valid()
      ensures left <= right
      ensures left < right <==> BackRange(bwt, CharOrderOffsets(bwt), pattern).Nonempty()
      ensures left < right ==> Rows(left, right) == BackRange(bwt, CharOrderOffsets(bwt), pattern)
    {
      ghost var offsets := CharOrderOffsets(bwt);
      left, right := 0, |bwt|;
      var i: nat := |pattern|;
      while i > 0
        invariant i <= |pattern|
        invariant Rows(left, right) == BackRange(bwt, offsets, pattern[i..])
      {
        i := i - 1;
        left, right := SearchStep(pattern, i, left, right);
        if left == right {
          EmptyStays(bwt, offsets, pattern, i);
          return;
        }
      }
      assert pattern[0..] == pattern;
    }

    /** One iteration of the search loop: the backward search of pattern[i]. */
    method SearchStep(pattern: string, i: nat, left: nat, right: nat) returns (newLeft: nat, newRight: nat)
      requires Valid() && i < |pattern|
      requires Rows(left, right) == BackRange(bwt, CharOrderOffsets(bwt), pattern[i + 1..])
      ensures Rows(newLeft, newRight) == BackRange(bwt, CharOrderOffsets(bwt), pattern[i..])
    {
      assert pattern[i..][1..] == pattern[i + 1..];
      newLeft, newRight := BackwardSearch(pattern[i], left, right);
    }

    /**
     * `count`: the width of the pattern's interval, and 0 as soon as it is
     * empty, in particular for a pattern with a character not in the text.
     */
    method Count(pattern: string) returns (count: nat)
      requires Valid()
      ensures var r := BackRange(bwt, CharOrderOffsets(bwt), pattern); count == r.right - r.left
      ensures count <= |bwt|
      ensures (exists i :: 0 <= i < |pattern| && pattern[i] !in bwt) ==> count == 0
    {
      var left, right := SearchPattern(pattern);
      if left == right {
        return 0;
      }
      count := right - left;
      if i :| 0 <= i < |pattern| && pattern[i] !in bwt {
        UnknownEmpties(bwt, CharOrderOffsets(bwt), pattern, i);
      }
    }

    /**
     * `locate`: the suffix-array entries of the pattern's interval, sorted
     * ascending; none when the interval is empty.
     */
    method Locate(pattern: string) returns (result: seq<nat>)
      requires Valid()
      ensures var r := BackRange(bwt, CharOrderOffsets(bwt), pattern);
        r.right <= |suffixArray| && multiset(result) == multiset(suffixArray[r.left..r.right])
      ensures Ascending(result)
    {
      var left, right := SearchPattern(pattern);
      ghost var r := BackRange(bwt, CharOrderOffsets(bwt), pattern);
      if left == right {
        assert r.left == r.right;
        return [];
      }
      var collected := [];
      for i := left to right
        invariant collected == suffixArray[left..i]
      {
        collected := collected + [suffixArray[i]];
      }
      result := SortPositions(collected);
    }
  }

  // ---------------------------------------------------------------------------
  // The text "ba": the C-table in id order misses an occurrence
  // ---------------------------------------------------------------------------

  /**
   * Over the text "ba" the as-written count of "ba" is 0 while the count
   * with the C-table in character order is 1.
   */
  lemma CountAsWrittenMissesBa()
    ensures BwtOf("ba$", SortSuffixes("ba$", Range(3))) == "ab$"
    ensures CountAsWritten("ab$", "ba") == 0
    ensures var r := BackRange("ab$", CharOrderOffsets("ab$"), "ba"); r.right - r.left == 1
  {
    BaBuilt();
    IdOrderSearchBa();
    CharOrderSearchBa();
  }

  /** The entries of the id-order offsets of "ab$". */
  lemma BaIdEntries()
    ensures IdOffset("ab$", 'a') == 0 && IdOffset("ab$", 'b') == 1 && IdOffset("ab$", '$') == 2
  {
    BaIds();
    BaIndices();
    var f := "ab$";
    assert f[..0] == "" && f[..1] == "a" && f[..2] == "ab";
  }

  /** Where each character of "ab$" first occurs. */
  lemma BaIndices()
    ensures IndexIn("ab$", 'a') == 0 && IndexIn("ab$", 'b') == 1 && IndexIn("ab$", '$') == 2
  {
    var f := "ab$";
    assert f[..1] == "a" && f[..2] == "ab";
  }

  /** The search for "ba" with the id-order offsets of "ab$" ends with no rows. */
  lemma IdOrderSearchBa()
    ensures BackRange("ab$", IdOrderOffsets("ab$"), "ba") == Rows(1, 1)
  {
    var m := IdOrderOffsets("ab$");
    BaIdEntries();
    BaSearchFrom(m);
  }

  /** Searching "ba" over the BWT "ab$" with 'a' at offset 0 and 'b' at offset 1. */
  lemma BaSearchFrom(m: map<char, nat>)
    requires OffsetsFit("ab$", m) && 'a' in m && 'b' in m && m['a'] == 0 && m['b'] == 1
    ensures BackRange("ab$", m, "ba") == Rows(1, 1)
  {
    BaSearch(m);
    BaCounts();
    assert "ab$"[..0] == "" && "ab$"[..1] == "a";
  }

  /** With the C-table in character order, "ba" is found once, in the row of suffix array entry 0. */
  lemma CharOrderFindsBa()
    ensures BwtOf("ba$", SortSuffixes("ba$", Range(3))) == "ab$"
    ensures BackRange("ab$", CharOrderOffsets("ab$"), "ba") == Rows(2, 3)
    ensures SortSuffixes("ba$", Range(3))[2] == 0
  {
    BaBuilt();
    CharOrderSearchBa();
  }

  /** The search for "ba" with the character-order offsets of "ab$": '$' 0, 'a' 1, 'b' 2. */
  lemma CharOrderSearchBa()
    ensures BackRange("ab$", CharOrderOffsets("ab$"), "ba") == Rows(2, 3)
  {
    var m := CharOrderOffsets("ab$");
    BaCounts();
    assert m['a'] == 1 && m['b'] == 2;
    BaSearch(m);
    assert "ab$"[..1] == "a" && "ab$"[..2] == "ab";
  }

  /** The suffix array and BWT of "ba$". */
  lemma BaBuilt()
    ensures SortSuffixes("ba$", Range(3)) == [2, 1, 0]
    ensures BwtOf("ba$", SortSuffixes("ba$", Range(3))) == "ab$"
  {
    BaSuffixArray();
    BaBwt();
  }

  /** The suffix array of "ba$": "$" < "a$" < "ba$". */
  lemma BaSuffixArray()
    ensures SortSuffixes("ba$", Range(3)) == [2, 1, 0]
  {
    assert Range(3) == [0, 1, 2] by {
      assert Range(1) == [0];
      assert Range(2) == [0, 1];
    }
    BaFirstTwo();
    BaInsertLast();
    assert [0, 1, 2][..2] == [0, 1];
  }

  /** Position 2 ("$") goes before "a$". */
  lemma BaInsertLast()
    ensures InsertSuffix("ba$", 2, [1, 0]) == [2, 1, 0]
  {
    assert "ba$"[2..] == "$" && "ba$"[1..] == "a$";
    assert LexLess("$", "a$") by {
      assert "$"[1..] == [] && "a$"[1..] == "$";
    }
  }

  /** Sorting the first two positions of "ba$": "a$" < "ba$". */
  lemma BaFirstTwo()
    ensures SortSuffixes("ba$", [0, 1]) == [1, 0]
  {
    var t := "ba$";
    assert SortSuffixes(t, [0]) == [0] by {
      assert [0][..0] == [];
    }
    assert [0, 1][..1] == [0];
    assert t[0..] == t && t[1..] == "a$";
    assert LexLess("a$", "ba$");
    assert InsertSuffix(t, 1, [0]) == [1, 0];
  }

  /** The BWT of "ba$": the characters before "$", "a$" and "ba$". */
  lemma BaBwt()
    ensures BwtOf("ba$", [2, 1, 0]) == "ab$"
  {
    var r := BwtOf("ba$", [2, 1, 0]);
    assert r[0] == 'a' && r[1] == 'b' && r[2] == '$';
  }

  /** The ids and running totals over the BWT "ab$". */
  lemma BaIds()
    ensures Firsts("ab$") == "ab$"
    ensures SumCounts("ab$", "") == 0 && SumCounts("ab$", "a") == 1 && SumCounts("ab$", "ab") == 2
  {
    BaCounts();
    BaFirsts();
    assert "a"[..0] == [] && "ab"[..1] == "a";
  }

  /** The first appearances in "ab$", one character at a time. */
  lemma BaFirsts()
    ensures Firsts("ab$") == "ab$"
  {
    assert Firsts("a") == "a" by {
      assert "a"[..0] == [];
    }
    assert Firsts("ab") == "ab" by {
      assert "ab"[..1] == "a";
      assert 'b' !in "a";
    }
    assert "ab$"[..2] == "ab";
    assert '$' !in "ab";
  }

  /** The counts of 'a' and 'b' in the prefixes of "ab$". */
  lemma BaCounts()
    ensures CountChar("", 'b') == 0 && CountChar("a", 'b') == 0 && CountChar("ab", 'b') == 1
    ensures CountChar("ab$", 'a') == 1 && CountChar("ab$", 'b') == 1 && CountChar("ab$", '$') == 1
    ensures CountBelow("ab$", 'a') == 1 && CountBelow("ab$", 'b') == 2
  {
    assert "ab$"[..2] == "ab" && "ab"[..1] == "a" && "a"[..0] == [];
  }

  /** Searching "ba" over the BWT "ab$": 'a' takes every row to its offset's block, then 'b' ranks there. */
  lemma BaSearch(m: map<char, nat>)
    requires OffsetsFit("ab$", m) && 'a' in m && 'b' in m && m['a'] <= 1
    ensures BackRange("ab$", m, "ba") ==
      Rows(m['b'] + CountChar("ab$"[..m['a']], 'b'), m['b'] + CountChar("ab$"[..m['a'] + 1], 'b'))
  {
    var bwt := "ab$";
    BaCounts();
    assert "a"[1..] == [] && "ba"[1..] == "a";
    assert bwt[..0] == [] && bwt[..3] == bwt;
    assert BackRange(bwt, m, "a") == Rows(m['a'], m['a'] + 1);
  }
}
