/**
 * Character counts over a text, the quantities an FM-index is built from:
 * how often a character occurs in a prefix (its rank) and how many
 * characters of the text are smaller than it (its C-table entry).
 */
module TextCount {

  /** A half-open interval [left, right) of BWT rows. */
  datatype Rows = Rows(left: nat, right: nat)
  {
    predicate Nonempty() { left < right }
  }

  /** The number of occurrences of c in s. */
  function CountChar(s: string, c: char): (r: nat)
    ensures r <= |s|
  {
    if s == [] then 0
    else CountChar(s[..|s| - 1], c) + (if s[|s| - 1] == c then 1 else 0)
  }

  /** The number of characters of s that are smaller than c. */
  function CountBelow(s: string, c: char): (r: nat)
    ensures r <= |s|
  {
    if s == [] then 0
    else CountBelow(s[..|s| - 1], c) + (if s[|s| - 1] < c then 1 else 0)
  }

  /** The number of characters of s that belong to `keys`. */
  function CountIn(s: string, keys: set<char>): (r: nat)
    ensures r <= |s|
  {
    if s == [] then 0
    else CountIn(s[..|s| - 1], keys) + (if s[|s| - 1] in keys then 1 else 0)
  }

  /** The smaller characters and the character itself are disjoint parts of the text. */
  lemma {:induction false} BelowAndChar(s: string, c: char)
    ensures CountBelow(s, c) + CountChar(s, c) <= |s|
  {
    if s != [] {
      BelowAndChar(s[..|s| - 1], c);
    }
  }

  /** A character that does not occur has count 0. */
  lemma {:induction false} CountAbsent(s: string, c: char)
    requires c !in s
    ensures CountChar(s, c) == 0
  {
    if s != [] {
      var t := s[..|s| - 1];
      assert forall x :: x in t ==> x in s;
      CountAbsent(t, c);
    }
  }

  /**
   * The count in a longer prefix is at least the count in a shorter one,
   * and grows by at most the number of characters added.
   */
  lemma {:induction false} CountPrefixMonotone(s: string, c: char, i: nat, j: nat)
    requires i <= j <= |s|
    ensures CountChar(s[..i], c) <= CountChar(s[..j], c) <= CountChar(s[..i], c) + (j - i)
    decreases j
  {
    if i < j {
      assert s[..j][..j - 1] == s[..j - 1];
      CountPrefixMonotone(s, c, i, j - 1);
    }
  }

  /** Counting over a set of keys: adding one key adds that key's count. */
  lemma {:induction false} CountInAdd(s: string, keys: set<char>, c: char)
    requires c !in keys
    ensures CountIn(s, keys + {c}) == CountIn(s, keys) + CountChar(s, c)
  {
    if s != [] {
      CountInAdd(s[..|s| - 1], keys, c);
    }
  }

  /** When the keys found in s are exactly its characters below c, counting the keys counts the smaller characters. */
  lemma {:induction false} CountInBelow(s: string, keys: set<char>, c: char)
    requires forall x :: x in s ==> (x in keys <==> x < c)
    ensures CountIn(s, keys) == CountBelow(s, c)
  {
    if s != [] {
      var t := s[..|s| - 1];
      assert forall x :: x in t ==> x in s;
      CountInBelow(t, keys, c);
    }
  }

  /** With no keys nothing is counted. */
  lemma {:induction false} CountInNone(s: string)
    ensures CountIn(s, {}) == 0
  {
    if s != [] {
      CountInNone(s[..|s| - 1]);
    }
  }

  /** With every character of s among the keys, all of s is counted. */
  lemma {:induction false} CountInAll(s: string, keys: set<char>)
    requires forall x :: x in s ==> x in keys
    ensures CountIn(s, keys) == |s|
  {
    if s != [] {
      var t := s[..|s| - 1];
      assert forall x :: x in t ==> x in s;
      CountInAll(t, keys);
    }
  }
}
