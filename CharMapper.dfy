/**
 * The character mapper of RingOA's plain wavelet matrix
 * (RingOA/wm/plain_wm.cpp): a fixed alphabet per character type, a
 * character's id is its position in that alphabet, and `sigma` is the
 * number of bits an id needs.
 */
module CharMapper {
  import opened Bits
  import opened Wrappers

  /** The two alphabets: nucleotides and amino acids, each with the terminator `$`. */
  datatype CharType = Dna | Protein

  /** std::out_of_range, thrown by the id-to-character lookup. */
  datatype MapError = OutOfRange

  /** The characters of an alphabet in id order: `$` has id 0, the next character id 1, and so on. */
  function Alphabet(t: CharType): string
  {
    match t
    case Dna => "$ACGT"
    case Protein => "$ACDEFGHIKLMNPQRSTVWY"
  }

  /** The number of bits per id: 3 for DNA, 5 for proteins. */
  function AlphabetSigma(t: CharType): nat
  {
    match t
    case Dna => 3
    case Protein => 5
  }

  /** Each character is smaller than the next. */
  predicate Ascending(s: string)
  {
    forall i :: 0 <= i < |s| - 1 ==> s[i] < s[i + 1]
  }

  lemma {:induction false} AscendingAll(s: string)
    requires Ascending(s)
    ensures forall i, j :: 0 <= i < j < |s| ==> s[i] < s[j]
  {
    if |s| > 1 {
      var t := s[1..];
      assert Ascending(t) by {
        forall i | 0 <= i < |t| - 1
          ensures t[i] < t[i + 1]
        {
          assert t[i] == s[i + 1] && t[i + 1] == s[i + 2];
        }
      }
      AscendingAll(t);
      forall i, j | 0 <= i < j < |s|
        ensures s[i] < s[j]
      {
        if 0 < i {
          assert s[i] == t[i - 1] && s[j] == t[j - 1];
        } else if 1 < j {
          assert s[1] == t[0] && s[j] == t[j - 1];
        }
      }
    }
  }

  /**
   * Ids fit in sigma bits, and id order is character order: the alphabets
   * are listed in ascending character code.
   */
  lemma AlphabetFacts(t: CharType)
    ensures 0 < |Alphabet(t)| <= Pow2(AlphabetSigma(t))
    ensures forall i, j :: 0 <= i < j < |Alphabet(t)| ==> Alphabet(t)[i] < Alphabet(t)[j]
  {
    assert Pow2(3) == 8;
    assert Pow2(5) == 32;
    assert Ascending(Alphabet(t));
    AscendingAll(Alphabet(t));
  }

  /** The first position of c in a, if any. */
  function IndexOf(a: string, c: char): (r: Option<nat>)
    ensures r.Some? ==> r.value < |a| && a[r.value] == c && c !in a[..r.value]
    ensures r.None? <==> c !in a
  {
    if a == [] then None
    else if a[0] == c then Some(0)
    else match IndexOf(a[1..], c)
      case None => assert a == [a[0]] + a[1..]; None
      case Some(i) =>
        assert a[..i + 1] == [a[0]] + a[1..][..i];
        Some(i + 1)
  }

  /** `IsValidChar`: the character belongs to the alphabet. */
  predicate IsValidChar(t: CharType, c: char)
  {
    c in Alphabet(t)
  }

  /** `ToId`: the id of a character of the alphabet; None for any other character. */
  function ToId(t: CharType, c: char): (r: Option<nat>)
    ensures r.Some? <==> IsValidChar(t, c)
    ensures r.Some? ==> r.value < |Alphabet(t)| && Alphabet(t)[r.value] == c
  {
    IndexOf(Alphabet(t), c)
  }

  /** `id2char_.at(id)`: the character of an id, or out_of_range. */
  function CharOf(t: CharType, id: nat): (r: Result<char, MapError>)
    ensures r.Success? <==> id < |Alphabet(t)|
  {
    if id < |Alphabet(t)| then Success(Alphabet(t)[id]) else Failure(OutOfRange)
  }

  /**
   * ToId and CharOf are inverse bijections between the alphabet and the
   * ids below its size, ids fit in sigma bits, and the order of ids is the
   * order of characters.
   */
  lemma {:induction false} IdRoundTrip(t: CharType)
    ensures forall c :: IsValidChar(t, c) ==> CharOf(t, ToId(t, c).value) == Success(c)
    ensures forall id: nat :: id < |Alphabet(t)| ==> ToId(t, CharOf(t, id).value) == Some(id)
    ensures forall c :: IsValidChar(t, c) ==> ToId(t, c).value < Pow2(AlphabetSigma(t))
    ensures forall c, d :: IsValidChar(t, c) && IsValidChar(t, d) ==> (c < d <==> ToId(t, c).value < ToId(t, d).value)
  {
    AlphabetFacts(t);
    IndexInverse(Alphabet(t));
  }

  /** In a strictly ascending string, the first position of each character is its only one, and positions follow character order. */
  lemma {:induction false} IndexInverse(a: string)
    requires forall i, j :: 0 <= i < j < |a| ==> a[i] < a[j]
    ensures forall id: nat :: id < |a| ==> IndexOf(a, a[id]) == Some(id)
    ensures forall c, d :: c in a && d in a ==> (c < d <==> IndexOf(a, c).value < IndexOf(a, d).value)
  {
    forall id: nat | id < |a|
      ensures IndexOf(a, a[id]) == Some(id)
    {
      var j := IndexOf(a, a[id]).value;
      assert a[j] == a[id];
    }
    forall c, d | c in a && d in a
      ensures c < d <==> IndexOf(a, c).value < IndexOf(a, d).value
    {
      var i, j := IndexOf(a, c).value, IndexOf(a, d).value;
      assert a[i] == c && a[j] == d;
    }
  }

  /** `ToIds`: the ids of a string of alphabet characters, in order. */
  method ToIds(t: CharType, s: string) returns (ids: seq<nat>)
    requires forall i :: 0 <= i < |s| ==> IsValidChar(t, s[i])
    ensures |ids| == |s|
    ensures forall i :: 0 <= i < |s| ==> ToId(t, s[i]) == Some(ids[i])
  {
    ids := [];
    for i := 0 to |s|
      invariant |ids| == i
      invariant forall k :: 0 <= k < i ==> ToId(t, s[k]) == Some(ids[k])
    {
      var id := ToId(t, s[i]);
      ghost var before := ids;
      ids := ids + [id.value];
      forall k | 0 <= k < i + 1
        ensures ToId(t, s[k]) == Some(ids[k])
      {
        if k < i {
          assert ids[k] == before[k];
        }
      }
    }
  }

  /** `ToString`: the characters of a sequence of ids, or out_of_range at the first id outside the alphabet. */
  method ToString(t: CharType, v: seq<nat>) returns (r: Result<string, MapError>)
    ensures r.Success? <==> forall i :: 0 <= i < |v| ==> v[i] < |Alphabet(t)|
    ensures r.Success? ==> |r.value| == |v| && forall i :: 0 <= i < |v| ==> CharOf(t, v[i]) == Success(r.value[i])
    ensures r.Failure? ==> r.error == OutOfRange
  {
    var result: string := [];
    for i := 0 to |v|
      invariant |result| == i
      invariant forall k :: 0 <= k < i ==> v[k] < |Alphabet(t)| && CharOf(t, v[k]) == Success(result[k])
    {
      var ch := CharOf(t, v[i]);
      if ch.Failure? {
        return Failure(OutOfRange);
      }
      result := result + [ch.value];
    }
    return Success(result);
  }
}
