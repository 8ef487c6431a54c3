/**
 * Beaver triples for two-party multiplication and their byte format: an
 * eight-byte little-endian count followed by 24 bytes per triple (a, b and c
 * as eight-byte little-endian words).
 */
module Triples {
  import opened Bits
  import opened Bytes
  import opened Wrappers

  /** One triple; c is meant to be a * b. */
  datatype BeaverTriple = BeaverTriple(a: u64, b: u64, c: u64)

  /** The value-initialised triple (0, 0, 0). */
  const NoTriple := BeaverTriple(0, 0, 0)

  /** std::runtime_error("Buffer size is too small for deserialization"). */
  datatype TripleError = BufferTooSmall

  // ---------------------------------------------------------------------------
  // Byte format
  // ---------------------------------------------------------------------------

  function EncodeTriple(t: BeaverTriple): (r: seq<byte>)
    ensures |r| == 24
  {
    EncodeLE(t.a, 8) + EncodeLE(t.b, 8) + EncodeLE(t.c, 8)
  }

  function DecodeTriple(buf: seq<byte>): (r: BeaverTriple)
    requires |buf| >= 24
  {
    DecodeWord(buf[..8]);
    DecodeWord(buf[8..16]);
    DecodeWord(buf[16..24]);
    BeaverTriple(DecodeLE(buf[..8]), DecodeLE(buf[8..16]), DecodeLE(buf[16..24]))
  }

  /** The triples one after another, 24 bytes each. */
  function EncodeTriples(ts: seq<BeaverTriple>): (r: seq<byte>)
    ensures |r| == 24 * |ts|
  {
    if |ts| == 0 then [] else EncodeTriple(ts[0]) + EncodeTriples(ts[1..])
  }

  /** n triples read from the front of buf. */
  function DecodeTriples(buf: seq<byte>, n: nat): (r: seq<BeaverTriple>)
    requires |buf| >= 24 * n
    ensures |r| == n
  {
    if n == 0 then [] else [DecodeTriple(buf)] + DecodeTriples(buf[24..], n - 1)
  }

  /** Triple i is read from byte 24 * i on. */
  lemma {:induction false} DecodeTriplesAt(buf: seq<byte>, n: nat, i: nat)
    requires |buf| >= 24 * n && i < n
    ensures DecodeTriples(buf, n)[i] == DecodeTriple(buf[24 * i..])
    decreases i
  {
    var tail := buf[24..];
    var ts := DecodeTriples(buf, n);
    assert ts == [DecodeTriple(buf)] + DecodeTriples(tail, n - 1);
    if i > 0 {
      DecodeTriplesAt(tail, n - 1, i - 1);
      assert ts[i] == DecodeTriples(tail, n - 1)[i - 1];
      DropDrop(buf, 24, 24 * (i - 1));
    } else {
      assert buf[24 * i..] == buf;
    }
  }

  /** Triple i of a serialized buffer occupies bytes 8 + 24 * i to 8 + 24 * i + 24. */
  lemma TripleAtOffset(buffer: seq<byte>, n: nat, i: nat)
    requires |buffer| >= 8 + 24 * n && i < n
    ensures 8 + 24 * i + 24 <= |buffer|
    ensures var off, t := 8 + 24 * i, DecodeTriples(buffer[8..], n)[i];
      t.a == DecodeLE(buffer[off..off + 8]) && t.b == DecodeLE(buffer[off + 8..off + 16]) &&
      t.c == DecodeLE(buffer[off + 16..off + 24])
  {
    var off := 8 + 24 * i;
    DecodeTriplesAt(buffer[8..], n, i);
    DropDrop(buffer, 8, 24 * i);
    var w := buffer[off..];
    SubSlice(buffer, off, 0, 8);
    SubSlice(buffer, off, 8, 16);
    SubSlice(buffer, off, 16, 24);
  }

  /** A slice of a suffix is a slice of the whole. */
  lemma SubSlice(s: seq<byte>, a: nat, i: nat, j: nat)
    requires i <= j && a + j <= |s|
    ensures s[a..][i..j] == s[a + i..a + j]
  {
    forall k | 0 <= k < j - i
      ensures s[a..][i..j][k] == s[a + i..a + j][k]
    {
    }
  }

  /** A non-empty list's first k elements: its head, then k - 1 of its tail. */
  lemma ConsPrefix(ts: seq<BeaverTriple>, k: nat)
    requires 0 < k <= |ts|
    ensures ts[..k] == [ts[0]] + ts[1..][..k - 1]
  {
    forall j | 0 <= j < k
      ensures ts[..k][j] == ([ts[0]] + ts[1..][..k - 1])[j]
    {
      if j > 0 {
        assert ([ts[0]] + ts[1..][..k - 1])[j] == ts[1..][j - 1];
      }
    }
  }

  /** The serialized form of a count and a triple list. */
  function Encoded(count: u64, ts: seq<BeaverTriple>): (r: seq<byte>)
    ensures |r| == 8 + 24 * |ts|
  {
    EncodeLE(count, 8) + EncodeTriples(ts)
  }

  /**
   * What Deserialize makes of a buffer of at least eight bytes: the count
   * read from the first eight, then that many triples, or the runtime error
   * when fewer than 8 + 24 * count bytes are present.
   */
  function Decoded(buffer: seq<byte>): (r: Result<(u64, seq<BeaverTriple>), TripleError>)
    requires |buffer| >= 8
    ensures r.Failure? <==> |buffer| < 8 + 24 * DecodeLE(buffer[..8])
    ensures r.Success? ==> r.value.0 == DecodeLE(buffer[..8]) && |r.value.1| == r.value.0
  {
    Pow2Constants();
    var n: u64 := DecodeLE(buffer[..8]);
    if |buffer| < 8 + 24 * n then Failure(BufferTooSmall)
    else Success((n, DecodeTriples(buffer[8..], n)))
  }

  lemma DecodeEncodeTriple(t: BeaverTriple, rest: seq<byte>)
    ensures DecodeTriple(EncodeTriple(t) + rest) == t
  {
    Pow2Constants();
    WordSlices(EncodeLE(t.a, 8), EncodeLE(t.b, 8), EncodeLE(t.c, 8), rest);
    DecodeEncode(t.a, 8);
    DecodeEncode(t.b, 8);
    DecodeEncode(t.c, 8);
  }

  /** Reading k triples back from an encoding of at least k triples gives its first k. */
  lemma {:induction false} DecodeEncodeTriples(ts: seq<BeaverTriple>, k: nat, rest: seq<byte>)
    requires k <= |ts|
    ensures DecodeTriples(EncodeTriples(ts) + rest, k) == ts[..k]
    decreases k
  {
    if k > 0 {
      var buf := EncodeTriples(ts) + rest;
      var tail := EncodeTriples(ts[1..]) + rest;
      assert buf == EncodeTriple(ts[0]) + tail;
      DecodeEncodeTriple(ts[0], tail);
      assert buf[24..] == tail;
      DecodeEncodeTriples(ts[1..], k - 1, rest);
      ConsPrefix(ts, k);
    }
  }

  /** Appending one triple to the list appends its 24 bytes to the encoding. */
  lemma {:induction false} EncodeTriplesSnoc(ts: seq<BeaverTriple>, t: BeaverTriple)
    ensures EncodeTriples(ts + [t]) == EncodeTriples(ts) + EncodeTriple(t)
    decreases |ts|
  {
    if |ts| > 0 {
      assert (ts + [t])[1..] == ts[1..] + [t];
      EncodeTriplesSnoc(ts[1..], t);
    } else {
      assert ts + [t] == [t];
    }
  }

  /**
   * Deserialize after Serialize: a count at most the number of triples
   * written reads back that count and the first count triples, whatever
   * follows in the buffer.
   */
  lemma DecodedEncoded(count: u64, ts: seq<BeaverTriple>, rest: seq<byte>)
    requires count <= |ts|
    ensures Decoded(Encoded(count, ts) + rest) == Success((count, ts[..count]))
  {
    Pow2Constants();
    var head, body := EncodeLE(count, 8), EncodeTriples(ts) + rest;
    var buf := Encoded(count, ts) + rest;
    assert buf == head + body;
    assert buf[..8] == head && buf[8..] == body;
    DecodeEncode(count, 8);
    assert |buf| >= 8 + 24 * count;
    DecodeEncodeTriples(ts, count, rest);
    assert Decoded(buf) == Success((count, DecodeTriples(body, count)));
  }

  /** The round trip for a consistent list: everything comes back. */
  lemma RoundTrip(ts: seq<BeaverTriple>, rest: seq<byte>)
    requires |ts| < TWO64
    ensures Decoded(Encoded(|ts|, ts) + rest) == Success((|ts| as u64, ts))
  {
    DecodedEncoded(|ts|, ts, rest);
    assert ts[..|ts|] == ts;
  }

  // ---------------------------------------------------------------------------
  // Text form
  // ---------------------------------------------------------------------------

  function Digit(d: nat): (r: char)
    requires d < 10
    ensures '0' <= r <= '9'
  {
    "0123456789"[d]
  }

  /** The decimal digits of n, as `operator<<` prints an unsigned integer. */
  function Decimal(n: nat): (r: string)
    ensures |r| >= 1 && forall i :: 0 <= i < |r| ==> '0' <= r[i] <= '9'
  {
    if n < 10 then [Digit(n)] else Decimal(n / 10) + [Digit(n % 10)]
  }

  function TripleText(t: BeaverTriple): (r: string)
    ensures |r| >= 2 && r[0] == '(' && r[|r| - 1] == ')'
  {
    "(" + Decimal(t.a) + "," + Decimal(t.b) + "," + Decimal(t.c) + ")"
  }

  /** The texts of shown[..i], each followed by the delimiter unless it is the last of `shown`. */
  function Listed(shown: seq<BeaverTriple>, i: nat, delimiter: string): (r: string)
    requires i <= |shown|
    ensures i > 0 && i == |shown| ==> |r| > 0 && r[|r| - 1] == ')'
  {
    if i == 0 then ""
    else
      var prefix := Listed(shown, i - 1, delimiter) + TripleText(shown[i - 1]);
      if i - 1 < |shown| - 1 then prefix + delimiter else prefix
  }

  /** The text of i + 1 triples is that of i, the next triple and, unless it is the last, the delimiter. */
  lemma ListedNext(shown: seq<BeaverTriple>, i: nat, delimiter: string, text: string)
    requires i < |shown| && text == TripleText(shown[i])
    ensures var prefix := Listed(shown, i, delimiter) + text;
      Listed(shown, i + 1, delimiter) == if i < |shown| - 1 then prefix + delimiter else prefix
  {
  }

  /** How many triples ToString shows: all of them for limit 0 or a limit past the count. */
  function Shown(limit: nat, count: nat): (r: nat)
    ensures r <= count
    ensures limit == 0 || limit > count ==> r == count
    ensures 0 < limit <= count ==> r == limit
  {
    if limit == 0 || limit > count then count else limit
  }

  /** The text of ToString for the shown triples, with "..." when some were cut. */
  function Rendered(shown: seq<BeaverTriple>, truncated: bool, delimiter: string): (r: string)
  {
    "[" + Listed(shown, |shown|, delimiter) + (if truncated then "..." else "") + "]"
  }

  /** The rendering ends with "...]" exactly when the list was cut, and is bracketed. */
  lemma RenderedEllipsis(shown: seq<BeaverTriple>, truncated: bool, delimiter: string)
    ensures var r := Rendered(shown, truncated, delimiter);
      |r| >= 2 && r[0] == '[' && r[|r| - 1] == ']' &&
      (truncated <==> |r| >= 4 && r[|r| - 4..] == "...]")
  {
    var r := Rendered(shown, truncated, delimiter);
    var body := Listed(shown, |shown|, delimiter);
    if !truncated {
      assert r == "[" + body + "]";
      if |shown| > 0 {
        assert r[|r| - 2] == body[|body| - 1];
        assert r[|r| - 4..][2] == r[|r| - 2];
      }
    } else {
      assert r[|r| - 4..] == "...]";
    }
  }

  // ---------------------------------------------------------------------------
  // The container
  // ---------------------------------------------------------------------------

  /** `BeaverTriples`: a count and a vector of triples, kept apart in the source. */
  class BeaverTriples {
    var numTriples: u64
    var triples: seq<BeaverTriple>

    /** The count matches the vector. */
    ghost predicate Consistent()
      reads this
    {
      |triples| == numTriples
    }

    /** `BeaverTriples(n)`: n value-initialised triples. */
    constructor (n: u64)
      ensures Consistent() && numTriples == n && triples == seq(n, _ => NoTriple)
    {
      numTriples := n;
      triples := seq(n, _ => NoTriple);
    }

    /** operator==: the counts agree and the vectors have the same length and elements. */
    function Equals(rhs: BeaverTriples): (r: bool)
      reads this, rhs
      ensures r <==> (numTriples == rhs.numTriples && |triples| == |rhs.triples| &&
                      forall i :: 0 <= i < |triples| ==> triples[i] == rhs.triples[i])
    {
      numTriples == rhs.numTriples && triples == rhs.triples
    }

    /** Appends the count and then every triple of the vector (not numTriples of them). */
    method Serialize(buffer: seq<byte>) returns (out: seq<byte>)
      ensures out == buffer + Encoded(numTriples, triples)
      ensures |out| == |buffer| + 8 + 24 * |triples|
    {
      out := buffer + EncodeLE(numTriples, 8);
      var i := 0;
      while i < |triples|
        invariant 0 <= i <= |triples|
        invariant out == buffer + EncodeLE(numTriples, 8) + EncodeTriples(triples[..i])
      {
        var t := triples[i];
        out := out + EncodeLE(t.a, 8);
        out := out + EncodeLE(t.b, 8);
        out := out + EncodeLE(t.c, 8);
        assert triples[..i + 1] == triples[..i] + [t];
        EncodeTriplesSnoc(triples[..i], t);
        i := i + 1;
      }
      assert triples[..i] == triples;
    }

    /**
     * Reads the count, then throws when the buffer cannot hold that many
     * triples (the count has already been overwritten by then), else resizes
     * the vector and reads every triple.
     */
    method Deserialize(buffer: seq<byte>) returns (err: Option<TripleError>)
      requires |buffer| >= 8
      modifies this
      ensures numTriples == DecodeLE(buffer[..8])
      ensures err.Some? ==> triples == old(triples)
      ensures Decoded(buffer) == if err.Some? then Failure(err.value) else Success((numTriples, triples))
      ensures err.None? ==> Consistent()
    {
      DecodeWord(buffer[..8]);
      var count: u64 := DecodeLE(buffer[..8]);
      numTriples := count;
      var offset := 8;
      var expectedSize := 8 + count * 3 * 8;
      assert expectedSize == 8 + 24 * count;
      if |buffer| < expectedSize {
        return Some(BufferTooSmall);
      }
      triples := Resized(triples, count, NoTriple);
      ghost var expected := DecodeTriples(buffer[8..], count);
      var i := 0;
      while i < count
        invariant numTriples == count && 0 <= i <= count && |triples| == count
        invariant offset == 8 + 24 * i
        invariant forall j :: 0 <= j < i ==> triples[j] == expected[j]
      {
        TripleAtOffset(buffer, count, i);
        var a := DecodeLE(buffer[offset..offset + 8]);
        offset := offset + 8;
        var b := DecodeLE(buffer[offset..offset + 8]);
        offset := offset + 8;
        var c := DecodeLE(buffer[offset..offset + 8]);
        offset := offset + 8;
        assert BeaverTriple(a, b, c) == expected[i];
        triples := triples[i := BeaverTriple(a, b, c)];
        i := i + 1;
      }
      assert triples == expected;
      assert Decoded(buffer) == Success((count, expected));
      return None;
    }

    /**
     * The text "[(a,b,c), ...]" of the first Shown(limit, numTriples)
     * triples, with "..." before the bracket when fewer than numTriples are
     * shown.
     */
    method ToString(limit: nat, delimiter: string) returns (s: string)
      requires |triples| >= numTriples
      ensures s == Rendered(triples[..Shown(limit, numTriples)], Shown(limit, numTriples) < numTriples, delimiter)
    {
      var lim := limit;
      if lim == 0 || lim > numTriples {
        lim := numTriples;
      }
      assert lim == Shown(limit, numTriples);
      var ts := triples;
      ghost var shown := ts[..lim];
      assert |shown| == lim && forall j :: 0 <= j < lim ==> shown[j] == ts[j];
      var items := "";
      var i := 0;
      while i < lim
        invariant 0 <= i <= lim
        invariant items == Listed(shown, i, delimiter)
      {
        var text := TripleText(ts[i]);
        ListedNext(shown, i, delimiter, text);
        items := items + text;
        if i < lim - 1 {
          items := items + delimiter;
        }
        i := i + 1;
      }
      s := "[" + items;
      if lim < numTriples {
        s := s + "...";
      }
      s := s + "]";
    }
  }
}
