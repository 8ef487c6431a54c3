/**
 * Byte strings and the little-endian layout every serializer of the library
 * uses (`memcpy` of an integer or a 128-bit block on x86-64).
 */
module Bytes {
  import opened Bits

  type byte = x: nat | x < 256

  /** A 128-bit `block` as its sixteen bytes in memory order. */
  type Block = b: seq<byte> | |b| == 16 witness seq(16, _ => 0)

  const ZeroBlock: Block := seq(16, _ => 0)

  /** The unsigned integer stored little-endian in `b`. */
  function DecodeLE(b: seq<byte>): (r: nat)
    ensures r < Pow2(8 * |b|)
  {
    if |b| == 0 then 0
    else
      Pow2Add(8, 8 * (|b| - 1));
      Pow2Constants();
      assert Pow2(8 * |b|) == 256 * Pow2(8 * (|b| - 1));
      b[0] + 256 * DecodeLE(b[1..])
  }

  /** The `width` low bytes of `v`, least significant first. */
  function EncodeLE(v: nat, width: nat): (r: seq<byte>)
    ensures |r| == width
  {
    if width == 0 then [] else [v % 256] + EncodeLE(v / 256, width - 1)
  }

  lemma {:induction false} DecodeEncode(v: nat, width: nat)
    requires v < Pow2(8 * width)
    ensures DecodeLE(EncodeLE(v, width)) == v
  {
    if width == 0 {
    } else {
      Pow2Add(8, 8 * (width - 1));
      Pow2Constants();
      assert Pow2(8 * width) == 256 * Pow2(8 * (width - 1));
      DecodeEncode(v / 256, width - 1);
      assert EncodeLE(v, width)[1..] == EncodeLE(v / 256, width - 1);
    }
  }

  lemma {:induction false} EncodeDecode(b: seq<byte>)
    ensures EncodeLE(DecodeLE(b), |b|) == b
  {
    if |b| > 0 {
      var v := DecodeLE(b);
      DivModUnique(v, 256, DecodeLE(b[1..]), b[0]);
      EncodeDecode(b[1..]);
      assert b == [b[0]] + b[1..];
    }
  }

  lemma DivDiv(v: nat, p: nat, q: nat)
    requires p > 0 && q > 0
    ensures (v / p) / q == v / (p * q)
  {
    var q1, r1 := v / p, v % p;
    var q2, r2 := q1 / q, q1 % q;
    assert v == p * q1 + r1;
    assert q1 == q * q2 + r2;
    assert p * q1 == p * (q * q2) + p * r2;
    assert p * (q * q2) == (p * q) * q2;
    MulLe(p, r2, q - 1);
    assert p * (q - 1) == p * q - p;
    DivModUnique(v, p * q, q2, p * r2 + r1);
  }

  lemma ShrShr(v: nat, a: nat, b: nat)
    ensures Shr(Shr(v, a), b) == Shr(v, a + b)
  {
    Pow2Add(a, b);
    DivDiv(v, Pow2(a), Pow2(b));
  }

  lemma MulLe(a: nat, x: nat, y: nat)
    requires x <= y
    ensures a * x <= a * y
  {
  }

  /** Bit `idx` of a little-endian integer is bit `idx % 8` of byte `idx / 8`. */
  lemma {:induction false} DecodeLEBit(b: seq<byte>, idx: nat)
    requires idx < 8 * |b|
    ensures BitOf(DecodeLE(b), idx) == BitOf(b[idx / 8], idx % 8)
  {
    var rest := DecodeLE(b[1..]);
    var v := DecodeLE(b);
    assert v == b[0] + 256 * rest;
    if idx < 8 {
      LowByteBit(b[0], rest, idx);
      assert idx / 8 == 0 && idx % 8 == idx;
    } else {
      var j := idx - 8;
      ShrByte(b[0], rest);
      BitOfShifted(v, rest, j, idx);
      DecodeLEBit(b[1..], j);
      var q, r := idx / 8, idx % 8;
      assert j / 8 == q - 1 && j % 8 == r;
      assert b[1..][q - 1] == b[q];
    }
  }

  /** Shifting `lo + 256 * hi` right by a byte leaves `hi`. */
  lemma ShrByte(lo: byte, hi: nat)
    ensures Shr(lo + 256 * hi, 8) == hi
  {
    Pow2Constants();
    DivModUnique(lo + 256 * hi, 256, hi, lo);
  }

  /** Bit 8 + j of v is bit j of v shifted right by a byte. */
  lemma BitOfShifted(v: nat, rest: nat, j: nat, idx: nat)
    requires Shr(v, 8) == rest && idx == 8 + j
    ensures BitOf(v, idx) == BitOf(rest, j)
  {
    ShrShr(v, 8, j);
  }

  /** The low eight bits of `lo + 256 * hi` are those of the byte `lo`. */
  lemma LowByteBit(lo: byte, hi: nat, idx: nat)
    requires idx < 8
    ensures BitOf(lo + 256 * hi, idx) == BitOf(lo, idx)
  {
    var p := Pow2(idx);
    var k := Pow2(7 - idx);
    Pow2Add(idx, 8 - idx);
    Pow2Constants();
    assert Pow2(8 - idx) == 2 * k;
    assert 256 == p * (2 * k);
    ParityAfterDiv(lo, hi, p, k);
  }

  /** Adding a multiple of `2p` does not change bit 0 of the quotient by `p`. */
  lemma ParityAfterDiv(lo: nat, hi: nat, p: nat, k: nat)
    requires p > 0
    ensures ((lo + p * (2 * k) * hi) / p) % 2 == (lo / p) % 2
  {
    var q, r := lo / p, lo % p;
    assert lo == p * q + r;
    assert p * (2 * k) * hi == p * (2 * k * hi);
    assert lo + p * (2 * k) * hi == p * (q + 2 * k * hi) + r;
    DivModUnique(lo + p * (2 * k) * hi, p, q + 2 * k * hi, r);
    DivModUnique(q + 2 * k * hi, 2, q / 2 + k * hi, q % 2);
  }

  /** A vector of blocks as its bytes in memory order. */
  function Flatten(s: seq<Block>): (r: seq<byte>)
    ensures |r| == 16 * |s|
  {
    if |s| == 0 then [] else s[0] + Flatten(s[1..])
  }

  /** The 64-bit little-endian word at byte offset `off` of a block vector. */
  function Word64(buff: seq<Block>, off: nat): (r: u64)
    requires off + 8 <= 16 * |buff|
    ensures r == DecodeLE(Flatten(buff)[off..off + 8])
  {
    Pow2Constants();
    DecodeLE(Flatten(buff)[off..off + 8])
  }

  /** Dropping a bytes and then b bytes drops a + b bytes. */
  lemma DropDrop(buf: seq<byte>, a: nat, b: nat)
    requires a + b <= |buf|
    ensures buf[a..][b..] == buf[a + b..]
  {
  }

  /** The fields of an 8 + 16 + 8-byte header, and what follows it. */
  lemma HeaderSlices(a: seq<byte>, b: seq<byte>, c: seq<byte>, d: seq<byte>)
    requires |a| == 8 && |b| == 16 && |c| == 8
    ensures var x := a + (b + (c + d));
      |x| >= 32 && x[..8] == a && x[8..24] == b && x[24..32] == c && x[32..] == d
  {
    var x := a + (b + (c + d));
    assert x[..8] == a;
    assert x[8..] == b + (c + d);
    assert x[8..][..16] == b && x[8..][16..] == c + d;
    assert x[24..] == c + d;
    assert x[24..][..8] == c && x[24..][8..] == d;
  }

  /** Appending after a right-nested concatenation of four parts. */
  lemma AppendNested(a: seq<byte>, b: seq<byte>, c: seq<byte>, d: seq<byte>, r: seq<byte>)
    ensures (a + (b + (c + d))) + r == a + (b + (c + (d + r)))
  {
    assert (c + d) + r == c + (d + r);
    assert (b + (c + d)) + r == b + ((c + d) + r);
    assert (a + (b + (c + d))) + r == a + ((b + (c + d)) + r);
  }

  /** Appending seven pieces one after another is appending their right-nested concatenation. */
  lemma AppendChain(x: seq<byte>, a: seq<byte>, b: seq<byte>, c: seq<byte>, d: seq<byte>, e: seq<byte>, f: seq<byte>, g: seq<byte>)
    ensures x + a + b + c + d + e + f + g == x + (a + (b + (c + (d + (e + (f + g))))))
  {
    var t6 := f + g;
    var t5 := e + t6;
    var t4 := d + t5;
    var t3 := c + t4;
    var t2 := b + t3;
    var t1 := a + t2;
    assert x + a + b + c + d + e + f + g == x + a + b + c + d + e + t6;
    assert x + a + b + c + d + e + t6 == x + a + b + c + d + t5;
    assert x + a + b + c + d + t5 == x + a + b + c + t4;
    assert x + a + b + c + t4 == x + a + b + t3;
    assert x + a + b + t3 == x + a + t2;
    assert x + a + t2 == x + t1;
  }

  /** Three eight-byte words followed by anything: where each word sits. */
  lemma WordSlices(a: seq<byte>, b: seq<byte>, c: seq<byte>, r: seq<byte>)
    requires |a| == 8 && |b| == 8 && |c| == 8
    ensures var x := a + b + c + r;
      |x| >= 24 && x[..8] == a && x[8..16] == b && x[16..24] == c && x[24..] == r
  {
    var x := a + b + c + r;
    assert x == a + (b + (c + r));
    assert x[..8] == a;
    assert x[8..] == b + (c + r);
    assert x[8..][..8] == b && x[8..][8..] == c + r;
    assert x[16..] == c + r;
    assert x[16..][..8] == c && x[16..][8..] == r;
  }

  /** Eight bytes decode to a 64-bit word. */
  lemma DecodeWord(b: seq<byte>)
    requires |b| == 8
    ensures DecodeLE(b) < TWO64
  {
    Pow2Constants();
  }
}
