/**
 * Two-party additive sharing over Z_{2^bitsize} with Beaver triples.
 *
 * A value x is split into x0 + x1 = x (mod 2^bitsize). Addition and
 * subtraction are local. A product consumes one Beaver triple (a, b, c) with
 * c = a * b: both parties open d = x - a and e = y - b, and party p outputs
 * a_p * e + b_p * d + c_p, party 0 adding d * e. Triples are generated by a
 * dealer (OfflineSetUp), shared, serialized, and loaded by each party.
 *
 * Values are `uint32_t`; the masking `Mod` takes a `uint32_t`, so every
 * 64-bit intermediate is truncated before it is masked. The random draws of
 * the PRNG and the messages of the peer are explicit inputs.
 */
module Additive2P {
  import opened Bits
  import opened Bytes
  import opened Wrappers
  import opened Triples

  /** x0 and x1 are additive shares of x: x0 + x1 = x modulo 2^bitsize. */
  predicate SharesOf(x0: int, x1: int, x: int, bitsize: nat) {
    (x0 + x1) % Pow2(bitsize) == x % Pow2(bitsize)
  }

  /* ------------------------------------------------ sharing and reconstruction */

  /** Share with one random draw: x0 is the draw masked, x1 = x - x0. */
  function Share(x: u32, rand: u32, bitsize: nat): (r: (u32, u32))
    requires bitsize < 32
    ensures r.0 == rand % Pow2(bitsize)
    ensures r.0 < Pow2(bitsize) && r.1 < Pow2(bitsize)
    ensures SharesOf(r.0, r.1, x, bitsize)
  {
    var x0 := Mod32(rand, bitsize);
    var diff: int := x as int - x0;
    var x1 := Mod32(diff, bitsize);
    assert x0 + diff == x;
    ModSummand(x0, diff, Pow2(bitsize));
    (x0, x1)
  }

  /** ReconstLocal: the sum of the two shares, masked; any two shares of x give x. */
  function ReconstLocal(x0: u32, x1: u32, bitsize: nat): (x: u32)
    requires bitsize < 32
    ensures x < Pow2(bitsize)
    ensures SharesOf(x0, x1, x, bitsize)
  {
    var r := Mod32(x0 + x1, bitsize);
    ModIdem(x0 + x1, Pow2(bitsize));
    r
  }

  /**
   * The product share a party computes from its own masked pair and the
   * peer's: party 0 opens d and e as own + peer, party 1 as peer + own,
   * which is the same value.
   */
  function PartyProduct(party: nat, own: (u32, u32), peer: (u32, u32), t: BeaverTriple, bitsize: nat): (z: u32)
    requires bitsize < 32
    ensures z == ProductShare(party, ReconstLocal(own.0, peer.0, bitsize), ReconstLocal(own.1, peer.1, bitsize), t, bitsize)
  {
    var de := if party == 0 then (ReconstLocal(own.0, peer.0, bitsize), ReconstLocal(own.1, peer.1, bitsize))
              else (ReconstLocal(peer.0, own.0, bitsize), ReconstLocal(peer.1, own.1, bitsize));
    assert own.0 + peer.0 == peer.0 + own.0 && own.1 + peer.1 == peer.1 + own.1;
    ProductShare(party, de.0, de.1, t, bitsize)
  }

  /** Reconstruction inverts sharing: the shares of x open to x modulo 2^bitsize. */
  lemma ReconstShare(x: u32, rand: u32, bitsize: nat)
    requires bitsize < 32
    ensures var (x0, x1) := Share(x, rand, bitsize); ReconstLocal(x0, x1, bitsize) == x % Pow2(bitsize)
  {
    var (x0, x1) := Share(x, rand, bitsize);
    ReconstSharesOf(x0, x1, x, bitsize);
  }

  /** Any pair of shares of x reconstructs to x modulo 2^bitsize. */
  lemma ReconstSharesOf(x0: u32, x1: u32, x: int, bitsize: nat)
    requires bitsize < 32 && SharesOf(x0, x1, x, bitsize)
    ensures ReconstLocal(x0, x1, bitsize) == x % Pow2(bitsize)
  {
    var m := Pow2(bitsize);
    var r := ReconstLocal(x0, x1, bitsize);
    assert r == (x0 + x1) % m;
    ModIdem(x, m);
  }

  /* ------------------------------------------------ local operations */

  function EvaluateAdd(x: u32, y: u32, bitsize: nat): (z: u32)
    requires bitsize < 32
    ensures z == (x + y) % Pow2(bitsize)
  {
    Mod32(x + y, bitsize)
  }

  function EvaluateSub(x: u32, y: u32, bitsize: nat): (z: u32)
    requires bitsize < 32
    ensures z == (x - y) % Pow2(bitsize)
  {
    Mod32(x - y, bitsize)
  }

  /** Adding shares locally gives shares of the sum. */
  lemma AddShares(x0: u32, x1: u32, y0: u32, y1: u32, x: int, y: int, bitsize: nat)
    requires bitsize < 32 && SharesOf(x0, x1, x, bitsize) && SharesOf(y0, y1, y, bitsize)
    ensures SharesOf(EvaluateAdd(x0, y0, bitsize), EvaluateAdd(x1, y1, bitsize), x + y, bitsize)
  {
    var m := Pow2(bitsize);
    var z0, z1 := EvaluateAdd(x0, y0, bitsize), EvaluateAdd(x1, y1, bitsize);
    ModIdem(x0 + y0, m);
    ModIdem(x1 + y1, m);
    AddCongruent2(z0, x0 + y0, z1, x1 + y1, m);
    assert (x0 + y0) + (x1 + y1) == (x0 + x1) + (y0 + y1);
    AddCongruent2(x0 + x1, x, y0 + y1, y, m);
  }

  /** Subtracting shares locally gives shares of the difference. */
  lemma SubShares(x0: u32, x1: u32, y0: u32, y1: u32, x: int, y: int, bitsize: nat)
    requires bitsize < 32 && SharesOf(x0, x1, x, bitsize) && SharesOf(y0, y1, y, bitsize)
    ensures SharesOf(EvaluateSub(x0, y0, bitsize), EvaluateSub(x1, y1, bitsize), x - y, bitsize)
  {
    var m := Pow2(bitsize);
    var z0, z1 := EvaluateSub(x0, y0, bitsize), EvaluateSub(x1, y1, bitsize);
    ModIdem(x0 - y0, m);
    ModIdem(x1 - y1, m);
    AddCongruent2(z0, x0 - y0, z1, x1 - y1, m);
    assert (x0 - y0) + (x1 - y1) == (x0 + x1) - (y0 + y1);
    SubCongruent2(x0 + x1, x, y0 + y1, y, m);
  }

  /* ------------------------------------------------ Beaver multiplication */

  /** The triple shares t0 and t1 add up to a triple whose c is a * b modulo 2^bitsize. */
  predicate TripleShares(t0: BeaverTriple, t1: BeaverTriple, bitsize: nat) {
    (t0.c + t1.c) % Pow2(bitsize) == ((t0.a + t1.a) * (t0.b + t1.b)) % Pow2(bitsize)
  }

  /**
   * A party's masked differences d = x - a and e = y - b. The subtraction of
   * a 64-bit triple field happens in 64 bits and is truncated to 32 bits by
   * Mod; neither wrap changes the value modulo 2^bitsize.
   */
  function Masked(x: u32, y: u32, t: BeaverTriple, bitsize: nat): (r: (u32, u32))
    requires bitsize < 32
    ensures r.0 == (x - t.a) % Pow2(bitsize) && r.1 == (y - t.b) % Pow2(bitsize)
  {
    WrapThenMod(x - t.a, bitsize);
    WrapThenMod(y - t.b, bitsize);
    (Mod32((x - t.a) % TWO64, bitsize), Mod32((y - t.b) % TWO64, bitsize))
  }

  /**
   * A party's product share from the opened d and e and its triple share:
   * a * e + b * d + c, plus d * e at party 0. The products with triple fields
   * and the sum wrap at 2^64, d * e wraps at 2^32; the result is the Beaver
   * term modulo 2^bitsize.
   */
  function ProductShare(party: nat, d: u32, e: u32, t: BeaverTriple, bitsize: nat): (z: u32)
    requires bitsize < 32
    ensures z < Pow2(bitsize)
    ensures z == (e * t.a + d * t.b + t.c + (if party == 0 then d * e else 0)) % Pow2(bitsize)
  {
    var cross: int := e * t.a + d * t.b + t.c;
    var total: int := if party == 0 then (cross + (d * e) % TWO32) % TWO64 else cross % TWO64;
    WrapThenMod(if party == 0 then cross + (d * e) % TWO32 else cross, bitsize);
    assert (cross + (d * e) % TWO32) % Pow2(bitsize) == (cross + d * e) % Pow2(bitsize) by {
      WrapThenMod32(d * e, bitsize);
      AddCongruent((d * e) % TWO32, d * e, cross, Pow2(bitsize));
    }
    Mod32(total, bitsize)
  }

  /** The Beaver identity: with d = x - a, e = y - b and c = a * b, e*a + d*b + c + d*e = x*y. */
  lemma BeaverIdentity(x: int, y: int, a: int, b: int, c: int, d: int, e: int, m: nat)
    requires m > 0
    requires d % m == (x - a) % m && e % m == (y - b) % m && c % m == (a * b) % m
    ensures (e * a + d * b + c + d * e) % m == (x * y) % m
  {
    var dd, ee := x - a, y - b;
    MulCongruent(e, ee, a, a, m);
    MulCongruent(d, dd, b, b, m);
    MulCongruent(d, dd, e, ee, m);
    AddCongruent2(e * a, ee * a, d * b, dd * b, m);
    AddCongruent2(e * a + d * b, ee * a + dd * b, c, a * b, m);
    AddCongruent2(e * a + d * b + c, ee * a + dd * b + a * b, d * e, dd * ee, m);
    assert ee * a == y * a - b * a;
    assert dd * b == x * b - a * b;
    assert dd * ee == x * y - x * b - a * y + a * b;
  }

  /** The shared sum of the two product shares: the triple's shares combine under d and e. */
  lemma ProductSum(d: u32, e: u32, t0: BeaverTriple, t1: BeaverTriple, bitsize: nat)
    requires bitsize < 32
    ensures var m := Pow2(bitsize);
      (ProductShare(0, d, e, t0, bitsize) + ProductShare(1, d, e, t1, bitsize)) % m ==
      (e * (t0.a + t1.a) + d * (t0.b + t1.b) + (t0.c + t1.c) + d * e) % m
  {
    var m := Pow2(bitsize);
    var s0: int := e * t0.a + d * t0.b + t0.c + d * e;
    var s1: int := e * t1.a + d * t1.b + t1.c;
    ModIdem(s0, m);
    ModIdem(s1, m);
    AddCongruent2(ProductShare(0, d, e, t0, bitsize), s0, ProductShare(1, d, e, t1, bitsize), s1, m);
    Distribute(e, t0.a, t1.a);
    Distribute(d, t0.b, t1.b);
  }

  lemma Distribute(k: int, a0: int, a1: int)
    ensures k * a0 + k * a1 == k * (a0 + a1)
  {
  }

  /** Opening the two parties' masked differences gives x - a and y - b. */
  lemma OpenedDifferences(x0: u32, x1: u32, y0: u32, y1: u32, t0: BeaverTriple, t1: BeaverTriple,
                          x: int, y: int, bitsize: nat)
    requires bitsize < 32 && SharesOf(x0, x1, x, bitsize) && SharesOf(y0, y1, y, bitsize)
    ensures var (m0, m1) := (Masked(x0, y0, t0, bitsize), Masked(x1, y1, t1, bitsize));
      var m := Pow2(bitsize);
      ReconstLocal(m0.0, m1.0, bitsize) % m == (x - (t0.a + t1.a)) % m &&
      ReconstLocal(m0.1, m1.1, bitsize) % m == (y - (t0.b + t1.b)) % m
  {
    var m := Pow2(bitsize);
    var m0, m1 := Masked(x0, y0, t0, bitsize), Masked(x1, y1, t1, bitsize);
    var d, e := ReconstLocal(m0.0, m1.0, bitsize), ReconstLocal(m0.1, m1.1, bitsize);
    OpenOne(x0, x1, x, t0.a, t1.a, m0.0, m1.0, d, m);
    OpenOne(y0, y1, y, t0.b, t1.b, m0.1, m1.1, e, m);
  }

  /** One opened difference: the masked shares of v reconstruct to v minus the mask. */
  lemma OpenOne(s0: int, s1: int, v: int, a0: int, a1: int, r0: int, r1: int, r: int, m: nat)
    requires m > 0 && (s0 + s1) % m == v % m
    requires r0 == (s0 - a0) % m && r1 == (s1 - a1) % m && (r0 + r1) % m == r % m
    ensures r % m == (v - (a0 + a1)) % m
  {
    ModIdem(s0 - a0, m);
    ModIdem(s1 - a1, m);
    AddCongruent2(r0, s0 - a0, r1, s1 - a1, m);
    assert (s0 - a0) + (s1 - a1) == (s0 + s1) - (a0 + a1);
    SubCongruent2(s0 + s1, v, a0 + a1, a0 + a1, m);
  }

  /**
   * Beaver multiplication is correct: when both parties mask their shares
   * with shares of a valid triple, open d and e, and compute their product
   * shares, the two product shares are shares of x * y.
   */
  lemma BeaverCorrect(x0: u32, x1: u32, y0: u32, y1: u32, t0: BeaverTriple, t1: BeaverTriple,
                      x: int, y: int, bitsize: nat)
    requires bitsize < 32
    requires SharesOf(x0, x1, x, bitsize) && SharesOf(y0, y1, y, bitsize) && TripleShares(t0, t1, bitsize)
    ensures var (m0, m1) := (Masked(x0, y0, t0, bitsize), Masked(x1, y1, t1, bitsize));
      var d, e := ReconstLocal(m0.0, m1.0, bitsize), ReconstLocal(m0.1, m1.1, bitsize);
      SharesOf(ProductShare(0, d, e, t0, bitsize), ProductShare(1, d, e, t1, bitsize), x * y, bitsize)
  {
    var m := Pow2(bitsize);
    var m0, m1 := Masked(x0, y0, t0, bitsize), Masked(x1, y1, t1, bitsize);
    var d, e := ReconstLocal(m0.0, m1.0, bitsize), ReconstLocal(m0.1, m1.1, bitsize);
    OpenedDifferences(x0, x1, y0, y1, t0, t1, x, y, bitsize);
    ProductSum(d, e, t0, t1, bitsize);
    var a: int, b: int, c: int := t0.a + t1.a, t0.b + t1.b, t0.c + t1.c;
    var sum: int := ProductShare(0, d, e, t0, bitsize) + ProductShare(1, d, e, t1, bitsize);
    var joint: int := e * a + d * b + c + d * e;
    assert sum % m == joint % m;
    BeaverIdentity(x, y, a, b, c, d, e, m);
    assert joint % m == (x * y) % m;
  }

  /** Selection by a shared bit: x + c * (y - x) is y when c is 1 and x when c is 0. */
  lemma SelectIdentity(x: int, y: int, c: int, m: nat)
    requires m > 0 && (c == 0 || c == 1)
    ensures (x + c * (y - x)) % m == (if c == 1 then y else x) % m
  {
  }

  /* ------------------------------------------------ triples */

  /** One generated triple: a and b are draws masked, c = a * b masked (the 32-bit product wraps). */
  function GenTriple(ra: u32, rb: u32, bitsize: nat): (t: BeaverTriple)
    requires bitsize < 32
    ensures t.a == ra % Pow2(bitsize) && t.b == rb % Pow2(bitsize)
    ensures t.c == (t.a * t.b) % Pow2(bitsize)
  {
    var a := Mod32(ra, bitsize);
    var b := Mod32(rb, bitsize);
    BeaverTriple(a, b, Mod32(a * b, bitsize))
  }

  /** The num triples GenerateBeaverTriples draws, two draws per triple. */
  function Generated(rand: seq<u32>, num: nat, bitsize: nat): (ts: seq<BeaverTriple>)
    requires bitsize < 32 && |rand| >= 2 * num
    ensures |ts| == num
    ensures forall i :: 0 <= i < num ==> ts[i] == GenTriple(rand[2 * i], rand[2 * i + 1], bitsize)
  {
    seq(num, i requires 0 <= i < num => GenTriple(rand[2 * i], rand[2 * i + 1], bitsize))
  }

  /** A generated triple is valid: its c is a * b modulo 2^bitsize. */
  lemma GeneratedValid(rand: seq<u32>, num: nat, bitsize: nat, i: nat)
    requires bitsize < 32 && |rand| >= 2 * num && i < num
    ensures var t := Generated(rand, num, bitsize)[i]; t.c % Pow2(bitsize) == (t.a * t.b) % Pow2(bitsize)
  {
    var t := Generated(rand, num, bitsize)[i];
    ModIdem(t.a * t.b, Pow2(bitsize));
  }

  /** Share one triple field by field with three draws. */
  function ShareTriple(t: BeaverTriple, ra: u32, rb: u32, rc: u32, bitsize: nat): (r: (BeaverTriple, BeaverTriple))
    requires bitsize < 32
    ensures SharesOf(r.0.a, r.1.a, t.a, bitsize) && SharesOf(r.0.b, r.1.b, t.b, bitsize)
    ensures SharesOf(r.0.c, r.1.c, t.c, bitsize)
    ensures r.0.a == ra % Pow2(bitsize) && r.0.b == rb % Pow2(bitsize) && r.0.c == rc % Pow2(bitsize)
  {
    var m := Pow2(bitsize);
    var a0, b0, c0 := Mod32(ra, bitsize), Mod32(rb, bitsize), Mod32(rc, bitsize);
    var a1, b1, c1 := Mod32(t.a - a0, bitsize), Mod32(t.b - b0, bitsize), Mod32(t.c - c0, bitsize);
    ModSummand(a0, t.a - a0, m);
    ModSummand(b0, t.b - b0, m);
    ModSummand(c0, t.c - c0, m);
    (BeaverTriple(a0, b0, c0), BeaverTriple(a1, b1, c1))
  }

  /** Shares of a valid triple are triple shares. */
  lemma SharedTripleValid(t: BeaverTriple, ra: u32, rb: u32, rc: u32, bitsize: nat)
    requires bitsize < 32 && t.c % Pow2(bitsize) == (t.a * t.b) % Pow2(bitsize)
    ensures var (t0, t1) := ShareTriple(t, ra, rb, rc, bitsize); TripleShares(t0, t1, bitsize)
  {
    var m := Pow2(bitsize);
    var (t0, t1) := ShareTriple(t, ra, rb, rc, bitsize);
    MulCongruent(t0.a + t1.a, t.a, t0.b + t1.b, t.b, m);
  }

  /** ReconstLocal's `add_mod`: both fields truncated to 32 bits, added with a 32-bit wrap, masked. */
  function FieldSum(a: u64, b: u64, bitsize: nat): (r: u32)
    requires bitsize < 32
    ensures r == (a + b) % Pow2(bitsize)
  {
    var m := Pow2(bitsize);
    WrapThenMod32(a, bitsize);
    WrapThenMod32(b, bitsize);
    AddCongruent2(a % TWO32, a, b % TWO32, b, m);
    Mod32(a % TWO32 + b % TWO32, bitsize)
  }

  function ReconstTriple(t0: BeaverTriple, t1: BeaverTriple, bitsize: nat): (t: BeaverTriple)
    requires bitsize < 32
    ensures t.a == (t0.a + t1.a) % Pow2(bitsize) && t.b == (t0.b + t1.b) % Pow2(bitsize)
    ensures t.c == (t0.c + t1.c) % Pow2(bitsize)
  {
    BeaverTriple(FieldSum(t0.a, t1.a, bitsize), FieldSum(t0.b, t1.b, bitsize), FieldSum(t0.c, t1.c, bitsize))
  }

  /** Reconstructing the two shares of a triple gives the triple back, masked. */
  lemma ReconstShareTriple(t: BeaverTriple, ra: u32, rb: u32, rc: u32, bitsize: nat)
    requires bitsize < 32
    ensures var (t0, t1) := ShareTriple(t, ra, rb, rc, bitsize);
      ReconstTriple(t0, t1, bitsize) == BeaverTriple(t.a % Pow2(bitsize), t.b % Pow2(bitsize), t.c % Pow2(bitsize))
  {
  }

  /** The two parties' triple lists of Share(triples): triple i shared with draws 3i, 3i+1, 3i+2. */
  function SharedAll(ts: seq<BeaverTriple>, rand: seq<u32>, bitsize: nat): (r: (seq<BeaverTriple>, seq<BeaverTriple>))
    requires bitsize < 32 && |rand| >= 3 * |ts|
    ensures |r.0| == |ts| && |r.1| == |ts|
    ensures forall i :: 0 <= i < |ts| ==>
      (r.0[i], r.1[i]) == ShareTriple(ts[i], rand[3 * i], rand[3 * i + 1], rand[3 * i + 2], bitsize)
  {
    var sh := seq(|ts|, i requires 0 <= i < |ts| => ShareTriple(ts[i], rand[3 * i], rand[3 * i + 1], rand[3 * i + 2], bitsize));
    (seq(|ts|, i requires 0 <= i < |ts| => sh[i].0), seq(|ts|, i requires 0 <= i < |ts| => sh[i].1))
  }

  /** The dealer's output: every pair of shared generated triples is a pair of triple shares. */
  lemma DealtTriplesValid(rand: seq<u32>, num: nat, bitsize: nat)
    requires bitsize < 32 && |rand| >= 5 * num
    ensures var sh := SharedAll(Generated(rand, num, bitsize), rand[2 * num..], bitsize);
      forall i :: 0 <= i < num ==> TripleShares(sh.0[i], sh.1[i], bitsize)
  {
    var gen := Generated(rand, num, bitsize);
    var rest := rand[2 * num..];
    var sh := SharedAll(gen, rest, bitsize);
    forall i | 0 <= i < num
      ensures TripleShares(sh.0[i], sh.1[i], bitsize)
    {
      GeneratedValid(rand, num, bitsize, i);
      SharedTripleValid(gen[i], rest[3 * i], rest[3 * i + 1], rest[3 * i + 2], bitsize);
    }
  }

  /* ------------------------------------------------ vector operations */

  /** Vector Share: element i is shared with draw i. */
  method ShareVec(x: seq<u32>, rand: seq<u32>, bitsize: nat) returns (x0: seq<u32>, x1: seq<u32>)
    requires bitsize < 32 && |rand| >= |x|
    ensures |x0| == |x| && |x1| == |x|
    ensures forall i :: 0 <= i < |x| ==> (x0[i], x1[i]) == Share(x[i], rand[i], bitsize)
    ensures forall i :: 0 <= i < |x| ==> SharesOf(x0[i], x1[i], x[i], bitsize)
  {
    x0 := seq(|x|, _ => 0);
    x1 := seq(|x|, _ => 0);
    var i := 0;
    while i < |x|
      invariant 0 <= i <= |x| && |x0| == |x| && |x1| == |x|
      invariant forall j :: 0 <= j < i ==> (x0[j], x1[j]) == Share(x[j], rand[j], bitsize)
    {
      var s := Share(x[i], rand[i], bitsize);
      x0 := x0[i := s.0];
      x1 := x1[i := s.1];
      i := i + 1;
    }
  }

  /** Vector ReconstLocal; on a size mismatch of x0 and x1 it logs and leaves x unchanged. */
  method ReconstLocalVec(x0: seq<u32>, x1: seq<u32>, x: seq<u32>, bitsize: nat) returns (r: seq<u32>)
    requires bitsize < 32
    ensures |x0| != |x1| ==> r == x
    ensures |x0| == |x1| ==> |r| == |x0| && forall i :: 0 <= i < |r| ==> r[i] == ReconstLocal(x0[i], x1[i], bitsize)
  {
    if |x0| != |x1| {
      return x;
    }
    r := x;
    if |r| != |x0| {
      r := Resized(r, |x0|, 0);
    }
    var i := 0;
    while i < |r|
      invariant 0 <= i <= |r| && |r| == |x0|
      invariant forall j :: 0 <= j < i ==> r[j] == ReconstLocal(x0[j], x1[j], bitsize)
    {
      r := r[i := ReconstLocal(x0[i], x1[i], bitsize)];
      i := i + 1;
    }
  }

  /** Vector EvaluateAdd; on a size mismatch of x and y it logs and leaves z unchanged. */
  method EvaluateAddVec(x: seq<u32>, y: seq<u32>, z: seq<u32>, bitsize: nat) returns (r: seq<u32>)
    requires bitsize < 32
    ensures |x| != |y| ==> r == z
    ensures |x| == |y| ==> |r| == |x| && forall i :: 0 <= i < |r| ==> r[i] == EvaluateAdd(x[i], y[i], bitsize)
  {
    if |x| != |y| {
      return z;
    }
    r := z;
    if |r| != |x| {
      r := Resized(r, |x|, 0);
    }
    var i := 0;
    while i < |x|
      invariant 0 <= i <= |x| && |r| == |x|
      invariant forall j :: 0 <= j < i ==> r[j] == EvaluateAdd(x[j], y[j], bitsize)
    {
      r := r[i := EvaluateAdd(x[i], y[i], bitsize)];
      i := i + 1;
    }
  }

  /** Vector EvaluateSub; on a size mismatch of x and y it logs and leaves z unchanged. */
  method EvaluateSubVec(x: seq<u32>, y: seq<u32>, z: seq<u32>, bitsize: nat) returns (r: seq<u32>)
    requires bitsize < 32
    ensures |x| != |y| ==> r == z
    ensures |x| == |y| ==> |r| == |x| && forall i :: 0 <= i < |r| ==> r[i] == EvaluateSub(x[i], y[i], bitsize)
  {
    if |x| != |y| {
      return z;
    }
    r := z;
    if |r| != |x| {
      r := Resized(r, |x|, 0);
    }
    var i := 0;
    while i < |x|
      invariant 0 <= i <= |x| && |r| == |x|
      invariant forall j :: 0 <= j < i ==> r[j] == EvaluateSub(x[j], y[j], bitsize)
    {
      r := r[i := EvaluateSub(x[i], y[i], bitsize)];
      i := i + 1;
    }
  }

  /**
   * Share(triples): the count is truncated to 32 bits; triple i is shared
   * with the draws 3i, 3i+1 and 3i+2 into two fresh lists of that count.
   */
  method ShareTriples(src: BeaverTriples, rand: seq<u32>, bitsize: nat) returns (t0: BeaverTriples, t1: BeaverTriples)
    requires bitsize < 32
    requires |src.triples| >= src.numTriples % TWO32 && |rand| >= 3 * (src.numTriples % TWO32)
    ensures fresh(t0) && fresh(t1) && t0.Consistent() && t1.Consistent()
    ensures t0.numTriples == src.numTriples % TWO32 && t1.numTriples == src.numTriples % TWO32
    ensures (t0.triples, t1.triples) == SharedAll(src.triples[..src.numTriples % TWO32], rand, bitsize)
  {
    var n: u64 := src.numTriples % TWO32;
    ghost var ts := src.triples[..n];
    ghost var expected := SharedAll(ts, rand, bitsize);
    t0 := new BeaverTriples(n);
    t1 := new BeaverTriples(n);
    var i := 0;
    while i < n
      invariant 0 <= i <= n && t0.numTriples == n && t1.numTriples == n
      invariant |t0.triples| == n && |t1.triples| == n
      invariant forall j :: 0 <= j < i ==> t0.triples[j] == expected.0[j] && t1.triples[j] == expected.1[j]
    {
      var t := src.triples[i];
      assert ts[i] == t;
      var shares := ShareTriple(t, rand[3 * i], rand[3 * i + 1], rand[3 * i + 2], bitsize);
      t0.triples := t0.triples[i := shares.0];
      t1.triples := t1.triples[i := shares.1];
      i := i + 1;
    }
    assert t0.triples == expected.0 && t1.triples == expected.1;
  }

  /**
   * ReconstLocal(triples): on a count mismatch it logs and leaves `out`
   * unchanged; otherwise `out` takes the count and every triple is the
   * field-wise reconstruction of the inputs as they were on entry. `out`
   * may be `s0` or `s1`: triple i is read before it is overwritten and
   * never read again.
   */
  method ReconstTriples(s0: BeaverTriples, s1: BeaverTriples, out: BeaverTriples, bitsize: nat)
    requires bitsize < 32
    requires |s0.triples| >= s0.numTriples && |s1.triples| >= s0.numTriples && out.Consistent()
    modifies out
    ensures old(s0.numTriples) != old(s1.numTriples) ==>
      out.numTriples == old(out.numTriples) && out.triples == old(out.triples)
    ensures old(s0.numTriples) == old(s1.numTriples) ==> (out.Consistent() && out.numTriples == old(s0.numTriples) &&
      forall i :: 0 <= i < out.numTriples ==> out.triples[i] == ReconstTriple(old(s0.triples)[i], old(s1.triples)[i], bitsize))
  {
    if s0.numTriples != s1.numTriples {
      return;
    }
    if out.numTriples != s0.numTriples {
      out.triples := Resized(out.triples, s0.numTriples, NoTriple);
    }
    var a, b := s0.triples, s1.triples;
    out.numTriples := s0.numTriples;
    var i := 0;
    while i < out.numTriples
      invariant 0 <= i <= out.numTriples && out.numTriples == old(s0.numTriples) && out.Consistent()
      invariant a == old(s0.triples) && b == old(s1.triples)
      invariant forall j :: 0 <= j < i ==> out.triples[j] == ReconstTriple(a[j], b[j], bitsize)
    {
      var t := BeaverTriple(FieldSum(a[i].a, b[i].a, bitsize), FieldSum(a[i].b, b[i].b, bitsize), FieldSum(a[i].c, b[i].c, bitsize));
      out.triples := out.triples[i := t];
      i := i + 1;
    }
  }

  /**
   * GenerateBeaverTriples as written: for num > 0 it resizes the vector when
   * the count differs and fills num generated triples, but never updates
   * the count.
   */
  method GenerateBeaverTriplesAsWritten(num: u32, rand: seq<u32>, bitsize: nat, bt: BeaverTriples)
    requires bitsize < 32 && |rand| >= 2 * num && bt.Consistent()
    modifies bt
    ensures bt.numTriples == old(bt.numTriples)
    ensures num == 0 ==> bt.triples == old(bt.triples)
    ensures num > 0 ==> bt.triples == Generated(rand, num, bitsize)
  {
    if num == 0 {
      return;
    }
    if bt.numTriples != num {
      bt.triples := Resized(bt.triples, num, NoTriple);
    }
    FillGenerated(num, rand, bitsize, bt);
  }

  /**
   * GenerateBeaverTriples with the count kept: num == 0 is rejected and
   * changes nothing; otherwise the list holds exactly the num generated
   * triples, each with c = a * b modulo 2^bitsize.
   */
  method GenerateBeaverTriples(num: u32, rand: seq<u32>, bitsize: nat, bt: BeaverTriples)
    requires bitsize < 32 && |rand| >= 2 * num && bt.Consistent()
    modifies bt
    ensures bt.Consistent()
    ensures num == 0 ==> bt.numTriples == old(bt.numTriples) && bt.triples == old(bt.triples)
    ensures num > 0 ==> bt.numTriples == num && bt.triples == Generated(rand, num, bitsize)
  {
    if num == 0 {
      return;
    }
    if bt.numTriples != num {
      bt.triples := Resized(bt.triples, num, NoTriple);
    }
    bt.numTriples := num;
    FillGenerated(num, rand, bitsize, bt);
  }

  /** The generation loop: triple i from draws 2i and 2i+1. */
  method FillGenerated(num: u32, rand: seq<u32>, bitsize: nat, bt: BeaverTriples)
    requires bitsize < 32 && |rand| >= 2 * num && |bt.triples| == num
    modifies bt
    ensures bt.numTriples == old(bt.numTriples) && bt.triples == Generated(rand, num, bitsize)
  {
    ghost var expected := Generated(rand, num, bitsize);
    var i := 0;
    while i < num
      invariant 0 <= i <= num && |bt.triples| == num && bt.numTriples == old(bt.numTriples)
      invariant forall j :: 0 <= j < i ==> bt.triples[j] == expected[j]
    {
      var a := Mod32(rand[2 * i], bitsize);
      var b := Mod32(rand[2 * i + 1], bitsize);
      var c := Mod32(a as int * b, bitsize);
      bt.triples := bt.triples[i := BeaverTriple(a, b, c)];
      i := i + 1;
    }
    assert bt.triples == expected;
  }

  /**
   * The stale count, on a misuse of the interface: generating two triples
   * into an empty list leaves the count at 0, so Serialize writes the count
   * 0 and a reader gets no triple. The library's own OfflineSetUp always
   * passes a list already sized for the requested count, so the defect is
   * latent there.
   */
  method StaleCountWitness(rand: seq<u32>) returns (count: u64, stored: nat, readBack: nat)
    requires |rand| >= 4
    ensures count == 0 && stored == 2 && readBack == 0
  {
    var bt := new BeaverTriples(0);
    GenerateBeaverTriplesAsWritten(2, rand, 16, bt);
    count, stored := bt.numTriples, |bt.triples|;
    var buffer := bt.Serialize([]);
    assert buffer == Encoded(0, bt.triples) + [];
    DecodedEncoded(0, bt.triples, []);
    readBack := |Decoded(buffer).value.1|;
  }

  /** The count the corrected generator keeps survives a round trip through the byte format. */
  lemma GeneratedRoundTrip(rand: seq<u32>, num: u32, bitsize: nat, rest: seq<byte>)
    requires bitsize < 32 && |rand| >= 2 * num
    ensures Decoded(Encoded(num, Generated(rand, num, bitsize)) + rest) == Success((num as u64, Generated(rand, num, bitsize)))
  {
    RoundTrip(Generated(rand, num, bitsize), rest);
  }

  /* ------------------------------------------------ the sharing object */

  class AdditiveSharing2P {
    const bitsize: nat
    var numTriples: u64
    var triples: seq<BeaverTriple>
    var tripleIndex: u32

    /** The loaded triples agree with their count. */
    ghost predicate Valid()
      reads this
    {
      |triples| == numTriples
    }

    /** No triples, index 0; the PRNG seed is drawn from the system source and is not modelled. */
    constructor(bitsize: nat)
      ensures this.bitsize == bitsize && numTriples == 0 && triples == [] && tripleIndex == 0 && Valid()
    {
      this.bitsize := bitsize;
      numTriples := 0;
      triples := [];
      tripleIndex := 0;
    }

    /**
     * OfflineSetUp: generate num triples into a list of count num, share
     * them, and serialize each party's list; the two buffers stand for the
     * two files. Draws 0..2num-1 generate, the next 3num share.
     */
    method OfflineSetUp(num: u32, rand: seq<u32>) returns (buffer0: seq<byte>, buffer1: seq<byte>)
      requires bitsize < 32 && |rand| >= 5 * num
      ensures var sh := SharedAll(Generated(rand, num, bitsize), rand[2 * num..], bitsize);
        buffer0 == Encoded(num, sh.0) && buffer1 == Encoded(num, sh.1)
    {
      var bt := new BeaverTriples(num);
      GenerateBeaverTriples(num, rand, bitsize, bt);
      assert bt.triples == Generated(rand, num, bitsize) by {
        if num == 0 {
          assert bt.triples == [];
        }
      }
      assert bt.numTriples % TWO32 == num;
      assert bt.triples[..num] == bt.triples;
      var t0, t1 := ShareTriples(bt, rand[2 * num..], bitsize);
      buffer0 := t0.Serialize([]);
      buffer1 := t1.Serialize([]);
    }

    /**
     * LoadTriplesShareFromFile with the file's bytes: the triples are
     * deserialized into a new list that replaces the loaded one; when
     * Deserialize throws, nothing is replaced. The index is not reset.
     */
    method LoadTriples(buffer: seq<byte>) returns (err: Option<TripleError>)
      requires |buffer| >= 8
      modifies this
      ensures tripleIndex == old(tripleIndex)
      ensures err.Some? <==> Decoded(buffer).Failure?
      ensures err.Some? ==> numTriples == old(numTriples) && triples == old(triples)
      ensures err.None? ==> Valid() && Decoded(buffer) == Success((numTriples, triples))
    {
      var bt := new BeaverTriples(0);
      err := bt.Deserialize(buffer);
      if err.Some? {
        return;
      }
      numTriples, triples := bt.numTriples, bt.triples;
    }

    /** GetRemainingTripleCount: the 64-bit difference truncated to 32 bits. */
    function RemainingTripleCount(): (r: u32)
      reads this
      ensures r == (numTriples - tripleIndex) % TWO32
      ensures tripleIndex <= numTriples < TWO32 ==> r == numTriples - tripleIndex
    {
      Pow2Constants();
      WrapThenMod(numTriples - tripleIndex, 32);
      ((numTriples - tripleIndex) % TWO64) % TWO32
    }

    /**
     * Scalar EvaluateMult at `party`. With no triple left it logs and returns,
     * leaving z as it was (`zIn`). Otherwise it takes the next triple,
     * advances the 32-bit index, sends its masked differences and combines
     * them with the peer's (`peer`) into d and e.
     */
    method EvaluateMult(party: nat, x: u32, y: u32, peer: (u32, u32), zIn: u32) returns (z: u32, sent: Option<(u32, u32)>)
      requires Valid() && bitsize < 32
      modifies this
      ensures Valid() && numTriples == old(numTriples) && triples == old(triples)
      ensures old(tripleIndex) >= numTriples ==> z == zIn && sent == None && tripleIndex == old(tripleIndex)
      ensures old(tripleIndex) < numTriples ==>
        var t := triples[old(tripleIndex)];
        var own := Masked(x, y, t, bitsize);
        tripleIndex == (old(tripleIndex) + 1) % TWO32 && sent == Some(own) &&
        z == ProductShare(party, ReconstLocal(own.0, peer.0, bitsize), ReconstLocal(own.1, peer.1, bitsize), t, bitsize)
      ensures old(tripleIndex) < numTriples < TWO32 ==> RemainingTripleCount() == old(RemainingTripleCount()) - 1
    {
      if tripleIndex as u64 >= numTriples {
        return zIn, None;
      }
      var t := triples[tripleIndex];
      ghost var remaining := RemainingTripleCount();
      tripleIndex := (tripleIndex + 1) % TWO32;
      if numTriples < TWO32 {
        assert tripleIndex == old(tripleIndex) + 1 && remaining == numTriples - old(tripleIndex);
      }
      var own := Masked(x, y, t, bitsize);
      z := PartyProduct(party, own, peer, t, bitsize);
      sent := Some(own);
    }

    /**
     * The two-element EvaluateMult: it needs two triples, returning early
     * (z left as `zIn`) when `triple_index_ + 1`, a 32-bit sum, reaches the
     * count; otherwise it uses triples index and index + 1 and advances the
     * index by 2. The guard only tests the second index, so the first read
     * must be in range.
     */
    method EvaluateMultPair(party: nat, x: (u32, u32), y: (u32, u32), peer: ((u32, u32), (u32, u32)), zIn: (u32, u32))
      returns (z: (u32, u32), sent: Option<((u32, u32), (u32, u32))>)
      requires Valid() && bitsize < 32
      requires (tripleIndex + 1) % TWO32 < numTriples ==> tripleIndex < numTriples
      modifies this
      ensures Valid() && numTriples == old(numTriples) && triples == old(triples)
      ensures (old(tripleIndex) + 1) % TWO32 >= numTriples ==> z == zIn && sent == None && tripleIndex == old(tripleIndex)
      ensures (old(tripleIndex) + 1) % TWO32 < numTriples ==>
        var t0, t1 := triples[old(tripleIndex)], triples[(old(tripleIndex) + 1) % TWO32];
        var own0, own1 := Masked(x.0, y.0, t0, bitsize), Masked(x.1, y.1, t1, bitsize);
        tripleIndex == (old(tripleIndex) + 2) % TWO32 && sent == Some((own0, own1)) &&
        z.0 == ProductShare(party, ReconstLocal(own0.0, peer.0.0, bitsize), ReconstLocal(own0.1, peer.0.1, bitsize), t0, bitsize) &&
        z.1 == ProductShare(party, ReconstLocal(own1.0, peer.1.0, bitsize), ReconstLocal(own1.1, peer.1.1, bitsize), t1, bitsize)
    {
      if ((tripleIndex + 1) % TWO32) as u64 >= numTriples {
        return zIn, None;
      }
      var t0 := triples[tripleIndex];
      var t1 := triples[(tripleIndex + 1) % TWO32];
      tripleIndex := (tripleIndex + 2) % TWO32;
      var own0, own1 := Masked(x.0, y.0, t0, bitsize), Masked(x.1, y.1, t1, bitsize);
      var d0, e0, d1, e1;
      if party == 0 {
        d0, e0 := ReconstLocal(own0.0, peer.0.0, bitsize), ReconstLocal(own0.1, peer.0.1, bitsize);
        d1, e1 := ReconstLocal(own1.0, peer.1.0, bitsize), ReconstLocal(own1.1, peer.1.1, bitsize);
      } else {
        d0, e0 := ReconstLocal(peer.0.0, own0.0, bitsize), ReconstLocal(peer.0.1, own0.1, bitsize);
        d1, e1 := ReconstLocal(peer.1.0, own1.0, bitsize), ReconstLocal(peer.1.1, own1.1, bitsize);
      }
      z := (ProductShare(party, d0, e0, t0, bitsize), ProductShare(party, d1, e1, t1, bitsize));
      sent := Some((own0, own1));
    }

    /**
     * EvaluateSelect: y - x, then EvaluateMult by c, then x plus the product.
     * With no triple left the product is the uninitialised local (`uninit`).
     */
    method EvaluateSelect(party: nat, x: u32, y: u32, c: u32, peer: (u32, u32), uninit: u32)
      returns (z: u32, sent: Option<(u32, u32)>)
      requires Valid() && bitsize < 32
      modifies this
      ensures Valid() && numTriples == old(numTriples) && triples == old(triples)
      ensures old(tripleIndex) >= numTriples ==>
        z == EvaluateAdd(x, uninit, bitsize) && sent == None && tripleIndex == old(tripleIndex)
      ensures old(tripleIndex) < numTriples ==>
        var t := triples[old(tripleIndex)];
        var own := Masked(c, EvaluateSub(y, x, bitsize), t, bitsize);
        tripleIndex == (old(tripleIndex) + 1) % TWO32 && sent == Some(own) &&
        z == EvaluateAdd(x, ProductShare(party, ReconstLocal(own.0, peer.0, bitsize),
                                         ReconstLocal(own.1, peer.1, bitsize), t, bitsize), bitsize)
    {
      var ySubX := EvaluateSub(y, x, bitsize);
      var cMul;
      cMul, sent := EvaluateMult(party, c, ySubX, peer, uninit);
      z := EvaluateAdd(x, cMul, bitsize);
    }
  }

  /**
   * Selection is correct: when both parties run EvaluateSelect with shares of
   * x, y and a bit c and shares of a valid triple, and each receives the
   * other's masked differences, their outputs are shares of y if c is 1 and
   * of x if c is 0.
   */
  lemma SelectCorrect(x0: u32, x1: u32, y0: u32, y1: u32, c0: u32, c1: u32, t0: BeaverTriple, t1: BeaverTriple,
                      x: int, y: int, c: int, bitsize: nat)
    requires bitsize < 32 && (c == 0 || c == 1)
    requires SharesOf(x0, x1, x, bitsize) && SharesOf(y0, y1, y, bitsize) && SharesOf(c0, c1, c, bitsize)
    requires TripleShares(t0, t1, bitsize)
    ensures var (s0, s1) := (EvaluateSub(y0, x0, bitsize), EvaluateSub(y1, x1, bitsize));
      var (m0, m1) := (Masked(c0, s0, t0, bitsize), Masked(c1, s1, t1, bitsize));
      var d, e := ReconstLocal(m0.0, m1.0, bitsize), ReconstLocal(m0.1, m1.1, bitsize);
      SharesOf(EvaluateAdd(x0, ProductShare(0, d, e, t0, bitsize), bitsize),
               EvaluateAdd(x1, ProductShare(1, d, e, t1, bitsize), bitsize),
               if c == 1 then y else x, bitsize)
  {
    var m := Pow2(bitsize);
    var s0, s1 := EvaluateSub(y0, x0, bitsize), EvaluateSub(y1, x1, bitsize);
    SubShares(y0, y1, x0, x1, y, x, bitsize);
    BeaverCorrect(c0, c1, s0, s1, t0, t1, c, y - x, bitsize);
    var m0, m1 := Masked(c0, s0, t0, bitsize), Masked(c1, s1, t1, bitsize);
    var d, e := ReconstLocal(m0.0, m1.0, bitsize), ReconstLocal(m0.1, m1.1, bitsize);
    var p0, p1 := ProductShare(0, d, e, t0, bitsize), ProductShare(1, d, e, t1, bitsize);
    AddShares(x0, x1, p0, p1, x, c * (y - x), bitsize);
    SelectIdentity(x, y, c, m);
  }
}
