/**
 * Three-party replicated additive sharing over Z_{2^bitsize}.
 *
 * A value x is split into x0 + x1 + x2 = x (mod 2^bitsize); party p holds
 * the pair (x_p, x_{p-1}), so each share is held by two parties. Addition
 * and subtraction are local; a product needs one local term per party, a
 * zero-sharing drawn from two PRF streams shared with the neighbours, and one
 * message to the next party. Network messages are explicit inputs here.
 */
module Additive3P {
  import opened Bits
  import opened Bytes
  import opened RepShare
  import opened Prf
  import opened Wrappers

  /** RepShare64: party p's pair (x_p, x_{p-1}). */
  type Share = RepShare<u64>

  /** `all` is a replicated sharing of x: the three first shares add up to x modulo 2^bitsize. */
  predicate SharesOf(all: seq<Share>, x: int, bitsize: nat) {
    Replicated(all) && (all[0].s0 + all[1].s0 + all[2].s0) % Pow2(bitsize) == x % Pow2(bitsize)
  }

  /* ------------------------------------------------ sharing and opening */

  /** ShareLocal from the two random draws: x0, x1 random, x2 = x - x0 - x1. */
  function ShareLocal(x: u64, rand0: u64, rand1: u64, bitsize: nat): (all: seq<Share>)
    requires bitsize < 64
    ensures SharesOf(all, x, bitsize)
    ensures forall p :: 0 <= p < 3 ==> all[p].s0 < Pow2(bitsize) && all[p].s1 < Pow2(bitsize)
  {
    var x0 := Mod2N(rand0, bitsize);
    var x1 := Mod2N(rand1, bitsize);
    var x2 := Mod2N(x - x0 - x1, bitsize);
    ModSummand(x0 + x1, x - x0 - x1, Pow2(bitsize));
    [RepShare(x0, x2), RepShare(x1, x0), RepShare(x2, x1)]
  }

  /** Open at one party: its two shares plus the first share received from the next party. */
  function Open(xSh: Share, xNext: u64, bitsize: nat): (r: u64)
    requires bitsize < 64
    ensures r < Pow2(bitsize)
  {
    Mod2N(xSh.s0 + xSh.s1 + xNext, bitsize)
  }

  /** Every party opens x: its pair and the next party's first share are the three shares. */
  lemma OpenReconstructs(all: seq<Share>, x: int, bitsize: nat, p: nat)
    requires bitsize < 64 && SharesOf(all, x, bitsize) && p < 3
    ensures Open(all[p], all[(p + 1) % 3].s0, bitsize) == x % Pow2(bitsize)
  {
    var sum := all[0].s0 + all[1].s0 + all[2].s0;
    assert all[p].s0 + all[p].s1 + all[(p + 1) % 3].s0 == sum;
  }

  /* ------------------------------------------------ local operations */

  function EvaluateAdd(x: Share, y: Share, bitsize: nat): (z: Share)
    requires bitsize < 64
    ensures z.s0 == (x.s0 + y.s0) % Pow2(bitsize) && z.s1 == (x.s1 + y.s1) % Pow2(bitsize)
  {
    RepShare(Mod2N(x.s0 + y.s0, bitsize), Mod2N(x.s1 + y.s1, bitsize))
  }

  function EvaluateSub(x: Share, y: Share, bitsize: nat): (z: Share)
    requires bitsize < 64
    ensures z.s0 == (x.s0 - y.s0) % Pow2(bitsize) && z.s1 == (x.s1 - y.s1) % Pow2(bitsize)
  {
    RepShare(Mod2N(x.s0 - y.s0, bitsize), Mod2N(x.s1 - y.s1, bitsize))
  }

  /** All three parties applying EvaluateAdd. */
  function AddAll(xs: seq<Share>, ys: seq<Share>, bitsize: nat): (zs: seq<Share>)
    requires bitsize < 64 && |xs| == 3 && |ys| == 3
    ensures |zs| == 3
  {
    [EvaluateAdd(xs[0], ys[0], bitsize), EvaluateAdd(xs[1], ys[1], bitsize), EvaluateAdd(xs[2], ys[2], bitsize)]
  }

  function SubAll(xs: seq<Share>, ys: seq<Share>, bitsize: nat): (zs: seq<Share>)
    requires bitsize < 64 && |xs| == 3 && |ys| == 3
    ensures |zs| == 3
  {
    [EvaluateSub(xs[0], ys[0], bitsize), EvaluateSub(xs[1], ys[1], bitsize), EvaluateSub(xs[2], ys[2], bitsize)]
  }

  /** Local addition of sharings of x and y is a sharing of x + y. */
  lemma AddShares(xs: seq<Share>, ys: seq<Share>, x: int, y: int, bitsize: nat)
    requires bitsize < 64 && SharesOf(xs, x, bitsize) && SharesOf(ys, y, bitsize)
    ensures SharesOf(AddAll(xs, ys, bitsize), x + y, bitsize)
  {
    var m := Pow2(bitsize);
    var a: int, b: int, c: int := xs[0].s0, xs[1].s0, xs[2].s0;
    var d: int, e: int, f: int := ys[0].s0, ys[1].s0, ys[2].s0;
    Sum3Mod(a + d, b + e, c + f, m);
    assert (a + d) + (b + e) + (c + f) == (a + b + c) + (d + e + f);
    AddCongruent2(a + b + c, x, d + e + f, y, m);
  }

  /** Local subtraction of sharings of x and y is a sharing of x - y. */
  lemma SubShares(xs: seq<Share>, ys: seq<Share>, x: int, y: int, bitsize: nat)
    requires bitsize < 64 && SharesOf(xs, x, bitsize) && SharesOf(ys, y, bitsize)
    ensures SharesOf(SubAll(xs, ys, bitsize), x - y, bitsize)
  {
    var m := Pow2(bitsize);
    var a: int, b: int, c: int := xs[0].s0, xs[1].s0, xs[2].s0;
    var d: int, e: int, f: int := ys[0].s0, ys[1].s0, ys[2].s0;
    Sum3Mod(a - d, b - e, c - f, m);
    assert (a - d) + (b - e) + (c - f) == (a + b + c) - (d + e + f);
    SubCongruent2(a + b + c, x, d + e + f, y, m);
  }

  /* ------------------------------------------------ multiplication */

  /** Party p's term of the (3,3)-sharing of x*y: x_p y_p + x_{p-1} y_p + x_p y_{p-1}. */
  function LocalMult(x: Share, y: Share, bitsize: nat): (t: u64)
    requires bitsize < 64
    ensures t == (x.s0 * y.s0 + x.s1 * y.s0 + x.s0 * y.s1) % Pow2(bitsize)
  {
    Mod2N(x.s0 * y.s0 + x.s1 * y.s0 + x.s0 * y.s1, bitsize)
  }

  /** The nine cross products of a replicated sharing, grouped by party. */
  lemma CrossTerms(a: int, b: int, c: int, d: int, e: int, f: int)
    ensures (a * d + c * d + a * f) + (b * e + a * e + b * d) + (c * f + b * f + c * e)
            == (a + b + c) * (d + e + f)
  {
  }

  /** The three reduced local terms add up to x*y modulo m. */
  lemma CrossTermsMod(a: int, b: int, c: int, d: int, e: int, f: int, x: int, y: int, m: nat)
    requires m > 0 && (a + b + c) % m == x % m && (d + e + f) % m == y % m
    ensures ((a * d + c * d + a * f) % m + (b * e + a * e + b * d) % m + (c * f + b * f + c * e) % m) % m
            == (x * y) % m
  {
    Sum3Mod(a * d + c * d + a * f, b * e + a * e + b * d, c * f + b * f + c * e, m);
    CrossTerms(a, b, c, d, e, f);
    MulCongruent(a + b + c, x, d + e + f, y, m);
  }

  /** The three local terms add up to x*y. */
  lemma MultTerms(xs: seq<Share>, ys: seq<Share>, x: int, y: int, bitsize: nat)
    requires bitsize < 64 && SharesOf(xs, x, bitsize) && SharesOf(ys, y, bitsize)
    ensures (LocalMult(xs[0], ys[0], bitsize) + LocalMult(xs[1], ys[1], bitsize)
             + LocalMult(xs[2], ys[2], bitsize)) % Pow2(bitsize) == (x * y) % Pow2(bitsize)
  {
    var m := Pow2(bitsize);
    var a: int, b: int, c: int := xs[0].s0, xs[1].s0, xs[2].s0;
    var d: int, e: int, f: int := ys[0].s0, ys[1].s0, ys[2].s0;
    assert LocalMult(xs[0], ys[0], bitsize) == (a * d + c * d + a * f) % m;
    assert LocalMult(xs[1], ys[1], bitsize) == (b * e + a * e + b * d) % m;
    assert LocalMult(xs[2], ys[2], bitsize) == (c * f + b * f + c * e) % m;
    CrossTermsMod(a, b, c, d, e, f, x, y, m);
  }

  /**
   * Party p's pair from Rand when the three PRF streams produce G[0], G[1], G[2]
   * at the same position: its first stream is keyed with party p-1's key, its
   * second with its own.
   */
  function RandPair(g: seq<u64>, p: nat): (r: Share)
    requires |g| == 3 && p < 3
    ensures r.s0 == g[(p + 2) % 3] && r.s1 == g[p]
  {
    RepShare(g[(p + 2) % 3], g[p])
  }

  /** EvaluateMult at one party: its re-randomised term, and the term received from the previous party. */
  function MultShare(x: Share, y: Share, r: Share, fromPrev: u64, bitsize: nat): (z: Share)
    requires bitsize < 64
    ensures z.s1 == fromPrev
  {
    RepShare(Mod2N(LocalMult(x, y, bitsize) + r.s0 - r.s1, bitsize), fromPrev)
  }

  /** All three parties multiplying, each receiving the previous party's first share. */
  function MultAll(xs: seq<Share>, ys: seq<Share>, g: seq<u64>, bitsize: nat): (zs: seq<Share>)
    requires bitsize < 64 && |xs| == 3 && |ys| == 3 && |g| == 3
    ensures Replicated(zs)
  {
    var z0 := MultShare(xs[0], ys[0], RandPair(g, 0), 0, bitsize).s0;
    var z1 := MultShare(xs[1], ys[1], RandPair(g, 1), 0, bitsize).s0;
    var z2 := MultShare(xs[2], ys[2], RandPair(g, 2), 0, bitsize).s0;
    [MultShare(xs[0], ys[0], RandPair(g, 0), z2, bitsize),
     MultShare(xs[1], ys[1], RandPair(g, 1), z0, bitsize),
     MultShare(xs[2], ys[2], RandPair(g, 2), z1, bitsize)]
  }

  /** Adding the zero-sharing g[p-1] - g[p] at every party leaves the sum unchanged. */
  lemma Telescope(u0: int, u1: int, u2: int, t0: int, t1: int, t2: int, g0: int, g1: int, g2: int, m: nat)
    requires m > 0 && u0 == t0 + g2 - g0 && u1 == t1 + g0 - g1 && u2 == t2 + g1 - g2
    ensures (u0 % m + u1 % m + u2 % m) % m == (t0 + t1 + t2) % m
  {
    Sum3Mod(u0, u1, u2, m);
  }

  /** The zero-sharing telescopes, so the three multiplied shares are a sharing of x*y. */
  lemma MultShares(xs: seq<Share>, ys: seq<Share>, g: seq<u64>, x: int, y: int, bitsize: nat)
    requires bitsize < 64 && |g| == 3 && SharesOf(xs, x, bitsize) && SharesOf(ys, y, bitsize)
    ensures SharesOf(MultAll(xs, ys, g, bitsize), x * y, bitsize)
  {
    var t0, t1, t2 := LocalMult(xs[0], ys[0], bitsize), LocalMult(xs[1], ys[1], bitsize), LocalMult(xs[2], ys[2], bitsize);
    var g0: int, g1: int, g2: int := g[0], g[1], g[2];
    Telescope(t0 + g2 - g0, t1 + g0 - g1, t2 + g1 - g2, t0, t1, t2, g0, g1, g2, Pow2(bitsize));
    MultTerms(xs, ys, x, y, bitsize);
  }

  /** EvaluateSelect for all three parties: x + c * (y - x). */
  function SelectAll(xs: seq<Share>, ys: seq<Share>, cs: seq<Share>, g: seq<u64>, bitsize: nat): (zs: seq<Share>)
    requires bitsize < 64 && |xs| == 3 && |ys| == 3 && |cs| == 3 && |g| == 3
    ensures |zs| == 3
  {
    AddAll(xs, MultAll(cs, SubAll(ys, xs, bitsize), g, bitsize), bitsize)
  }

  /** Select yields a sharing of x + c*(y - x). */
  lemma SelectShares(xs: seq<Share>, ys: seq<Share>, cs: seq<Share>, g: seq<u64>, x: int, y: int, c: int, bitsize: nat)
    requires bitsize < 64 && |g| == 3
    requires SharesOf(xs, x, bitsize) && SharesOf(ys, y, bitsize) && SharesOf(cs, c, bitsize)
    ensures SharesOf(SelectAll(xs, ys, cs, g, bitsize), x + c * (y - x), bitsize)
  {
    var d := SubAll(ys, xs, bitsize);
    var cd := MultAll(cs, d, g, bitsize);
    assert SharesOf(d, y - x, bitsize) by { SubShares(ys, xs, y, x, bitsize); }
    assert SharesOf(cd, c * (y - x), bitsize) by { MultShares(cs, d, g, c, y - x, bitsize); }
    AddShares(xs, cd, x, c * (y - x), bitsize);
  }

  /** With a shared selector bit, Select yields x when the bit is 0 and y when it is 1. */
  lemma SelectPicks(xs: seq<Share>, ys: seq<Share>, cs: seq<Share>, g: seq<u64>, x: int, y: int, c: bool, bitsize: nat)
    requires bitsize < 64 && |g| == 3
    requires SharesOf(xs, x, bitsize) && SharesOf(ys, y, bitsize) && SharesOf(cs, if c then 1 else 0, bitsize)
    ensures SharesOf(SelectAll(xs, ys, cs, g, bitsize), if c then y else x, bitsize)
  {
    var ci := if c then 1 else 0;
    SelectShares(xs, ys, cs, g, x, y, ci, bitsize);
    assert x + ci * (y - x) == if c then y else x;
  }

  /* ------------------------------------------------ the PRF buffer */

  /** The next eight bytes would run past the end of the buffer. */
  predicate NeedsRefill(st: PrfState) {
    st.prfIdx + 8 > 16 * |st.buff0|
  }

  /** Rand: refill if needed, read a word from each buffer at the offset, advance by eight bytes. */
  function RandStep(st: PrfState, bitsize: nat): (r: (Share, PrfState))
    requires Ready(st) && bitsize < 64
    ensures Ready(r.1)
    ensures r.1.prfIdx == (if NeedsRefill(st) then 0 else st.prfIdx) + 8
    ensures !NeedsRefill(st) ==> r.1 == st.(prfIdx := st.prfIdx + 8)
    ensures NeedsRefill(st) ==> r.1 == Refilled(st).(prfIdx := 8)
    ensures r.0.s0 < Pow2(bitsize) && r.0.s1 < Pow2(bitsize)
  {
    var s := if NeedsRefill(st) then Refilled(st) else st;
    (RepShare(Mod2N(Word64(s.buff0, s.prfIdx), bitsize), Mod2N(Word64(s.buff1, s.prfIdx), bitsize)),
     s.(prfIdx := s.prfIdx + 8))
  }

  /** ReplicatedSharing3P: the share bitsize and the party's PRF state. */
  class ReplicatedSharing3P {
    const bitsize: nat
    var prf0: nat -> Block
    var prf1: nat -> Block
    var prfBuff0: seq<Block>
    var prfBuff1: seq<Block>
    var prfIdx: nat
    var prfBuffIdx: nat

    function View(): PrfState
      reads this
    {
      PrfState(prf0, prf1, prfBuff0, prfBuff1, prfIdx, prfBuffIdx)
    }

    /** A 64-bit mask `(1 << bitsize) - 1` needs bitsize < 64. */
    constructor(bitsize: nat)
      requires bitsize < 64
      ensures this.bitsize == bitsize && prfBuff0 == [] && prfBuff1 == []
    {
      this.bitsize := bitsize;
      prf0 := _ => ZeroBlock;
      prf1 := _ => ZeroBlock;
      prfBuff0 := [];
      prfBuff1 := [];
      prfIdx := 0;
      prfBuffIdx := 0;
    }

    /** RandOnline with the two keyed streams: fresh buffers of `bufferSize` blocks, filled from counter 0. */
    method RandOnline(streamPrev: nat -> Block, streamNext: nat -> Block, bufferSize: nat)
      modifies this
      ensures View() == Refilled(PrfState(streamPrev, streamNext, seq(bufferSize, _ => ZeroBlock),
                                          seq(bufferSize, _ => ZeroBlock), 0, 0))
      ensures bufferSize > 0 ==> Ready(View())
    {
      prfBuffIdx := 0;
      prfBuff0 := seq(bufferSize, _ => ZeroBlock);
      prfBuff1 := seq(bufferSize, _ => ZeroBlock);
      prf0 := streamPrev;
      prf1 := streamNext;
      RefillBuffer();
    }

    method RefillBuffer()
      modifies this
      ensures View() == Refilled(old(View()))
    {
      var stream0, stream1, start := prf0, prf1, prfBuffIdx;
      prfBuff0 := seq(|prfBuff0|, j requires 0 <= j => stream0(start + j));
      prfBuff1 := seq(|prfBuff1|, j requires 0 <= j => stream1(start + j));
      prfBuffIdx := prfBuffIdx + |prfBuff0|;
      prfIdx := 0;
    }

    method Rand() returns (x: Share)
      requires Ready(View()) && bitsize < 64
      modifies this
      ensures (x, View()) == RandStep(old(View()), bitsize)
      ensures Ready(View())
    {
      if prfIdx + 8 > |prfBuff0| * 16 {
        RefillBuffer();
      }
      x := RepShare(Mod2N(Word64(prfBuff0, prfIdx), bitsize), Mod2N(Word64(prfBuff1, prfIdx), bitsize));
      prfIdx := prfIdx + 8;
    }

    /** EvaluateMult at this party; `fromPrev` is the first share the previous party sends. */
    method EvaluateMult(x: Share, y: Share, fromPrev: u64) returns (z: Share)
      requires Ready(View()) && bitsize < 64
      modifies this
      ensures Ready(View()) && View() == RandStep(old(View()), bitsize).1
      ensures z == MultShare(x, y, RandStep(old(View()), bitsize).0, fromPrev, bitsize)
    {
      var t := LocalMult(x, y, bitsize);
      var r := Rand();
      z := RepShare(Mod2N(t + r.s0 - r.s1, bitsize), fromPrev);
    }

    /** EvaluateSelect at this party: Sub, then EvaluateMult, then Add. */
    method EvaluateSelect(x: Share, y: Share, c: Share, fromPrev: u64) returns (z: Share)
      requires Ready(View()) && bitsize < 64
      modifies this
      ensures Ready(View()) && View() == RandStep(old(View()), bitsize).1
      ensures z == EvaluateAdd(x, MultShare(c, EvaluateSub(y, x, bitsize), RandStep(old(View()), bitsize).0,
                                            fromPrev, bitsize), bitsize)
    {
      var ySubX := EvaluateSub(y, x, bitsize);
      var cMul := EvaluateMult(c, ySubX, fromPrev);
      z := EvaluateAdd(x, cMul, bitsize);
    }

    /** Vector EvaluateAdd; on a size mismatch of x and y it logs and leaves z unchanged. */
    method EvaluateAddVec(xv: RepShareVec<u64>, yv: RepShareVec<u64>, zv: RepShareVec<u64>)
      requires xv.Valid() && yv.Valid() && zv.Valid() && bitsize < 64
      modifies zv
      ensures old(xv.numShares) != old(yv.numShares) ==> unchanged(zv)
      ensures old(xv.numShares) == old(yv.numShares) ==>
                zv.Valid() && zv.numShares == old(xv.numShares)
                && forall i :: 0 <= i < zv.numShares ==>
                     RepShare(zv.data0[i], zv.data1[i])
                     == EvaluateAdd(RepShare(old(xv.data0[i]), old(xv.data1[i])),
                                    RepShare(old(yv.data0[i]), old(yv.data1[i])), bitsize)
    {
      if xv.numShares != yv.numShares {
        return;
      }
      var n := xv.numShares;
      var z0, z1 := Resized(zv.data0, n, 0), Resized(zv.data1, n, 0);
      var i := 0;
      while i < n
        invariant i <= n && |z0| == n && |z1| == n
        invariant forall j :: 0 <= j < i ==>
                    RepShare(z0[j], z1[j])
                    == EvaluateAdd(RepShare(xv.data0[j], xv.data1[j]), RepShare(yv.data0[j], yv.data1[j]), bitsize)
      {
        var v0 := xv.data0[i] as int + yv.data0[i];
        z0 := z0[i := Mod2N(v0, bitsize)];
        var v1 := xv.data1[i] as int + yv.data1[i];
        z1 := z1[i := Mod2N(v1, bitsize)];
        i := i + 1;
      }
      zv.numShares, zv.data0, zv.data1 := n, z0, z1;
    }

    /** Vector EvaluateSub; on a size mismatch of x and y it logs and leaves z unchanged. */
    method EvaluateSubVec(xv: RepShareVec<u64>, yv: RepShareVec<u64>, zv: RepShareVec<u64>)
      requires xv.Valid() && yv.Valid() && zv.Valid() && bitsize < 64
      modifies zv
      ensures old(xv.numShares) != old(yv.numShares) ==> unchanged(zv)
      ensures old(xv.numShares) == old(yv.numShares) ==>
                zv.Valid() && zv.numShares == old(xv.numShares)
                && forall i :: 0 <= i < zv.numShares ==>
                     RepShare(zv.data0[i], zv.data1[i])
                     == EvaluateSub(RepShare(old(xv.data0[i]), old(xv.data1[i])),
                                    RepShare(old(yv.data0[i]), old(yv.data1[i])), bitsize)
    {
      if xv.numShares != yv.numShares {
        return;
      }
      var n := xv.numShares;
      var z0, z1 := Resized(zv.data0, n, 0), Resized(zv.data1, n, 0);
      var i := 0;
      while i < n
        invariant i <= n && |z0| == n && |z1| == n
        invariant forall j :: 0 <= j < i ==>
                    RepShare(z0[j], z1[j])
                    == EvaluateSub(RepShare(xv.data0[j], xv.data1[j]), RepShare(yv.data0[j], yv.data1[j]), bitsize)
      {
        var v0 := xv.data0[i] as int - yv.data0[i];
        z0 := z0[i := Mod2N(v0, bitsize)];
        var v1 := xv.data1[i] as int - yv.data1[i];
        z1 := z1[i := Mod2N(v1, bitsize)];
        i := i + 1;
      }
      zv.numShares, zv.data0, zv.data1 := n, z0, z1;
    }
  }

  /**
   * The sharing loop of the vector and matrix ShareLocal: element i is shared
   * with the i-th pair of random draws.
   */
  method ShareFlat(xs: seq<u64>, n: nat, rand0: seq<u64>, rand1: seq<u64>, bitsize: nat)
    returns (p0s0: seq<u64>, p0s1: seq<u64>, p1s0: seq<u64>, p1s1: seq<u64>, p2s0: seq<u64>, p2s1: seq<u64>)
    requires bitsize < 64 && n <= |xs| && n <= |rand0| && n <= |rand1|
    ensures |p0s0| == |p0s1| == |p1s0| == |p1s1| == |p2s0| == |p2s1| == n
    ensures p0s1 == p2s0 && p1s1 == p0s0 && p2s1 == p1s0
    ensures forall i :: 0 <= i < n ==>
              [RepShare(p0s0[i], p0s1[i]), RepShare(p1s0[i], p1s1[i]), RepShare(p2s0[i], p2s1[i])]
              == ShareLocal(xs[i], rand0[i], rand1[i], bitsize)
  {
    p0s0, p0s1, p1s0, p1s1, p2s0, p2s1 := [], [], [], [], [], [];
    var i := 0;
    while i < n
      invariant i <= n
      invariant |p0s0| == |p0s1| == |p1s0| == |p1s1| == |p2s0| == |p2s1| == i
      invariant p0s1 == p2s0 && p1s1 == p0s0 && p2s1 == p1s0
      invariant forall j :: 0 <= j < i ==>
                  [RepShare(p0s0[j], p0s1[j]), RepShare(p1s0[j], p1s1[j]), RepShare(p2s0[j], p2s1[j])]
                  == ShareLocal(xs[j], rand0[j], rand1[j], bitsize)
    {
      var r0 := Mod2N(rand0[i], bitsize);
      var r1 := Mod2N(rand1[i], bitsize);
      var d := xs[i] as int - r0 - r1;
      var r2 := Mod2N(d, bitsize);
      p0s0, p0s1 := p0s0 + [r0], p0s1 + [r2];
      p1s0, p1s1 := p1s0 + [r1], p1s1 + [r0];
      p2s0, p2s1 := p2s0 + [r2], p2s1 + [r1];
      i := i + 1;
    }
  }

  /** Vector ShareLocal: three share vectors, element i a sharing of xs[i]. */
  method ShareLocalVec(xs: seq<u64>, rand0: seq<u64>, rand1: seq<u64>, bitsize: nat)
    returns (v0: RepShareVec<u64>, v1: RepShareVec<u64>, v2: RepShareVec<u64>)
    requires bitsize < 64 && |rand0| == |xs| && |rand1| == |xs|
    ensures v0.Valid() && v1.Valid() && v2.Valid()
    ensures v0.numShares == v1.numShares == v2.numShares == |xs|
    ensures forall i :: 0 <= i < |xs| ==>
              SharesOf([RepShare(v0.data0[i], v0.data1[i]), RepShare(v1.data0[i], v1.data1[i]),
                        RepShare(v2.data0[i], v2.data1[i])], xs[i], bitsize)
  {
    var a0, a1, b0, b1, c0, c1 := ShareFlat(xs, |xs|, rand0, rand1, bitsize);
    v0 := new RepShareVec.Pair(a0, a1);
    v1 := new RepShareVec.Pair(b0, b1);
    v2 := new RepShareVec.Pair(c0, c1);
  }

  /** Matrix ShareLocal over the first rows*cols elements of the flat input. */
  method ShareLocalMat(xFlat: seq<u64>, rows: nat, cols: nat, rand0: seq<u64>, rand1: seq<u64>, bitsize: nat)
    returns (m0: RepShareMat<u64>, m1: RepShareMat<u64>, m2: RepShareMat<u64>)
    requires bitsize < 64 && rows * cols <= |xFlat| && rows * cols <= |rand0| && rows * cols <= |rand1|
    ensures m0.Valid() && m1.Valid() && m2.Valid()
    ensures m0.rows == m1.rows == m2.rows == rows && m0.cols == m1.cols == m2.cols == cols
    ensures forall i :: 0 <= i < rows * cols ==>
              SharesOf([RepShare(m0.shares.data0[i], m0.shares.data1[i]),
                        RepShare(m1.shares.data0[i], m1.shares.data1[i]),
                        RepShare(m2.shares.data0[i], m2.shares.data1[i])], xFlat[i], bitsize)
  {
    var a0, a1, b0, b1, c0, c1 := ShareFlat(xFlat, rows * cols, rand0, rand1, bitsize);
    m0 := new RepShareMat.Flat(rows, cols, a0, a1);
    m1 := new RepShareMat.Flat(rows, cols, b0, b1);
    m2 := new RepShareMat.Flat(rows, cols, c0, c1);
  }

  /** The opening loop: own shares plus the next party's first shares, element by element. */
  method OpenFlat(s0: seq<u64>, s1: seq<u64>, next: seq<u64>, n: nat, bitsize: nat) returns (out: seq<u64>)
    requires bitsize < 64 && n <= |s0| && n <= |s1| && n <= |next|
    ensures |out| == n
    ensures forall i :: 0 <= i < n ==> out[i] == Open(RepShare(s0[i], s1[i]), next[i], bitsize)
  {
    out := seq(n, _ => 0);
    var i := 0;
    while i < n
      invariant i <= n && |out| == n
      invariant forall j :: 0 <= j < i ==> out[j] == Open(RepShare(s0[j], s1[j]), next[j], bitsize)
    {
      var sum := s0[i] as int + s1[i] + next[i];
      out := out[i := Mod2N(sum, bitsize)];
      i := i + 1;
    }
  }

  /** Vector Open; `next` is the first-share vector received from the next party. */
  method OpenVec(xv: RepShareVec<u64>, next: seq<u64>, bitsize: nat) returns (out: seq<u64>)
    requires bitsize < 64 && xv.Valid() && xv.numShares <= |next|
    ensures |out| == xv.numShares
    ensures forall i :: 0 <= i < |out| ==> out[i] == Open(RepShare(xv.data0[i], xv.data1[i]), next[i], bitsize)
  {
    out := OpenFlat(xv.data0, xv.data1, next, xv.numShares, bitsize);
  }

  /** Matrix Open over the rows*cols flat shares. */
  method OpenMat(xm: RepShareMat<u64>, next: seq<u64>, bitsize: nat) returns (out: seq<u64>)
    requires bitsize < 64 && xm.Valid() && xm.rows * xm.cols <= |next|
    ensures |out| == xm.rows * xm.cols
    ensures forall i :: 0 <= i < |out| ==>
              out[i] == Open(RepShare(xm.shares.data0[i], xm.shares.data1[i]), next[i], bitsize)
  {
    out := OpenFlat(xm.shares.data0, xm.shares.data1, next, xm.rows * xm.cols, bitsize);
  }
}
