/**
 * Key generation for three-party ring oblivious access with full-domain
 * sign correction: the database is replicated-shared among the three
 * parties and one share per random sign bit is negated; for each DPF key
 * pair a sign-correction word w = +1 or -1 modulo 2^s is derived from the
 * DPF's final seeds; and every party receives the first key of its previous
 * party's pair and the second key of its next party's pair.
 *
 * The random draws, the sign bits, the DPF key pairs with their final seeds
 * and the two-party sharings of the random indices are inputs.
 */
module RingOaFsc {
  import opened Bits
  import opened Bytes
  import opened Wrappers
  import opened RepShare
  import opened Additive3P
  import Fss

  /* ------------------------------------------------ sign flips */

  /** A share, negated modulo 2^s when its sign bit is set. */
  function Flipped(x: u64, flip: bool, s: nat): (r: u64)
    requires s < 64
    ensures flip ==> r == (-(x as int)) % Pow2(s)
    ensures !flip ==> r == x
  {
    if flip then Mod2N(-(x as int), s) else x
  }

  /**
   * The three parties' pairs after the flips: sign bit j negates the share
   * x_{j+1}, in both parties that hold it (party j+1 as its first share and
   * party j+2 as its second).
   */
  function SignedShares(all: seq<Share>, vSign: seq<bool>, s: nat): (r: seq<Share>)
    requires s < 64 && |all| == 3 && |vSign| == 3
    ensures |r| == 3
    ensures Replicated(all) ==> Replicated(r)
    ensures forall p :: 0 <= p < 3 ==> r[p].s0 == Flipped(all[p].s0, vSign[(p + 2) % 3], s)
  {
    [RepShare(Flipped(all[0].s0, vSign[2], s), Flipped(all[0].s1, vSign[1], s)),
     RepShare(Flipped(all[1].s0, vSign[0], s), Flipped(all[1].s1, vSign[2], s)),
     RepShare(Flipped(all[2].s0, vSign[1], s), Flipped(all[2].s1, vSign[0], s))]
  }

  /** Weighting a flipped share by the sign of its bit gives back the share modulo 2^s. */
  lemma SignedFlip(x: u64, flip: bool, s: nat)
    requires s < 64
    ensures (Sign(flip) * Flipped(x, flip, s)) % Pow2(s) == x % Pow2(s)
  {
    var m := Pow2(s);
    var f: int := Flipped(x, flip, s);
    if flip {
      var neg: int := -(x as int);
      assert f == neg % m;
      ModIdem(neg, m);
      NegCongruent(f, neg, m);
      assert Sign(flip) == -1;
      assert Sign(flip) * f == -f;
    } else {
      assert Sign(flip) == 1;
      assert Sign(flip) * f == x;
    }
  }

  /**
   * The flipped sharing still determines x: the first shares weighted by
   * the signs of their bits add up to x modulo 2^s.
   */
  lemma SignedSharesReconstruct(all: seq<Share>, vSign: seq<bool>, x: int, s: nat)
    requires s < 64 && |vSign| == 3 && SharesOf(all, x, s)
    ensures var r := SignedShares(all, vSign, s);
      (Sign(vSign[2]) * r[0].s0 + Sign(vSign[0]) * r[1].s0 + Sign(vSign[1]) * r[2].s0) % Pow2(s) == x % Pow2(s)
  {
    var m := Pow2(s);
    var r := SignedShares(all, vSign, s);
    var a, b, c := Sign(vSign[2]) * r[0].s0, Sign(vSign[0]) * r[1].s0, Sign(vSign[1]) * r[2].s0;
    SignedFlip(all[0].s0, vSign[2], s);
    SignedFlip(all[1].s0, vSign[0], s);
    SignedFlip(all[2].s0, vSign[1], s);
    AddCongruent2(a, all[0].s0, b, all[1].s0, m);
    AddCongruent2(a + b, all[0].s0 + all[1].s0, c, all[2].s0, m);
  }

  /** Without flips the sharing is the plain one. */
  lemma NoFlipIsIdentity(all: seq<Share>, s: nat)
    requires s < 64 && |all| == 3
    ensures SignedShares(all, [false, false, false], s) == all
  {
  }

  /** Element-wise negation modulo 2^s. */
  function Negated(v: seq<u64>, s: nat): (r: seq<u64>)
    requires s < 64
    ensures |r| == |v| && forall i :: 0 <= i < |v| ==> r[i] == Flipped(v[i], true, s)
  {
    seq(|v|, i requires 0 <= i < |v| => Flipped(v[i], true, s))
  }

  /**
   * One sign flip: the loop negating the first shares of `holder0` and the
   * second shares of `holder1`, which are the same share held by two parties.
   */
  method FlipShare(holder0: RepShareVec<u64>, holder1: RepShareVec<u64>, s: nat)
    requires s < 64 && holder0 != holder1 && holder0.Valid() && holder1.Valid()
    requires holder0.numShares == holder1.numShares
    modifies holder0, holder1
    ensures holder0.Valid() && holder1.Valid()
    ensures holder0.numShares == old(holder0.numShares) && holder1.numShares == old(holder1.numShares)
    ensures holder0.data0 == Negated(old(holder0.data0), s) && holder0.data1 == old(holder0.data1)
    ensures holder1.data1 == Negated(old(holder1.data1), s) && holder1.data0 == old(holder1.data0)
  {
    ghost var first, second := holder0.data0, holder1.data1;
    var i := 0;
    while i < holder0.numShares
      invariant 0 <= i <= holder0.numShares && holder0.Valid() && holder1.Valid()
      invariant holder0.numShares == old(holder0.numShares) && holder1.numShares == old(holder1.numShares)
      invariant holder0.data1 == old(holder0.data1) && holder1.data0 == old(holder1.data0)
      invariant forall j :: 0 <= j < holder0.numShares ==> holder0.data0[j] == if j < i then Flipped(first[j], true, s) else first[j]
      invariant forall j :: 0 <= j < holder0.numShares ==> holder1.data1[j] == if j < i then Flipped(second[j], true, s) else second[j]
    {
      holder0.data0 := holder0.data0[i := Mod2N(-(holder0.data0[i] as int), s)];
      holder1.data1 := holder1.data1[i := Mod2N(-(holder1.data1[i] as int), s)];
      i := i + 1;
    }
  }

  /** The pairs the three share vectors hold at index i. */
  function PairsAt(v0: RepShareVec<u64>, v1: RepShareVec<u64>, v2: RepShareVec<u64>, i: nat): (r: seq<Share>)
    reads v0, v1, v2
    requires v0.Valid() && v1.Valid() && v2.Valid() && i < v0.numShares && i < v1.numShares && i < v2.numShares
    ensures |r| == 3 && r[0] == RepShare(v0.data0[i], v0.data1[i])
    ensures r[1] == RepShare(v1.data0[i], v1.data1[i]) && r[2] == RepShare(v2.data0[i], v2.data1[i])
  {
    [RepShare(v0.data0[i], v0.data1[i]), RepShare(v1.data0[i], v1.data1[i]), RepShare(v2.data0[i], v2.data1[i])]
  }

  /**
   * The three sign flips applied to three share vectors holding the plain
   * sharings `plain(i)`: flip j touches vectors j+1 and j+2.
   */
  method ApplySignFlips(v0: RepShareVec<u64>, v1: RepShareVec<u64>, v2: RepShareVec<u64>, vSign: seq<bool>, s: nat,
                        ghost plain: seq<seq<Share>>)
    requires s < 64 && |vSign| == 3 && v0 != v1 && v1 != v2 && v0 != v2
    requires v0.Valid() && v1.Valid() && v2.Valid() && v0.numShares == v1.numShares == v2.numShares == |plain|
    requires forall i :: 0 <= i < |plain| ==> |plain[i]| == 3 && PairsAt(v0, v1, v2, i) == plain[i]
    modifies v0, v1, v2
    ensures v0.Valid() && v1.Valid() && v2.Valid() && v0.numShares == v1.numShares == v2.numShares == |plain|
    ensures forall i :: 0 <= i < |plain| ==> PairsAt(v0, v1, v2, i) == SignedShares(plain[i], vSign, s)
  {
    if vSign[0] {
      FlipShare(v1, v2, s);
    }
    if vSign[1] {
      FlipShare(v2, v0, s);
    }
    if vSign[2] {
      FlipShare(v0, v1, s);
    }
    forall i | 0 <= i < |plain|
      ensures PairsAt(v0, v1, v2, i) == SignedShares(plain[i], vSign, s)
    {
      var r := SignedShares(plain[i], vSign, s);
      assert r[0] == RepShare(v0.data0[i], v0.data1[i]);
      assert r[1] == RepShare(v1.data0[i], v1.data1[i]);
      assert r[2] == RepShare(v2.data0[i], v2.data1[i]);
    }
  }

  /**
   * GenerateDatabaseShare for share vectors: the database must hold exactly
   * 2^d entries (std::invalid_argument otherwise); entry i is shared by the
   * replicated sharing `rss_` of bit size `bitsize` with the draws rand0[i]
   * and rand1[i], and the sign flips vSign are applied modulo 2^s, s being
   * the share size of the parameters (the two need not agree).
   */
  method GenerateDatabaseShare(database: seq<u64>, d: nat, s: nat, bitsize: nat, rand0: seq<u64>, rand1: seq<u64>,
                               vSign: seq<bool>)
    returns (r: Result<(RepShareVec<u64>, RepShareVec<u64>, RepShareVec<u64>), ShareError>)
    requires d < 64 && s < 64 && bitsize < 64 && |vSign| == 3 && |rand0| == |database| && |rand1| == |database|
    ensures r.Failure? <==> |database| != Pow2(d)
    ensures r.Failure? ==> r.error == InvalidArgument
    ensures r.Success? ==> var (v0, v1, v2) := r.value;
      fresh(v0) && fresh(v1) && fresh(v2) && v0 != v1 && v1 != v2 && v0 != v2 &&
      v0.Valid() && v1.Valid() && v2.Valid() && v0.numShares == v1.numShares == v2.numShares == |database| &&
      forall i :: 0 <= i < |database| ==>
        PairsAt(v0, v1, v2, i) == SignedShares(ShareLocal(database[i], rand0[i], rand1[i], bitsize), vSign, s)
  {
    if |database| != Pow2(d) {
      return Failure(InvalidArgument);
    }
    var a0, a1, b0, b1, c0, c1 := ShareFlat(database, |database|, rand0, rand1, bitsize);
    var v0 := new RepShareVec.Pair(a0, a1);
    var v1 := new RepShareVec.Pair(b0, b1);
    var v2 := new RepShareVec.Pair(c0, c1);
    ghost var plain := seq(|database|, i requires 0 <= i < |database| => ShareLocal(database[i], rand0[i], rand1[i], bitsize));
    ApplySignFlips(v0, v1, v2, vSign, s, plain);
    return Success((v0, v1, v2));
  }

  /**
   * The matrix GenerateDatabaseShare: the database must hold exactly
   * rows * cols entries; entries are shared with the sharing's own
   * `bitsize` and the flips, modulo 2^s, run over the flat share vectors.
   */
  method GenerateDatabaseShareMat(database: seq<u64>, rows: nat, cols: nat, s: nat, bitsize: nat, rand0: seq<u64>,
                                  rand1: seq<u64>, vSign: seq<bool>)
    returns (r: Result<(RepShareMat<u64>, RepShareMat<u64>, RepShareMat<u64>), ShareError>)
    requires s < 64 && bitsize < 64 && |vSign| == 3 && |rand0| == |database| && |rand1| == |database|
    ensures r.Failure? <==> |database| != rows * cols
    ensures r.Failure? ==> r.error == InvalidArgument
    ensures r.Success? ==> var (m0, m1, m2) := r.value;
      m0.Valid() && m1.Valid() && m2.Valid() &&
      m0.rows == m1.rows == m2.rows == rows && m0.cols == m1.cols == m2.cols == cols &&
      forall i :: 0 <= i < |database| ==>
        PairsAt(m0.shares, m1.shares, m2.shares, i) == SignedShares(ShareLocal(database[i], rand0[i], rand1[i], bitsize), vSign, s)
  {
    var n := rows * cols;
    if |database| != n {
      return Failure(InvalidArgument);
    }
    var a0, a1, b0, b1, c0, c1 := ShareFlat(database, n, rand0, rand1, bitsize);
    var m0 := new RepShareMat.Flat(rows, cols, a0, a1);
    var m1 := new RepShareMat.Flat(rows, cols, b0, b1);
    var m2 := new RepShareMat.Flat(rows, cols, c0, c1);
    ghost var plain := seq(n, i requires 0 <= i < n => ShareLocal(database[i], rand0[i], rand1[i], bitsize));
    ApplySignFlips(m0.shares, m1.shares, m2.shares, vSign, s, plain);
    return Success((m0, m1, m2));
  }

  /* ------------------------------------------------ sign correction */

  /**
   * ComputeSignCorrection: the bit of the final seed at alpha_hat (seed 0
   * when the final control bit is set, seed 1 otherwise), xored with the
   * control bit and the sign bit, selects w = -1 modulo 2^s or w = 1.
   * `GetBit` on a block reads the low or the high 64-bit word.
   */
  function ComputeSignCorrection(seed0: Block, seed1: Block, controlBit: bool, vSign: bool, alphaHat: nat, s: nat): (w: u64)
    requires alphaHat < 128 && s < 64
    ensures var seed := if controlBit then seed0 else seed1;
      var flip := ((BitOf(seed[alphaHat / 8], alphaHat % 8) == 1) != controlBit) != vSign;
      w == if flip then Pow2(s) - 1 else 1
  {
    var selected := if controlBit then Fss.WordBit(seed0, alphaHat) else Fss.WordBit(seed1, alphaHat);
    MinusOneMod(Pow2(s));
    if ((selected == 1) != controlBit) != vSign then Mod2N(-1, s) else 1
  }

  lemma MinusOneMod(m: nat)
    requires m > 0
    ensures (-1) % m == m - 1
  {
    DivModUnique(-1, m, -1, m - 1);
  }

  /** The correction word is a sign: +1 or -1 modulo 2^s, so it is its own inverse. */
  lemma SignCorrectionIsSign(seed0: Block, seed1: Block, controlBit: bool, vSign: bool, alphaHat: nat, s: nat)
    requires alphaHat < 128 && s < 64
    ensures var w := ComputeSignCorrection(seed0, seed1, controlBit, vSign, alphaHat, s);
      (w * w) % Pow2(s) == 1 % Pow2(s) &&
      (w % Pow2(s) == 1 % Pow2(s) || w % Pow2(s) == (-1) % Pow2(s))
  {
    var w := ComputeSignCorrection(seed0, seed1, controlBit, vSign, alphaHat, s);
    PlusMinusOne(w, Pow2(s));
  }

  lemma PlusMinusOne(w: int, m: nat)
    requires m > 0 && (w == 1 || w == m - 1)
    ensures (w * w) % m == 1 % m && (w % m == 1 % m || w % m == (-1) % m)
  {
    if w != 1 {
      MinusOneMod(m);
      DivModUnique(w, m, 0, w);
      MulCongruent(w, -1, w, -1, m);
    }
  }

  /* ------------------------------------------------ key assignment */

  /**
   * A party's key: its id, the first key of the previous party's DPF pair
   * with that party's share of the random index and correction word, and
   * the second key of the next party's pair with its share and word.
   */
  datatype FscKey<K, R> = FscKey(partyId: nat, keyFromPrev: K, rshFromPrev: R, wFromPrev: u64,
                                  keyFromNext: K, rshFromNext: R, wFromNext: u64)

  /**
   * The assignment loop of GenerateKeys: party i takes from pair (i+2) mod 3
   * the first key, first index share and word, and from pair (i+1) mod 3 the
   * second key, second index share and word; the party id is kept.
   */
  method AssignKeys<K, R>(init: seq<FscKey<K, R>>, keyPairs: seq<(K, K)>, randShares: seq<(R, R)>, w: seq<u64>)
    returns (keys: seq<FscKey<K, R>>)
    requires |init| == 3 && |keyPairs| == 3 && |randShares| == 3 && |w| == 3
    ensures |keys| == 3
    ensures forall i :: 0 <= i < 3 ==> keys[i].partyId == init[i].partyId
    ensures forall i :: 0 <= i < 3 ==>
      var prev, next := (i + 2) % 3, (i + 1) % 3;
      keys[i].keyFromPrev == keyPairs[prev].0 && keys[i].rshFromPrev == randShares[prev].0 && keys[i].wFromPrev == w[prev] &&
      keys[i].keyFromNext == keyPairs[next].1 && keys[i].rshFromNext == randShares[next].1 && keys[i].wFromNext == w[next]
  {
    keys := init;
    for i := 0 to 3
      invariant |keys| == 3
      invariant forall j :: 0 <= j < 3 ==> keys[j].partyId == init[j].partyId
      invariant forall j :: 0 <= j < i ==>
        var prev, next := (j + 2) % 3, (j + 1) % 3;
        keys[j].keyFromPrev == keyPairs[prev].0 && keys[j].rshFromPrev == randShares[prev].0 && keys[j].wFromPrev == w[prev] &&
        keys[j].keyFromNext == keyPairs[next].1 && keys[j].rshFromNext == randShares[next].1 && keys[j].wFromNext == w[next]
    {
      var prev, next := (i + 2) % 3, (i + 1) % 3;
      keys := keys[i := keys[i].(keyFromPrev := keyPairs[prev].0, rshFromPrev := randShares[prev].0, wFromPrev := w[prev],
                                 keyFromNext := keyPairs[next].1, rshFromNext := randShares[next].1, wFromNext := w[next])];
    }
  }

  /**
   * Every DPF pair j is split between the two parties other than j: party
   * j+1 holds its first key as key_from_prev and party j+2 its second key as
   * key_from_next, and no party holds both halves of one pair.
   */
  lemma KeyPairsSplit<K, R>(keys: seq<FscKey<K, R>>, keyPairs: seq<(K, K)>, randShares: seq<(R, R)>, w: seq<u64>, j: nat)
    requires |keys| == 3 && |keyPairs| == 3 && |randShares| == 3 && |w| == 3 && j < 3
    requires forall i :: 0 <= i < 3 ==>
      keys[i].keyFromPrev == keyPairs[(i + 2) % 3].0 && keys[i].keyFromNext == keyPairs[(i + 1) % 3].1
    ensures keys[(j + 1) % 3].keyFromPrev == keyPairs[j].0 && keys[(j + 2) % 3].keyFromNext == keyPairs[j].1
    ensures (j + 1) % 3 != j && (j + 2) % 3 != j && (j + 1) % 3 != (j + 2) % 3
  {
    assert ((j + 1) % 3 + 2) % 3 == j;
    assert ((j + 2) % 3 + 1) % 3 == j;
  }
}
