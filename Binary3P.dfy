/**
 * Three-party replicated XOR sharing of 64-bit words.
 *
 * A word x is split into x0 ^ x1 ^ x2 = x; party p holds (x_p, x_{p-1}).
 * XOR is local; AND needs one local term per party, a zero-sharing from the
 * two PRF streams and one message to the next party. Messages are explicit
 * inputs here.
 */
module Binary3P {
  import Bits
  import opened Bytes
  import opened RepShare
  import opened Prf
  import opened Wrappers

  /**
   * A 64-bit word as its bits, least significant first: bit i of w is
   * (w >> i) & 1, so `^` and `&` act bit by bit.
   */
  type Word = w: seq<bool> | |w| == 64 witness seq(64, _ => false)

  function Xor(a: Word, b: Word): (r: Word)
    ensures forall i :: 0 <= i < 64 ==> r[i] == (a[i] != b[i])
  {
    seq(64, i requires 0 <= i < 64 => a[i] != b[i])
  }

  function And(a: Word, b: Word): (r: Word)
    ensures forall i :: 0 <= i < 64 ==> r[i] == (a[i] && b[i])
  {
    seq(64, i requires 0 <= i < 64 => a[i] && b[i])
  }

  const Zero: Word := seq(64, _ => false)
  const Ones: Word := seq(64, _ => true)

  /** The bits of a 64-bit unsigned value. */
  function WordOf(v: Bits.u64): (r: Word)
    ensures forall i :: 0 <= i < 64 ==> r[i] == (Bits.BitOf(v, i) == 1)
  {
    seq(64, i requires 0 <= i < 64 => Bits.BitOf(v, i) == 1)
  }

  type Share = RepShare<Word>

  /** `all` is a replicated XOR sharing of x. */
  predicate SharesOf(all: seq<Share>, x: Word) {
    Replicated(all) && Xor(Xor(all[0].s0, all[1].s0), all[2].s0) == x
  }

  /** ShareLocal from two random words: x0, x1 random, x2 = x ^ x0 ^ x1. */
  function ShareLocal(x: Word, rand0: Word, rand1: Word): (all: seq<Share>)
    ensures SharesOf(all, x)
    ensures all[0].s0 == rand0 && all[1].s0 == rand1
  {
    var x2 := Xor(Xor(x, rand0), rand1);
    [RepShare(rand0, x2), RepShare(rand1, rand0), RepShare(x2, rand1)]
  }

  /** Open at one party: its two shares xor the first share of the next party. */
  function Open(xSh: Share, xNext: Word): (r: Word)
  {
    Xor(Xor(xSh.s0, xSh.s1), xNext)
  }

  /** Every party opens x. */
  lemma OpenReconstructs(all: seq<Share>, x: Word, p: nat)
    requires SharesOf(all, x) && p < 3
    ensures Open(all[p], all[(p + 1) % 3].s0) == x
  {
  }

  function EvaluateXor(x: Share, y: Share): (z: Share)
    ensures z.s0 == Xor(x.s0, y.s0) && z.s1 == Xor(x.s1, y.s1)
  {
    RepShare(Xor(x.s0, y.s0), Xor(x.s1, y.s1))
  }

  function XorAll(xs: seq<Share>, ys: seq<Share>): (zs: seq<Share>)
    requires |xs| == 3 && |ys| == 3
    ensures |zs| == 3
  {
    [EvaluateXor(xs[0], ys[0]), EvaluateXor(xs[1], ys[1]), EvaluateXor(xs[2], ys[2])]
  }

  /** Local XOR of sharings of x and y is a sharing of x ^ y. */
  lemma XorShares(xs: seq<Share>, ys: seq<Share>, x: Word, y: Word)
    requires SharesOf(xs, x) && SharesOf(ys, y)
    ensures SharesOf(XorAll(xs, ys), Xor(x, y))
  {
  }

  /** Party p's term of the (3,3)-sharing of x & y: x_p y_p ^ x_{p-1} y_p ^ x_p y_{p-1}. */
  function LocalAnd(x: Share, y: Share): (t: Word)
  {
    Xor(Xor(And(x.s0, y.s0), And(x.s1, y.s0)), And(x.s0, y.s1))
  }

  /** The three local terms xor to x & y. */
  lemma AndTerms(xs: seq<Share>, ys: seq<Share>, x: Word, y: Word)
    requires SharesOf(xs, x) && SharesOf(ys, y)
    ensures Xor(Xor(LocalAnd(xs[0], ys[0]), LocalAnd(xs[1], ys[1])), LocalAnd(xs[2], ys[2])) == And(x, y)
  {
  }

  /** Party p's pair from Rand when the three streams produce g at one position. */
  function RandPair(g: seq<Word>, p: nat): (r: Share)
    requires |g| == 3 && p < 3
    ensures r.s0 == g[(p + 2) % 3] && r.s1 == g[p]
  {
    RepShare(g[(p + 2) % 3], g[p])
  }

  /** EvaluateAnd at one party: its masked term, and the term received from the previous party. */
  function AndShare(x: Share, y: Share, r: Share, fromPrev: Word): (z: Share)
    ensures z.s1 == fromPrev
  {
    RepShare(MaskedAnd(x, y, r), fromPrev)
  }

  /** The first share EvaluateAnd computes: the local term masked by both PRF words. */
  function MaskedAnd(x: Share, y: Share, r: Share): (t: Word)
  {
    Xor(Xor(LocalAnd(x, y), r.s0), r.s1)
  }

  function AndAll(xs: seq<Share>, ys: seq<Share>, g: seq<Word>): (zs: seq<Share>)
    requires |xs| == 3 && |ys| == 3 && |g| == 3
    ensures Replicated(zs)
  {
    var z0 := MaskedAnd(xs[0], ys[0], RandPair(g, 0));
    var z1 := MaskedAnd(xs[1], ys[1], RandPair(g, 1));
    var z2 := MaskedAnd(xs[2], ys[2], RandPair(g, 2));
    [AndShare(xs[0], ys[0], RandPair(g, 0), z2),
     AndShare(xs[1], ys[1], RandPair(g, 1), z0),
     AndShare(xs[2], ys[2], RandPair(g, 2), z1)]
  }

  /** The masks cancel, so the three AND shares are a sharing of x & y. */
  lemma AndShares(xs: seq<Share>, ys: seq<Share>, g: seq<Word>, x: Word, y: Word)
    requires |g| == 3 && SharesOf(xs, x) && SharesOf(ys, y)
    ensures SharesOf(AndAll(xs, ys, g), And(x, y))
  {
    AndTerms(xs, ys, x, y);
  }

  /** EvaluateSelect for all three parties: x ^ (c & (x ^ y)). */
  function SelectAll(xs: seq<Share>, ys: seq<Share>, cs: seq<Share>, g: seq<Word>): (zs: seq<Share>)
    requires |xs| == 3 && |ys| == 3 && |cs| == 3 && |g| == 3
    ensures |zs| == 3
  {
    XorAll(xs, AndAll(cs, XorAll(xs, ys), g))
  }

  /** Bitwise choice: bit i is y's where c's is set and x's where it is clear. */
  function Mux(c: Word, x: Word, y: Word): (r: Word)
    ensures forall i :: 0 <= i < 64 ==> r[i] == (if c[i] then y[i] else x[i])
  {
    seq(64, i requires 0 <= i < 64 => if c[i] then y[i] else x[i])
  }

  /**
   * Select yields a sharing of the bitwise choice between x and y by c; c = 0
   * gives x and c = all ones gives y.
   */
  lemma SelectShares(xs: seq<Share>, ys: seq<Share>, cs: seq<Share>, g: seq<Word>, x: Word, y: Word, c: Word)
    requires |g| == 3 && SharesOf(xs, x) && SharesOf(ys, y) && SharesOf(cs, c)
    ensures SharesOf(SelectAll(xs, ys, cs, g), Mux(c, x, y))
    ensures c == Zero ==> SharesOf(SelectAll(xs, ys, cs, g), x)
    ensures c == Ones ==> SharesOf(SelectAll(xs, ys, cs, g), y)
  {
    var d := XorAll(xs, ys);
    XorShares(xs, ys, x, y);
    AndShares(cs, d, g, c, Xor(x, y));
    XorShares(xs, AndAll(cs, d, g), x, And(c, Xor(x, y)));
    assert Xor(x, And(c, Xor(x, y))) == Mux(c, x, y);
  }

  /* ------------------------------------------------ the PRF buffer */

  /** Every draw so far was a whole number of 64-bit words. */
  predicate Aligned(st: PrfState) {
    st.prfIdx % 8 == 0
  }

  /** The 64-bit Rand's guard: the word index has reached the buffer's word capacity. */
  predicate Rand64Refills(st: PrfState) {
    st.prfIdx / 8 >= |st.buff0| * 16 / 8
  }

  /** On aligned offsets the word-index guard is exactly "the next word would not fit". */
  lemma Rand64GuardExact(st: PrfState)
    requires Aligned(st)
    ensures Rand64Refills(st) <==> st.prfIdx + 8 > 16 * |st.buff0|
  {
    var q := st.prfIdx / 8;
    var n := |st.buff0|;
    Bits.DivModUnique(st.prfIdx, 8, q, 0);
    Bits.DivModUnique(n * 16, 8, 2 * n, 0);
  }

  /** Rand of a 64-bit pair: refill when the word index is at capacity, read a word from each buffer, advance by eight bytes. */
  function Rand64Step(st: PrfState): (r: (Share, PrfState))
    requires Ready(st) && Aligned(st)
    ensures Ready(r.1) && Aligned(r.1)
    ensures r.1.prfIdx == (if Rand64Refills(st) then 0 else st.prfIdx) + 8
    ensures !Rand64Refills(st) ==> r.1 == st.(prfIdx := st.prfIdx + 8)
    ensures Rand64Refills(st) ==> r.1 == Refilled(st).(prfIdx := 8)
  {
    Rand64GuardExact(st);
    var s := if Rand64Refills(st) then Refilled(st) else st;
    assert s.prfIdx + 8 <= 16 * |s.buff0| && |s.buff1| == |s.buff0|;
    AlignedNext(s.prfIdx);
    (RepShare(WordOf(Word64(s.buff0, s.prfIdx)), WordOf(Word64(s.buff1, s.prfIdx))),
     s.(prfIdx := s.prfIdx + 8))
  }

  /** One more word keeps the offset word-aligned. */
  lemma AlignedNext(off: nat)
    requires off % 8 == 0
    ensures (off + 8) % 8 == 0
  {
  }

  /** The block Rand's guard as written: the block index has reached the buffer's block count. */
  predicate RandBlockRefillsAsWritten(st: PrfState) {
    st.prfIdx / 16 >= |st.buff0|
  }

  /** The state after k 64-bit draws. */
  function Draws64(st: PrfState, k: nat): (r: PrfState)
    requires Ready(st) && Aligned(st)
    ensures Ready(r) && Aligned(r)
    decreases k
  {
    if k == 0 then st else Draws64(Rand64Step(st).1, k - 1)
  }

  /** While the words fit, k draws only advance the offset by 8 * k bytes. */
  lemma {:induction false} Draws64NoRefill(st: PrfState, k: nat)
    requires Ready(st) && Aligned(st) && st.prfIdx + 8 * k <= 16 * |st.buff0|
    ensures Draws64(st, k) == st.(prfIdx := st.prfIdx + 8 * k)
    decreases k
  {
    if k > 0 {
      Rand64GuardExact(st);
      var next := Rand64Step(st).1;
      assert next == st.(prfIdx := st.prfIdx + 8);
      Draws64NoRefill(next, k - 1);
    }
  }

  /**
   * Whatever the buffer size N, the 2N - 1 64-bit draws that follow a refill
   * leave the offset at 16N - 8; the as-written block guard then does not
   * refill, and the sixteen bytes the block Rand copies run eight bytes past
   * the end of the buffers.
   */
  lemma RandBlockAsWrittenOverruns(st: PrfState)
    requires Ready(st) && Aligned(st) && st.prfIdx == 0
    ensures var s := Draws64(st, 2 * |st.buff0| - 1);
      s.buff0 == st.buff0 && s.prfIdx == 16 * |st.buff0| - 8
      && !RandBlockRefillsAsWritten(s) && s.prfIdx + 16 == 16 * |s.buff0| + 8
  {
    var n := |st.buff0|;
    Draws64NoRefill(st, 2 * n - 1);
    Bits.DivModUnique(16 * n - 8, 16, n - 1, 8);
  }

  /** The corrected guard: refill when the next sixteen bytes would not fit. */
  predicate RandBlockRefills(st: PrfState) {
    st.prfIdx + 16 > 16 * |st.buff0|
  }

  /** On block-aligned offsets the corrected guard and the written one agree. */
  lemma RandBlockGuardsAgree(st: PrfState)
    requires st.prfIdx % 16 == 0
    ensures RandBlockRefills(st) <==> RandBlockRefillsAsWritten(st)
  {
    Bits.DivModUnique(st.prfIdx, 16, st.prfIdx / 16, 0);
  }

  /** The sixteen bytes at byte offset `off` of a block vector. */
  function BlockAt(buff: seq<Block>, off: nat): (r: Block)
    requires off + 16 <= 16 * |buff|
    ensures r == Flatten(buff)[off..off + 16]
  {
    Flatten(buff)[off..off + 16]
  }

  /** Rand of a block pair with the corrected guard: the copy stays inside the buffers. */
  function RandBlockStep(st: PrfState): (r: (RepShare<Block>, PrfState))
    requires Ready(st) && Aligned(st)
    ensures Ready(r.1) && Aligned(r.1)
    ensures r.1.prfIdx == (if RandBlockRefills(st) then 0 else st.prfIdx) + 16
    ensures !RandBlockRefills(st) ==> r.1 == st.(prfIdx := st.prfIdx + 16)
    ensures RandBlockRefills(st) ==> r.1 == Refilled(st).(prfIdx := 16)
  {
    var s := if RandBlockRefills(st) then Refilled(st) else st;
    (RepShare(BlockAt(s.buff0, s.prfIdx), BlockAt(s.buff1, s.prfIdx)), s.(prfIdx := s.prfIdx + 16))
  }

  /** BinaryReplicatedSharing3P: the party's PRF state. */
  class BinaryReplicatedSharing3P {
    const bitsize: nat
    var prf0: nat -> Block
    var prf1: nat -> Block
    var prfBuff0: seq<Block>
    var prfBuff1: seq<Block>
    var prfIdx: nat
    var prfBuffIdx: nat

    function View(): PrfState
      reads this
    {
      PrfState(prf0, prf1, prfBuff0, prfBuff1, prfIdx, prfBuffIdx)
    }

    constructor(bitsize: nat)
      ensures this.bitsize == bitsize && prfBuff0 == [] && prfBuff1 == [] && prfIdx == 0
    {
      this.bitsize := bitsize;
      prf0 := _ => ZeroBlock;
      prf1 := _ => ZeroBlock;
      prfBuff0 := [];
      prfBuff1 := [];
      prfIdx := 0;
      prfBuffIdx := 0;
    }

    /** RandOnline with the two keyed streams: fresh buffers of `bufferSize` blocks, filled from counter 0. */
    method RandOnline(streamPrev: nat -> Block, streamNext: nat -> Block, bufferSize: nat)
      modifies this
      ensures View() == Refilled(PrfState(streamPrev, streamNext, seq(bufferSize, _ => ZeroBlock),
                                          seq(bufferSize, _ => ZeroBlock), 0, 0))
      ensures Aligned(View()) && (bufferSize > 0 ==> Ready(View()))
    {
      prfBuffIdx := 0;
      prfBuff0 := seq(bufferSize, _ => ZeroBlock);
      prfBuff1 := seq(bufferSize, _ => ZeroBlock);
      prf0 := streamPrev;
      prf1 := streamNext;
      RefillBuffer();
    }

    method RefillBuffer()
      modifies this
      ensures View() == Refilled(old(View()))
    {
      var stream0, stream1, start := prf0, prf1, prfBuffIdx;
      prfBuff0 := seq(|prfBuff0|, j requires 0 <= j => stream0(start + j));
      prfBuff1 := seq(|prfBuff1|, j requires 0 <= j => stream1(start + j));
      prfBuffIdx := prfBuffIdx + |prfBuff0|;
      prfIdx := 0;
    }

    /** Rand(RepShare64&). */
    method Rand() returns (x: Share)
      requires Ready(View()) && Aligned(View())
      modifies this
      ensures (x, View()) == Rand64Step(old(View()))
      ensures Ready(View()) && Aligned(View())
    {
      var maxElems := |prfBuff0| * 16 / 8;
      var elemIdx := prfIdx / 8;
      if elemIdx >= maxElems {
        RefillBuffer();
      }
      Rand64GuardExact(old(View()));
      x := RepShare(WordOf(Word64(prfBuff0, prfIdx)), WordOf(Word64(prfBuff1, prfIdx)));
      prfIdx := prfIdx + 8;
    }

    /** Rand(RepShareBlock&), with the corrected guard. */
    method RandBlock() returns (x: RepShare<Block>)
      requires Ready(View()) && Aligned(View())
      modifies this
      ensures (x, View()) == RandBlockStep(old(View()))
      ensures Ready(View()) && Aligned(View())
    {
      if prfIdx + 16 > |prfBuff0| * 16 {
        RefillBuffer();
      }
      x := RepShare(BlockAt(prfBuff0, prfIdx), BlockAt(prfBuff1, prfIdx));
      prfIdx := prfIdx + 16;
    }

    /** EvaluateAnd at this party; `fromPrev` is the first share the previous party sends. */
    method EvaluateAnd(x: Share, y: Share, fromPrev: Word) returns (z: Share)
      requires Ready(View()) && Aligned(View())
      modifies this
      ensures Ready(View()) && Aligned(View()) && View() == Rand64Step(old(View())).1
      ensures z == AndShare(x, y, Rand64Step(old(View())).0, fromPrev)
    {
      var t := Xor(Xor(And(x.s0, y.s0), And(x.s1, y.s0)), And(x.s0, y.s1));
      var r := Rand();
      z := RepShare(Xor(Xor(t, r.s0), r.s1), fromPrev);
    }

    /** EvaluateSelect at this party: Xor, then EvaluateAnd, then Xor. */
    method EvaluateSelect(x: Share, y: Share, c: Share, fromPrev: Word) returns (z: Share)
      requires Ready(View()) && Aligned(View())
      modifies this
      ensures Ready(View()) && Aligned(View()) && View() == Rand64Step(old(View())).1
      ensures z == EvaluateXor(x, AndShare(c, EvaluateXor(x, y), Rand64Step(old(View())).0, fromPrev))
    {
      var xy := EvaluateXor(x, y);
      var cAndXy := EvaluateAnd(c, xy, fromPrev);
      z := EvaluateXor(x, cAndXy);
    }
  }

  /** Vector EvaluateXor; on a size mismatch of x and y it logs and leaves z unchanged. */
  method EvaluateXorVec(xv: RepShareVec<Word>, yv: RepShareVec<Word>, zv: RepShareVec<Word>)
    requires xv.Valid() && yv.Valid() && zv.Valid()
    modifies zv
    ensures old(xv.numShares) != old(yv.numShares) ==> unchanged(zv)
    ensures old(xv.numShares) == old(yv.numShares) ==>
              zv.Valid() && zv.numShares == old(xv.numShares)
              && forall i :: 0 <= i < zv.numShares ==>
                   zv.data0[i] == Xor(old(xv.data0[i]), old(yv.data0[i]))
                   && zv.data1[i] == Xor(old(xv.data1[i]), old(yv.data1[i]))
  {
    if xv.numShares != yv.numShares {
      return;
    }
    var n := xv.numShares;
    var z0, z1 := Resized(zv.data0, n, Zero), Resized(zv.data1, n, Zero);
    var i := 0;
    while i < n
      invariant i <= n && |z0| == n && |z1| == n
      invariant forall j :: 0 <= j < i ==>
                  z0[j] == Xor(xv.data0[j], yv.data0[j]) && z1[j] == Xor(xv.data1[j], yv.data1[j])
    {
      z0 := z0[i := Xor(xv.data0[i], yv.data0[i])];
      z1 := z1[i := Xor(xv.data1[i], yv.data1[i])];
      i := i + 1;
    }
    zv.numShares, zv.data0, zv.data1 := n, z0, z1;
  }
}
