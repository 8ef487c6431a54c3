/**
 * The correlated-randomness buffer of a replicated-sharing party. Each party
 * shares one AES key with each neighbour and expands both in counter mode
 * into two equally long buffers of blocks; draws are read from the buffers at
 * a byte offset, and the buffers are refilled from the next counters when
 * they run out. The keyed AES streams are modelled as functions from counter
 * to block.
 */
module Prf {
  import opened Bytes

  /**
   * One party's correlated randomness: two AES counter-mode streams (the first
   * keyed with the previous party's key, the second with the next party's),
   * their current buffers of blocks, the byte offset of the next draw and the
   * counter at which the next refill starts.
   */
  datatype PrfState = PrfState(
    prf0: nat -> Block, prf1: nat -> Block,
    buff0: seq<Block>, buff1: seq<Block>,
    prfIdx: nat, buffIdx: nat)

  /** Both buffers hold the same positive number of blocks and the offset is inside them. */
  predicate Ready(st: PrfState) {
    |st.buff0| == |st.buff1| > 0 && st.prfIdx <= 16 * |st.buff0|
  }

  /** RefillBuffer: the next `size` counter blocks of each stream; the offset restarts at 0. */
  function Refilled(st: PrfState): (r: PrfState)
    ensures |r.buff0| == |st.buff0| && |r.buff1| == |st.buff1|
    ensures r.prfIdx == 0 && r.buffIdx == st.buffIdx + |st.buff0|
    ensures r.prf0 == st.prf0 && r.prf1 == st.prf1
    ensures forall j :: 0 <= j < |st.buff0| ==> r.buff0[j] == st.prf0(st.buffIdx + j)
    ensures forall j :: 0 <= j < |st.buff1| ==> r.buff1[j] == st.prf1(st.buffIdx + j)
  {
    st.(buff0 := seq(|st.buff0|, j requires 0 <= j => st.prf0(st.buffIdx + j)),
        buff1 := seq(|st.buff1|, j requires 0 <= j => st.prf1(st.buffIdx + j)),
        buffIdx := st.buffIdx + |st.buff0|,
        prfIdx := 0)
  }

  /**
   * Refills never reuse a counter: the blocks of the k-th refill after `st`
   * come from counters st.buffIdx + k*size onwards, so no two refills
   * overlap.
   */
  function RefilledTimes(st: PrfState, k: nat): (r: PrfState)
    ensures |r.buff0| == |st.buff0| && |r.buff1| == |st.buff1|
    ensures r.prf0 == st.prf0 && r.prf1 == st.prf1
  {
    if k == 0 then st else Refilled(RefilledTimes(st, k - 1))
  }

  lemma {:induction false} RefillCounters(st: PrfState, k: nat)
    requires k > 0
    ensures RefilledTimes(st, k).buffIdx == st.buffIdx + k * |st.buff0|
    ensures forall j :: 0 <= j < |st.buff0| ==>
              RefilledTimes(st, k).buff0[j] == st.prf0(st.buffIdx + (k - 1) * |st.buff0| + j)
    ensures forall j :: 0 <= j < |st.buff1| ==>
              RefilledTimes(st, k).buff1[j] == st.prf1(st.buffIdx + (k - 1) * |st.buff0| + j)
  {
    var n := |st.buff0|;
    if k > 1 {
      RefillCounters(st, k - 1);
      assert (k - 1) * n == (k - 2) * n + n;
    }
  }
}
