/** What a node answers for a range of blocks. */
module Blocks {

  /** The items of the blocks `from` to `to`, both included, in order. */
  function InBlocks<T>(blocks: nat -> seq<T>, from: nat, to: int): seq<T>
    decreases to - from
  {
    if to < from then [] else blocks(from) + InBlocks(blocks, from + 1, to)
  }

  /** One block, and none. */
  lemma OneBlock<T>(blocks: nat -> seq<T>, b: nat, to: int)
    ensures InBlocks(blocks, b, b) == blocks(b)
    ensures to < b ==> InBlocks(blocks, b, to) == []
  {
    assert InBlocks(blocks, b + 1, b) == [];
  }

  /** A range can be asked for in two parts. */
  lemma {:induction false} SplitBlocks<T>(blocks: nat -> seq<T>, from: nat, mid: int, to: int)
    requires from <= mid + 1 <= to + 1
    ensures InBlocks(blocks, from, to) == InBlocks(blocks, from, mid) + InBlocks(blocks, mid + 1, to)
    decreases mid - from
  {
    if from <= mid {
      SplitBlocks(blocks, from + 1, mid, to);
      assert blocks(from) + (InBlocks(blocks, from + 1, mid) + InBlocks(blocks, mid + 1, to))
          == (blocks(from) + InBlocks(blocks, from + 1, mid)) + InBlocks(blocks, mid + 1, to);
    }
  }
}
