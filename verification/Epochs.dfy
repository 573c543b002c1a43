/** Epochs and blocks: packages/contractkit/src/kit.ts and packages/protocol/lib/test-utils.ts follow the same
    formulas, the latter with a fixed epoch size. */
module Epochs {

  function FirstBlock(epoch: nat, size: nat): int {
    if epoch == 0 then 0 else (epoch - 1) * size + 1
  }

  function LastBlock(epoch: nat, size: nat): int {
    if epoch == 0 then 0 else FirstBlock(epoch, size) + (size - 1)
  }

  function EpochOf(block: nat, size: nat): nat
    requires size >= 1
  {
    var epoch := block / size;
    if block % size == 0 then epoch else epoch + 1
  }

  // The epoch number times the size is the least multiple of the size not below the block.
  lemma EpochBounds(block: nat, size: nat)
    requires size >= 1
    ensures EpochOf(block, size) * size >= block > EpochOf(block, size) * size - size
  {
  }

  lemma OnlyMultiple(d: int, e: int, size: nat, block: int)
    requires d * size >= block > d * size - size && e * size >= block > e * size - size
    ensures d == e
  {
    assert d > e ==> (d - 1) * size >= e * size;
    assert e > d ==> (e - 1) * size >= d * size;
    assert (d - 1) * size == d * size - size && (e - 1) * size == e * size - size;
  }

  lemma Between(block: nat, size: nat, epoch: nat)
    requires size >= 1
    ensures EpochOf(block, size) == epoch <==> epoch * size >= block > epoch * size - size
  {
    EpochBounds(block, size);
    if epoch * size >= block > epoch * size - size {
      OnlyMultiple(EpochOf(block, size), epoch, size, block);
    }
  }

  // The epochs partition the blocks.
  lemma EpochsPartition(block: nat, size: nat, epoch: nat)
    requires size >= 1
    ensures EpochOf(block, size) == epoch <==> FirstBlock(epoch, size) <= block <= LastBlock(epoch, size)
    ensures LastBlock(epoch, size) + 1 == FirstBlock(epoch + 1, size)
  {
    hide EpochOf;
    Between(block, size, epoch);
    assert (epoch - 1) * size == epoch * size - size;
    assert 0 * size == 0;
  }

  // Every epoch has a first and a last block, which are blocks of that epoch.
  lemma EndsAreBlocks(epoch: nat, size: nat)
    requires size >= 1
    ensures 0 <= FirstBlock(epoch, size) <= LastBlock(epoch, size)
    ensures EpochOf(FirstBlock(epoch, size), size) == EpochOf(LastBlock(epoch, size), size) == epoch
  {
    hide EpochOf;
    assert epoch > 0 ==> (epoch - 1) * size >= 0;
    EpochsPartition(FirstBlock(epoch, size), size, epoch);
    EpochsPartition(LastBlock(epoch, size), size, epoch);
  }

  // The number of blocks mineToNextEpoch asks for.
  function BlocksUntilNextEpoch(block: nat, size: nat): int
    requires size >= 1
  {
    FirstBlock(EpochOf(block, size) + 1, size) - block
  }

  // It is the least number of blocks that changes the epoch, and it raises it by exactly one.
  lemma LeastToNextEpoch(block: nat, size: nat)
    requires size >= 1
    ensures var n := BlocksUntilNextEpoch(block, size);
      && 0 < n <= size
      && EpochOf(block + n, size) == EpochOf(block, size) + 1
      && forall b: nat :: block <= b < block + n ==> EpochOf(b, size) == EpochOf(block, size)
  {
    var e, n := EpochOf(block, size), BlocksUntilNextEpoch(block, size);
    hide EpochOf;
    EpochsPartition(block, size, e);
    EpochBounds(block, size);
    assert (e + 1 - 1) * size == e * size;
    EpochsPartition(block + n, size, e + 1);
    forall b: nat | block <= b < block + n
      ensures EpochOf(b, size) == e
    {
      EpochsPartition(b, size, e);
    }
  }

  // The test chain; each mined block raises its number by one.
  class TestChain {
    const epoch: nat
    var blockNumber: nat

    constructor (epoch: nat)
      ensures this.epoch == epoch && blockNumber == 0
    {
      this.epoch := epoch;
      blockNumber := 0;
    }

    method MineBlocks(blocks: int)
      modifies this
      ensures blockNumber == old(blockNumber) + if blocks > 0 then blocks else 0
    {
      var i := 0;
      while i < blocks
        invariant i == 0 || i <= blocks
        invariant blockNumber == old(blockNumber) + i
      {
        blockNumber := blockNumber + 1;
        i := i + 1;
      }
    }

    method MineToNextEpoch()
      requires epoch >= 1
      modifies this
      ensures EpochOf(blockNumber, epoch) == EpochOf(old(blockNumber), epoch) + 1
      ensures blockNumber == FirstBlock(EpochOf(old(blockNumber), epoch) + 1, epoch)
      ensures old(blockNumber) < blockNumber
      ensures forall b: nat :: old(blockNumber) <= b < blockNumber ==>
        EpochOf(b, epoch) == EpochOf(old(blockNumber), epoch)
    {
      LeastToNextEpoch(blockNumber, epoch);
      var epochNumber := EpochOf(blockNumber, epoch);
      var blocksUntilNextEpoch := FirstBlock(epochNumber + 1, epoch) - blockNumber;
      MineBlocks(blocksUntilNextEpoch);
    }
  }
}
