/**
 The list of remembered objects and its iterator (vm/RememberedSet.h).

 The C list of blocks is a sequence, oldest block first; a block is the sequence of the entries
 stored in it so far.  Setting TAG_REMEMBERED is left to the caller, which owns object headers.
 */
module RememberedSets {
  import opened ObjectModel

  const BLOCK_SIZE: nat := 1024

  type Blocks = seq<seq<Addr>>

  /** Every block but the newest is full, and the newest has room for one more entry. */
  ghost predicate AreBlocks(blocks: Blocks) {
    && blocks != []
    && (forall k :: 0 <= k < |blocks| - 1 ==> |blocks[k]| == BLOCK_SIZE)
    && |blocks[|blocks| - 1]| < BLOCK_SIZE
  }

  /** The entries of the blocks, in the order in which they were added. */
  ghost function Entries(blocks: Blocks): seq<Addr> {
    if blocks == [] then [] else Entries(blocks[..|blocks| - 1]) + blocks[|blocks| - 1]
  }

  /** The entries of the blocks in the order of the iterator: newest block first. */
  ghost function Backwards(blocks: Blocks): seq<Addr> {
    if blocks == [] then [] else blocks[|blocks| - 1] + Backwards(blocks[..|blocks| - 1])
  }

  /** Entries are only added: every block stays, and goes on with new entries. */
  ghost predicate Grows(blocks: Blocks, blocks': Blocks) {
    |blocks| <= |blocks'| && forall k :: 0 <= k < |blocks| ==> blocks[k] <= blocks'[k]
  }

  lemma GrowsTransitive(a: Blocks, b: Blocks, c: Blocks)
    requires Grows(a, b) && Grows(b, c)
    ensures Grows(a, c)
  {
    forall k | 0 <= k < |a|
      ensures a[k] <= c[k]
    {
      assert a[k] <= b[k] && b[k] <= c[k];
    }
  }

  lemma {:induction false} BackwardsIsPermutation(blocks: Blocks)
    ensures multiset(Backwards(blocks)) == multiset(Entries(blocks))
  {
    if blocks != [] {
      BackwardsIsPermutation(blocks[..|blocks| - 1]);
    }
  }

  lemma AddedEntry(blocks: Blocks, entry: Addr)
    requires blocks != []
    ensures var last := |blocks| - 1;
            Entries(blocks[last := blocks[last] + [entry]]) == Entries(blocks) + [entry]
  {
    var last := |blocks| - 1;
    assert blocks[last := blocks[last] + [entry]][..last] == blocks[..last];
  }

  lemma AddedBlock(blocks: Blocks)
    ensures Entries(blocks + [[]]) == Entries(blocks)
  {
    assert (blocks + [[]])[..|blocks|] == blocks;
  }

  /** What is left for an iterator that will return entry `next` of a block next and goes up to `blockEnd` there. */
  ghost function RemainingFrom(blocks: Blocks, block: nat, next: int, blockEnd: nat): seq<Addr>
    requires block < |blocks| && -1 <= next < blockEnd <= |blocks[block]|
  {
    if next == -1 then [] else blocks[block][next..blockEnd] + Backwards(blocks[..block])
  }

  lemma EntryIsTaken(blocks: Blocks, block: nat, next: nat, blockEnd: nat)
    requires block < |blocks| && next + 1 < blockEnd <= |blocks[block]|
    ensures RemainingFrom(blocks, block, next, blockEnd) == [blocks[block][next]] + RemainingFrom(blocks, block, next + 1, blockEnd)
  {
    hide Backwards;
    FirstOfSlice(blocks[block], next, blockEnd, Backwards(blocks[..block]));
  }

  lemma FirstOfSlice(s: seq<Addr>, i: nat, j: nat, rest: seq<Addr>)
    requires i < j <= |s|
    ensures s[i..j] + rest == [s[i]] + (s[i + 1..j] + rest)
  {
    var left, right := s[i..j] + rest, [s[i]] + (s[i + 1..j] + rest);
    assert |left| == |right|;
    assert forall k :: 0 <= k < |left| ==> left[k] == right[k];
  }

  lemma BlockIsLeft(blocks: Blocks, block: nat, blockEnd: nat)
    requires 0 < block < |blocks| && 0 < blockEnd <= |blocks[block]| && 0 < |blocks[block - 1]|
    ensures RemainingFrom(blocks, block, blockEnd - 1, blockEnd) ==
            [blocks[block][blockEnd - 1]] + RemainingFrom(blocks, block - 1, 0, |blocks[block - 1]|)
  {
    assert blocks[..block][..block - 1] == blocks[..block - 1];
    assert blocks[block - 1][0..|blocks[block - 1]|] == blocks[block - 1];
  }

  lemma LastIsTaken(blocks: Blocks, blockEnd: nat)
    requires blocks != [] && 0 < blockEnd <= |blocks[0]|
    ensures RemainingFrom(blocks, 0, blockEnd - 1, blockEnd) == [blocks[0][blockEnd - 1]]
  {
  }

  lemma SomeRemains(blocks: Blocks, block: nat, next: int, blockEnd: nat)
    requires block < |blocks| && -1 <= next < blockEnd <= |blocks[block]| && RemainingFrom(blocks, block, next, blockEnd) != []
    ensures 0 <= next
  {
  }

  /** An iterator starts with the newest entry block. */
  lemma AllRemain(blocks: Blocks, start: nat)
    requires AreBlocks(blocks)
    requires start == if |blocks[|blocks| - 1]| == 0 && |blocks| != 1 then |blocks| - 2 else |blocks| - 1
    ensures if 0 < |blocks[start]| then RemainingFrom(blocks, start, 0, |blocks[start]|) == Backwards(blocks) else Backwards(blocks) == []
  {
    var last := |blocks| - 1;
    assert blocks[..last][..start] == blocks[..start];
    assert blocks[start][0..|blocks[start]|] == blocks[start];
  }

  lemma NothingRemains(blocks: Blocks, block: nat, blockEnd: nat)
    requires block < |blocks| && blockEnd <= |blocks[block]|
    ensures RemainingFrom(blocks, block, -1, blockEnd) == []
  {
  }

  class RememberedSet {
    var blocks: Blocks

    ghost predicate Valid()
      reads this
    {
      AreBlocks(blocks)
    }

    ghost function Contents(): seq<Addr>
      reads this
    {
      Entries(blocks)
    }

    constructor ()
      ensures Valid() && Contents() == []
    {
      blocks := [[]];
    }

    /** rememberedSetAdd without the tag. */
    method Add(object': Addr)
      requires Valid()
      modifies this
      ensures Valid() && Contents() == old(Contents()) + [object'] && Grows(old(blocks), blocks)
    {
      var last := |blocks| - 1;
      AddedEntry(blocks, object');
      blocks := blocks[last := blocks[last] + [object']];
      if |blocks[last]| == BLOCK_SIZE {
        AddedBlock(blocks);
        blocks := blocks + [[]];
      }
    }

    /** rememberedSetReset: the newest block is kept and emptied. */
    method Reset()
      requires Valid()
      modifies this
      ensures Valid() && Contents() == []
    {
      blocks := [[]];
    }
  }

  class RememberedSetIterator {
    var block: nat
    var blockEnd: nat
    var hasPrevBlock: bool
    /** The index of the next entry in the block, or -1 for NULL. */
    var next: int

    ghost predicate Valid(blocks: Blocks)
      reads this
    {
      && AreBlocks(blocks)
      && block < |blocks| && blockEnd <= |blocks[block]|
      && hasPrevBlock == (block != 0)
      && -1 <= next < blockEnd
      && (next == -1 ==> block == 0)
    }

    /** The entries that the iterator has still to return, in its order. */
    ghost function Remaining(blocks: Blocks): seq<Addr>
      requires Valid(blocks)
      reads this
    {
      RemainingFrom(blocks, block, next, blockEnd)
    }

    /** initRememberedSetIterator: an empty newest block is skipped, unless it is the only one. */
    constructor (set': RememberedSet)
      requires set'.Valid()
      ensures Valid(set'.blocks) && Remaining(set'.blocks) == Backwards(set'.blocks)
    {
      hide RemainingFrom, Backwards;
      var last := |set'.blocks| - 1;
      var start := if |set'.blocks[last]| == 0 && last != 0 then last - 1 else last;
      block := start;
      blockEnd := |set'.blocks[start]|;
      hasPrevBlock := start != 0;
      next := if 0 < |set'.blocks[start]| then 0 else -1;
      new;
      AllRemain(set'.blocks, start);
      NothingRemains(set'.blocks, start, blockEnd);
    }

    /** rememberedSetIteratorSetBlock. */
    method SetBlock(set': RememberedSet, block': nat)
      requires AreBlocks(set'.blocks) && block' < |set'.blocks|
      modifies this
      ensures block == block' && blockEnd == |set'.blocks[block']| && hasPrevBlock == (block' != 0)
      ensures next == if 0 < blockEnd then 0 else -1
    {
      block := block';
      blockEnd := |set'.blocks[block']|;
      hasPrevBlock := block' != 0;
      next := if 0 < blockEnd then 0 else -1;
    }

    predicate HasNext(set': RememberedSet)
      requires Valid(set'.blocks)
      reads this, set'
      ensures HasNext(set') <==> Remaining(set'.blocks) != []
    {
      next != -1
    }

    method Next(set': RememberedSet) returns (entry: Addr)
      requires Valid(set'.blocks) && Remaining(set'.blocks) != []
      modifies this
      ensures Valid(set'.blocks)
      ensures old(Remaining(set'.blocks)) == [entry] + Remaining(set'.blocks)
    {
      hide RemainingFrom;
      SomeRemains(set'.blocks, block, next, blockEnd);
      ghost var blocks := set'.blocks;
      entry := set'.blocks[block][next];
      var next' := next + 1;
      if next' < blockEnd {
        EntryIsTaken(blocks, block, next, blockEnd);
        next := next';
      } else if hasPrevBlock {
        BlockIsLeft(blocks, block, blockEnd);
        SetBlock(set', block - 1);
      } else {
        LastIsTaken(blocks, blockEnd);
        next := -1;
        NothingRemains(blocks, block, blockEnd);
      }
    }

    /** Additions made between two steps are invisible to the iterator. */
    lemma RemainingIsStable(blocks: Blocks, blocks': Blocks)
      requires Valid(blocks) && AreBlocks(blocks') && Grows(blocks, blocks')
      ensures Valid(blocks') && Remaining(blocks') == Remaining(blocks)
    {
      forall k | 0 <= k < block
        ensures blocks'[k] == blocks[k]
      {
        assert |blocks[k]| == BLOCK_SIZE && |blocks'[k]| == BLOCK_SIZE;
      }
      assert blocks'[..block] == blocks[..block];
    }
  }
}
