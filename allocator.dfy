/** The pool allocator: a fixed-capacity pool tiled by an address-ordered
    list of block headers, a selection strategy, and the operations that
    allocate, free and report on blocks. */
module Allocator {
  import opened Blocks
  import opened Selection
  import opened Splitting
  import opened Coalescing
  import opened Deallocation
  import opened Usage

  class SmartAllocator {
    /** The header chain, in address order; a header's `next` is the
        following element. */
    var blocks: seq<Block>
    /** Capacity of the pool in bytes. */
    var poolSize: nat
    var strategy: Strategy

    /** The list is never empty, tiles the pool exactly, and never holds two
        neighbouring free blocks. */
    ghost predicate Valid()
      reads this
    {
      blocks != [] && Span(blocks) == poolSize && Coalesced(blocks)
    }

    /** One free block covers the whole pool; the pool must have room for
        its header. */
    constructor (size: nat, strat: Strategy := FirstFit)
      requires H <= size
      ensures Valid()
      ensures blocks == [Block(size - H, true)]
      ensures poolSize == size && strategy == strat
    {
      poolSize := size;
      strategy := strat;
      blocks := [Block(size - H, true)];
      SpanCons(Block(size - H, true), []);
    }

    /** Changes the strategy used by later allocations and nothing else. */
    method SetStrategy(strat: Strategy)
      modifies this`strategy
      ensures strategy == strat
      ensures blocks == old(blocks) && poolSize == old(poolSize)
    {
      strategy := strat;
    }

    /** Walks the list once, without changing it, and returns the block the
        current strategy selects for `n` bytes. */
    method FindBlock(n: nat) returns (r: Option<nat>)
      ensures r.None? <==> NoFit(blocks, n)
      ensures r.Some? ==> IsChoice(blocks, n, strategy, r.value)
      ensures r == Choice(blocks, n, strategy)
    {
      var current := 0;
      r := None;
      while current < |blocks|
        invariant current <= |blocks|
        invariant strategy == FirstFit ==> r.None?
        invariant r.None? <==> NoFit(blocks[..current], n)
        invariant r.Some? ==> IsChoice(blocks[..current], n, strategy, r.value)
      {
        var b := blocks[current];
        if b.free && b.size >= n {
          if strategy == FirstFit {
            r := Some(current);
            assert IsChoice(blocks, n, strategy, current) by {
              assert forall j :: 0 <= j < current ==> blocks[j] == blocks[..current][j];
            }
            ChoiceUnique(blocks, n, strategy, current, Choice(blocks, n, strategy).value);
            return;
          }
          if r.None? {
            r := Some(current);
          } else if strategy == BestFit && b.size < blocks[r.value].size {
            r := Some(current);
          } else if strategy == WorstFit && b.size > blocks[r.value].size {
            r := Some(current);
          }
        }
        assert blocks[..current + 1] == blocks[..current] + [b];
        current := current + 1;
      }
      assert blocks[..current] == blocks;
      if r.Some? {
        ChoiceUnique(blocks, n, strategy, r.value, Choice(blocks, n, strategy).value);
      }
    }

    /** Allocates `n` bytes from the block the strategy selects, splitting off
        the tail when it exceeds the request by more than one header's worth;
        returns the handle just past the block's header, or None (and changes
        nothing) when no free block is large enough. The new handle was not
        in use before, its payload lies inside the pool, and every handle in
        use before still reaches its block, unchanged. */
    method Allocate(n: nat) returns (h: Option<nat>)
      requires Valid()
      modifies this`blocks
      ensures Valid()
      ensures h.None? <==> NoFit(old(blocks), n)
      ensures match Choice(old(blocks), n, strategy)
                case None => h.None? && blocks == old(blocks)
                case Some(i) =>
                  h == Some(HandleAt(old(blocks), i)) && blocks == Place(old(blocks), i, n) &&
                  HeaderAt(blocks, h.value - H) == Some(i)
      ensures h.Some? ==> Live(blocks, h.value) && !Live(old(blocks), h.value)
      ensures h.Some? ==>
                n <= BlockOf(blocks, h.value).size &&
                h.value + BlockOf(blocks, h.value).size <= poolSize
      ensures forall g: nat :: Live(old(blocks), g) ==>
                Live(blocks, g) && BlockOf(blocks, g) == BlockOf(old(blocks), g)
    {
      var found := FindBlock(n);
      if found.None? {
        return None;
      }
      var i := found.value;
      ghost var before := blocks;
      // the facts about the new list, stated for the selected block
      PlaceKeepsSpan(before, i, n);
      PlaceKeepsOffsets(before, i, n);
      PlaceKeepsCoalesced(before, i, n);
      PlaceHandsOut(before, i, n);
      PlaceKeepsLive(before, i, n);
      var b := blocks[i];
      if b.size > n + H {
        blocks := blocks[..i + 1] + [Block(b.size - n - H, true)] + blocks[i + 1..];
        blocks := blocks[i := b.(size := n)];
      }
      blocks := blocks[i := blocks[i].(free := false)];
      assert blocks == Place(before, i, n);
      h := Some(HandleAt(blocks, i));
    }

    /** Gives back the block whose handle is `h`: the header one header-width
        before the handle is marked free and the list is coalesced. A None
        handle is ignored. The handle given back is no longer in use; every
        other handle in use still reaches its block, unchanged. */
    method Deallocate(h: Option<nat>)
      requires Valid()
      requires h.Some? ==> IsHandle(blocks, h.value)
      modifies this`blocks
      ensures Valid()
      ensures h.None? ==> blocks == old(blocks)
      ensures h.Some? ==> blocks == Free(old(blocks), h.value)
      ensures h.Some? ==> !Live(blocks, h.value)
      ensures forall g: nat :: Live(old(blocks), g) && h != Some(g) ==>
                Live(blocks, g) && BlockOf(blocks, g) == BlockOf(old(blocks), g)
    {
      if h.None? {
        return;
      }
      var i := HeaderAt(blocks, h.value - H).value;
      blocks := blocks[i := blocks[i].(free := true)];
      Coalesce();
      ReleaseKeepsTiling(old(blocks), i);
      FreeKeepsLive(old(blocks), h.value);
      FreeEndsLive(old(blocks), h.value);
    }

    /** One forward pass that merges every free block into a free
        predecessor, staying at the same block after each merge. */
    method Coalesce()
      modifies this`blocks
      ensures blocks == MergeRuns(old(blocks))
    {
      var current := 0;
      while current + 1 < |blocks|
        invariant current <= |blocks|
        invariant MergeRuns(old(blocks)) == blocks[..current] + MergeRuns(blocks[current..])
        decreases |blocks| - current
      {
        if blocks[current].free && blocks[current + 1].free {
          MergeAtStep(blocks, current);
          ghost var prev := blocks;
          // grow the earlier block by the later one's header and payload
          blocks := blocks[current := blocks[current].(size := blocks[current].size + H + blocks[current + 1].size)];
          // unlink the later block
          blocks := blocks[..current + 1] + blocks[current + 2..];
          assert blocks == MergeAt(prev, current);
        } else {
          AdvanceStep(blocks, current);
          current := current + 1;
        }
      }
      assert blocks == blocks[..current] + blocks[current..];
    }

    /** Walks the list once, without changing it, and totals the payload of
        used and of free blocks and the number of blocks. */
    method MemoryUsage() returns (used: nat, totalFree: nat, blockNum: nat)
      requires Valid()
      ensures used == UsedBytes(blocks) && totalFree == FreeBytes(blocks)
      ensures blockNum == |blocks|
      ensures used + totalFree + H * blockNum == poolSize
    {
      used, totalFree, blockNum := 0, 0, 0;
      while blockNum < |blocks|
        invariant blockNum <= |blocks|
        invariant used == UsedBytes(blocks[..blockNum])
        invariant totalFree == FreeBytes(blocks[..blockNum])
      {
        var b := blocks[blockNum];
        assert blocks[..blockNum + 1][..blockNum] == blocks[..blockNum];
        if b.free {
          totalFree := totalFree + b.size;
        } else {
          used := used + b.size;
        }
        blockNum := blockNum + 1;
      }
      assert blocks[..blockNum] == blocks;
      UsageAccounts(blocks);
    }
  }

  /** The strategy exercise: ten allocations of 100, 150 and 200 bytes in
      turn, then every second handle given back, starting with the first.
      Every handle passed back is one in use, and the blocks of the handles
      kept are still allocated at the end. */
  method TestStrategy(a: SmartAllocator) returns (ptrs: seq<Option<nat>>)
    requires a.Valid()
    modifies a`blocks
    ensures a.Valid()
    ensures |ptrs| == 10
    ensures forall k :: 0 <= k < |ptrs| && k % 2 == 1 && ptrs[k].Some? ==>
              Live(a.blocks, ptrs[k].value)
  {
    ptrs := [];
    while |ptrs| < 10
      invariant a.Valid()
      invariant |ptrs| <= 10
      invariant forall k :: 0 <= k < |ptrs| && ptrs[k].Some? ==> Live(a.blocks, ptrs[k].value)
      invariant forall k, l :: 0 <= k < l < |ptrs| && ptrs[k].Some? ==> ptrs[k] != ptrs[l]
    {
      var p := a.Allocate(100 + (|ptrs| % 3) * 50);
      ptrs := ptrs + [p];
    }
    var i := 0;
    while i < |ptrs|
      invariant a.Valid()
      invariant i % 2 == 0
      invariant forall k :: 0 <= k < |ptrs| && (i <= k || k % 2 == 1) && ptrs[k].Some? ==>
                  Live(a.blocks, ptrs[k].value)
    {
      a.Deallocate(ptrs[i]);
      i := i + 2;
    }
  }
}
