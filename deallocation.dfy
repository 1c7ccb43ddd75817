/** Returning a block to the pool: mark its header free, then coalesce. */
module Deallocation {
  import opened Blocks
  import opened Selection
  import opened Splitting
  import opened Coalescing

  /** The list after block `i` is marked free and the list is coalesced. */
  function Release(bs: seq<Block>, i: nat): seq<Block>
    requires i < |bs|
  {
    MergeRuns(bs[i := bs[i].(free := true)])
  }

  /** The list after the block whose handle is `h` is given back. */
  function Free(bs: seq<Block>, h: nat): seq<Block>
    requires IsHandle(bs, h)
  {
    Release(bs, HeaderAt(bs, h - H).value)
  }

  /** Giving a block back keeps the pool tiled, leaves no two neighbouring
      free blocks, and never empties the list. */
  lemma ReleaseKeepsTiling(bs: seq<Block>, i: nat)
    requires i < |bs|
    ensures Span(Release(bs, i)) == Span(bs)
    ensures Coalesced(Release(bs, i))
    ensures Release(bs, i) != []
  {
    var m := bs[i := bs[i].(free := true)];
    SpanOfSizes(m, bs);
    MergeRunsKeepsSpan(m);
    MergeRunsCoalesced(m);
  }

  /** Giving back block `i` leaves the handle of every other used block
      valid: it still steps back to that block, unchanged. */
  lemma ReleaseKeepsHandle(bs: seq<Block>, i: nat, j: nat)
    requires i < |bs| && j < |bs| && j != i && !bs[j].free
    ensures IsHandle(Release(bs, i), HandleAt(bs, j))
    ensures BlockOf(Release(bs, i), HandleAt(bs, j)) == bs[j]
  {
    var m := bs[i := bs[i].(free := true)];
    SpanOfSizes(m[..j], bs[..j]);
    var k := MergeRunsKeepsUsedAt(m, j);
    HandleRecoversHeader(Release(bs, i), k);
  }

  /** Every other handle in use before a deallocation is still in use after
      it and reaches the same block. */
  lemma FreeKeepsLive(bs: seq<Block>, h: nat)
    requires IsHandle(bs, h)
    ensures forall g: nat :: Live(bs, g) && g != h ==>
              Live(Free(bs, h), g) && BlockOf(Free(bs, h), g) == BlockOf(bs, g)
  {
    var i := HeaderAt(bs, h - H).value;
    forall g: nat | Live(bs, g) && g != h
      ensures Live(Free(bs, h), g) && BlockOf(Free(bs, h), g) == BlockOf(bs, g)
    {
      ReleaseKeepsHandle(bs, i, HeaderAt(bs, g - H).value);
    }
  }

  /** The handle given back is no longer in use: after coalescing, its
      address either starts no header or starts a free block. */
  lemma FreeEndsLive(bs: seq<Block>, h: nat)
    requires IsHandle(bs, h)
    ensures !Live(Free(bs, h), h)
  {
    var i := HeaderAt(bs, h - H).value;
    var m := bs[i := bs[i].(free := true)];
    var r := MergeRuns(m);
    SpanOfSizes(m[..i], bs[..i]);
    if IsHandle(r, h) {
      var k := HeaderAt(r, h - H).value;
      var j := MergeRunsHeaderOrigin(m, k);
      if j < i {
        OffsetsIncrease(m, j, i);
      } else if i < j {
        OffsetsIncrease(m, i, j);
      }
    }
  }

  /** In a coalesced list, a free block split into two free halves merges
      back into the original block. */
  lemma RejoinSplit(bs: seq<Block>, i: nat, n: nat, rem: nat)
    requires Coalesced(bs)
    requires i < |bs| && bs[i].free && bs[i].size == n + H + rem
    ensures MergeRuns(bs[..i] + ([Block(n, true), Block(rem, true)] + bs[i + 1..])) == bs
  {
    var b := bs[i];
    var tail := bs[i + 1..];
    var run := [Block(n, true), Block(rem, true)] + tail;
    CoalescedSlice(bs, 0, i);
    if i > 0 {
      assert bs[..i][i - 1] == bs[i - 1];
    }
    MergeRunsPrefix(bs[..i], run);
    assert run[0].free && run[1].free && run[2..] == tail;
    assert Block(n + H + rem, true) == b;
    assert MergeRuns(run) == MergeRuns([b] + tail);
    CoalescedSlice(bs, i, |bs|);
    assert bs[i..] == [b] + tail;
    MergeRunsFixpoint([b] + tail);
    assert bs == bs[..i] + ([b] + tail);
  }

  /** Allocating `n` bytes from free block `i` of a coalesced list and then
      giving the returned handle back restores the list exactly: a split-off
      tail merges back into the block it came from. */
  lemma AllocateThenFree(bs: seq<Block>, i: nat, n: nat)
    requires Coalesced(bs)
    requires i < |bs| && Fits(bs[i], n)
    ensures IsHandle(Place(bs, i, n), HandleAt(bs, i))
    ensures Free(Place(bs, i, n), HandleAt(bs, i)) == bs
  {
    var r := Place(bs, i, n);
    PlaceKeepsOffsets(bs, i, n);
    HandleRecoversHeader(r, i);
    assert Free(r, HandleAt(bs, i)) == MergeRuns(r[i := r[i].(free := true)]);
    PlaceThenMarkFree(bs, i, n);
    if Splits(bs[i], n) {
      RejoinSplit(bs, i, n, bs[i].size - n - H);
    } else {
      MergeRunsFixpoint(bs);
    }
  }
}
