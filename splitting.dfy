/** Handing a selected block to the caller: split off the unneeded tail when
    the block exceeds the request by more than one header's worth, then mark
    the block used. */
module Splitting {
  import opened Blocks
  import opened Selection

  /** The selected block is split when its payload exceeds the request by
      more than one header. */
  predicate Splits(b: Block, n: nat)
  {
    b.size > n + H
  }

  /** The list after block `i` is allocated for `n` bytes. */
  function Place(bs: seq<Block>, i: nat, n: nat): (r: seq<Block>)
    requires i < |bs| && Fits(bs[i], n)
    ensures |r| == if Splits(bs[i], n) then |bs| + 1 else |bs|
    ensures r[..i] == bs[..i]
    ensures !r[i].free && n <= r[i].size
    ensures Splits(bs[i], n) ==> r[i].size == n
    ensures !Splits(bs[i], n) ==> r[i].size == bs[i].size < n + H + 1
    ensures Splits(bs[i], n) ==>
              r[i + 1] == Block(bs[i].size - n - H, true) && r[i + 2..] == bs[i + 1..]
    ensures !Splits(bs[i], n) ==> r[i + 1..] == bs[i + 1..]
  {
    var b := bs[i];
    if Splits(b, n) then
      bs[..i] + [Block(n, false), Block(b.size - n - H, true)] + bs[i + 1..]
    else
      bs[..i] + [Block(b.size, false)] + bs[i + 1..]
  }

  /** Allocation keeps the pool tiled: a split-off header is carved out of
      the selected block's payload. */
  lemma PlaceKeepsSpan(bs: seq<Block>, i: nat, n: nat)
    requires i < |bs| && Fits(bs[i], n)
    ensures Span(Place(bs, i, n)) == Span(bs)
  {
    var r := Place(bs, i, n);
    SpanAround(bs, i);
    if Splits(bs[i], n) {
      SpanAround(r, i + 1);
      OffsetStep(r, i);
    } else {
      SpanAround(r, i);
    }
  }

  /** Allocation gives out the handle of the selected block's unchanged
      header, and a split-off header starts right after the `n` payload
      bytes. */
  lemma PlaceKeepsOffsets(bs: seq<Block>, i: nat, n: nat)
    requires i < |bs| && Fits(bs[i], n)
    ensures HandleAt(Place(bs, i, n), i) == HandleAt(bs, i)
    ensures Splits(bs[i], n) ==> Offset(Place(bs, i, n), i + 1) == HandleAt(bs, i) + n
  {
    if Splits(bs[i], n) {
      OffsetStep(Place(bs, i, n), i);
    }
  }

  /** The headers after the allocated block keep their positions, one
      element further on when a tail was split off. */
  lemma PlaceKeepsLaterOffsets(bs: seq<Block>, i: nat, n: nat, d: nat)
    requires i < |bs| && Fits(bs[i], n) && i + 1 + d <= |bs|
    ensures var q := if Splits(bs[i], n) then i + 2 else i + 1;
      q + d <= |Place(bs, i, n)| && Offset(Place(bs, i, n), q + d) == Offset(bs, i + 1 + d)
  {
    var r := Place(bs, i, n);
    var q := if Splits(bs[i], n) then i + 2 else i + 1;
    OffsetStep(bs, i);
    OffsetStep(r, i);
    if Splits(bs[i], n) {
      OffsetStep(r, i + 1);
    }
    OffsetShift(bs, r, i + 1, q, d);
  }

  /** Allocating block `i` leaves the handle of every other block valid: it
      still steps back to that block, unchanged. */
  lemma PlaceKeepsHandle(bs: seq<Block>, i: nat, n: nat, j: nat)
    requires i < |bs| && Fits(bs[i], n)
    requires j < |bs| && j != i
    ensures IsHandle(Place(bs, i, n), HandleAt(bs, j))
    ensures BlockOf(Place(bs, i, n), HandleAt(bs, j)) == bs[j]
  {
    var r := Place(bs, i, n);
    var k := if j < i then j else if Splits(bs[i], n) then j + 1 else j;
    if j < i {
      assert r[..j] == bs[..j];
    } else {
      PlaceKeepsLaterOffsets(bs, i, n, j - i - 1);
    }
    assert r[k] == bs[j];
    HandleRecoversHeader(r, k);
  }

  /** The handle given out for block `i` steps back to the newly used block,
      which holds at least `n` bytes inside the pool; it was not the handle
      of a used block before. */
  lemma PlaceHandsOut(bs: seq<Block>, i: nat, n: nat)
    requires i < |bs| && Fits(bs[i], n)
    ensures var r := Place(bs, i, n);
      HeaderAt(r, HandleAt(bs, i) - H) == Some(i) &&
      Live(r, HandleAt(bs, i)) && !Live(bs, HandleAt(bs, i)) &&
      n <= BlockOf(r, HandleAt(bs, i)).size &&
      HandleAt(bs, i) + BlockOf(r, HandleAt(bs, i)).size <= Span(bs)
  {
    var r := Place(bs, i, n);
    PlaceKeepsSpan(bs, i, n);
    PlaceKeepsOffsets(bs, i, n);
    HandleRecoversHeader(r, i);
    HandleRecoversHeader(bs, i);
    OffsetWithinSpan(r, i);
  }

  /** Every handle in use before an allocation is still in use after it and
      reaches the same block. */
  lemma PlaceKeepsLive(bs: seq<Block>, i: nat, n: nat)
    requires i < |bs| && Fits(bs[i], n)
    ensures forall g: nat :: Live(bs, g) ==>
              Live(Place(bs, i, n), g) && BlockOf(Place(bs, i, n), g) == BlockOf(bs, g)
  {
    forall g: nat | Live(bs, g)
      ensures Live(Place(bs, i, n), g) && BlockOf(Place(bs, i, n), g) == BlockOf(bs, g)
    {
      PlaceKeepsHandle(bs, i, n, HeaderAt(bs, g - H).value);
    }
  }

  /** Allocation never puts two free blocks side by side in a list that had
      none. */
  lemma PlaceKeepsCoalesced(bs: seq<Block>, i: nat, n: nat)
    requires i < |bs| && Fits(bs[i], n)
    requires Coalesced(bs)
    ensures Coalesced(Place(bs, i, n))
  {
  }

  /** Marking the allocated block free again gives back the list as it was
      before the allocation, except that a split block stays in two free
      halves. */
  lemma PlaceThenMarkFree(bs: seq<Block>, i: nat, n: nat)
    requires i < |bs| && Fits(bs[i], n)
    ensures var r := Place(bs, i, n);
      r[i := r[i].(free := true)] ==
        if Splits(bs[i], n)
        then bs[..i] + ([Block(n, true), Block(bs[i].size - n - H, true)] + bs[i + 1..])
        else bs
  {
  }
}
