/** Block headers of the pool, laid out in address order, and the arithmetic
    that places a header and its handle inside the pool. */
module Blocks {

  /** Bytes taken by one block header: sizeof(MemoryBlock) on a 64-bit
      target (an 8-byte size, a flag padded to 8 bytes, an 8-byte link). */
  const H: nat := 24

  datatype Option<T> = None | Some(value: T)

  /** The block-selection policy used by the next allocation. */
  datatype Strategy = FirstFit | BestFit | WorstFit

  /** One block header: the payload bytes that follow the header and whether
      the block is free. The header's `next` link is the block's successor in
      the sequence that holds it. */
  datatype Block = Block(size: nat, free: bool)

  /** Bytes covered by `bs`: every block's header plus its payload. */
  function Span(bs: seq<Block>): nat
  {
    if bs == [] then 0 else Span(bs[..|bs| - 1]) + H + bs[|bs| - 1].size
  }

  /** Position of block `i`'s header, relative to the start of the pool. */
  function Offset(bs: seq<Block>, i: nat): nat
    requires i <= |bs|
  {
    Span(bs[..i])
  }

  /** The handle given out for block `i`: the address just past its header. */
  function HandleAt(bs: seq<Block>, i: nat): nat
    requires i < |bs|
  {
    Offset(bs, i) + H
  }

  /** No two neighbouring blocks are both free. */
  predicate Coalesced(bs: seq<Block>)
  {
    forall i :: 0 <= i && i + 1 < |bs| ==> !(bs[i].free && bs[i + 1].free)
  }

  /** Every stretch of a coalesced list is coalesced. */
  lemma CoalescedSlice(bs: seq<Block>, lo: nat, hi: nat)
    requires Coalesced(bs) && lo <= hi <= |bs|
    ensures Coalesced(bs[lo..hi])
  {
  }

  lemma {:induction false} SpanConcat(a: seq<Block>, b: seq<Block>)
    ensures Span(a + b) == Span(a) + Span(b)
    decreases |b|
  {
    if b == [] {
      assert a + b == a;
    } else {
      var b' := b[..|b| - 1];
      assert (a + b)[..|a + b| - 1] == a + b';
      SpanConcat(a, b');
    }
  }

  /** Span depends only on the blocks' sizes, not on their flags. */
  lemma {:induction false} SpanOfSizes(a: seq<Block>, b: seq<Block>)
    requires |a| == |b|
    requires forall k :: 0 <= k < |a| ==> a[k].size == b[k].size
    ensures Span(a) == Span(b)
    decreases |a|
  {
    if a != [] {
      SpanOfSizes(a[..|a| - 1], b[..|b| - 1]);
    }
  }

  /** Span of a list seen from its head block. */
  lemma SpanCons(x: Block, rest: seq<Block>)
    ensures Span([x] + rest) == H + x.size + Span(rest)
  {
    assert [x][..0] == [];
    SpanConcat([x], rest);
  }

  /** The header after block `i` starts right past block `i`'s payload. */
  lemma OffsetStep(bs: seq<Block>, i: nat)
    requires i < |bs|
    ensures Offset(bs, i + 1) == Offset(bs, i) + H + bs[i].size
  {
    assert bs[..i + 1][..i] == bs[..i];
  }

  /** Offsets seen from the list's head block. */
  lemma OffsetCons(x: Block, rest: seq<Block>, k: nat)
    requires k <= |rest|
    ensures Offset([x] + rest, k + 1) == H + x.size + Offset(rest, k)
  {
    assert ([x] + rest)[..k + 1] == [x] + rest[..k];
    SpanCons(x, rest[..k]);
  }

  /** Two lists that agree from positions `p` and `q` on, and whose headers
      at `p` and `q` start at the same place, keep their headers at the same
      places `d` blocks further on. */
  lemma OffsetShift(bs: seq<Block>, r: seq<Block>, p: nat, q: nat, d: nat)
    requires p + d <= |bs| && q <= |r|
    requires Offset(r, q) == Offset(bs, p)
    requires r[q..] == bs[p..]
    ensures q + d <= |r| && Offset(r, q + d) == Offset(bs, p + d)
  {
    assert r[q..q + d] == r[q..][..d] == bs[p..][..d] == bs[p..p + d];
    assert bs[..p + d] == bs[..p] + bs[p..p + d];
    assert r[..q + d] == r[..q] + r[q..q + d];
    SpanConcat(bs[..p], bs[p..p + d]);
    SpanConcat(r[..q], r[q..q + d]);
  }

  /** Headers lie at strictly increasing positions along the list. */
  lemma {:induction false} OffsetsIncrease(bs: seq<Block>, i: nat, j: nat)
    requires i < j <= |bs|
    ensures Offset(bs, i) + H <= Offset(bs, j)
    decreases j - i
  {
    OffsetStep(bs, j - 1);
    if i < j - 1 {
      OffsetsIncrease(bs, i, j - 1);
    }
  }

  /** The span of a list split around block `i`. */
  lemma SpanAround(bs: seq<Block>, i: nat)
    requires i < |bs|
    ensures Span(bs) == Offset(bs, i) + H + bs[i].size + Span(bs[i + 1..])
  {
    OffsetStep(bs, i);
    assert bs == bs[..i + 1] + bs[i + 1..];
    SpanConcat(bs[..i + 1], bs[i + 1..]);
  }

  /** Every header lies inside the span of the whole list. */
  lemma OffsetWithinSpan(bs: seq<Block>, i: nat)
    requires i < |bs|
    ensures Offset(bs, i) + H + bs[i].size <= Span(bs)
  {
    SpanAround(bs, i);
  }

  /** Searches the list from block `k` on for the header that starts at
      `off`: what stepping one header back from a handle reaches. */
  function HeaderFrom(bs: seq<Block>, off: nat, k: nat): (r: Option<nat>)
    requires k <= |bs|
    ensures r.Some? ==> k <= r.value < |bs| && Offset(bs, r.value) == off
    decreases |bs| - k
  {
    if k == |bs| then None
    else if Offset(bs, k) == off then Some(k)
    else HeaderFrom(bs, off, k + 1)
  }

  /** The block whose header starts at `off`, if any. */
  function HeaderAt(bs: seq<Block>, off: nat): Option<nat>
  {
    HeaderFrom(bs, off, 0)
  }

  /** `h` is one header past the start of some block of `bs`. */
  predicate IsHandle(bs: seq<Block>, h: nat)
  {
    H <= h && HeaderAt(bs, h - H).Some?
  }

  /** The block reached by stepping one header back from handle `h`. */
  function BlockOf(bs: seq<Block>, h: nat): Block
    requires IsHandle(bs, h)
  {
    bs[HeaderAt(bs, h - H).value]
  }

  /** `h` is the handle of a block that is currently allocated. */
  predicate Live(bs: seq<Block>, h: nat)
  {
    IsHandle(bs, h) && !BlockOf(bs, h).free
  }

  lemma {:induction false} HeaderFromFinds(bs: seq<Block>, i: nat, k: nat)
    requires k <= i < |bs|
    ensures HeaderFrom(bs, Offset(bs, i), k) == Some(i)
    decreases i - k
  {
    if k < i {
      OffsetsIncrease(bs, k, i);
      HeaderFromFinds(bs, i, k + 1);
    }
  }

  /** Going back one header from block `i`'s handle recovers block `i`, and
      no other block: a handle identifies its block. */
  lemma HandleRecoversHeader(bs: seq<Block>, i: nat)
    requires i < |bs|
    ensures IsHandle(bs, HandleAt(bs, i))
    ensures HeaderAt(bs, HandleAt(bs, i) - H) == Some(i)
    ensures BlockOf(bs, HandleAt(bs, i)) == bs[i]
  {
    HeaderFromFinds(bs, i, 0);
  }
}
