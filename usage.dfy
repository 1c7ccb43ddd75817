/** Byte totals reported for the pool: payload in used blocks and payload in
    free blocks. */
module Usage {
  import opened Blocks

  /** Payload bytes held by used blocks. */
  function UsedBytes(bs: seq<Block>): nat
  {
    if bs == [] then 0
    else UsedBytes(bs[..|bs| - 1]) + (if bs[|bs| - 1].free then 0 else bs[|bs| - 1].size)
  }

  /** Payload bytes held by free blocks. */
  function FreeBytes(bs: seq<Block>): nat
  {
    if bs == [] then 0
    else FreeBytes(bs[..|bs| - 1]) + (if bs[|bs| - 1].free then bs[|bs| - 1].size else 0)
  }

  /** Used payload, free payload and one header per block make up the whole
      span of the list. */
  lemma {:induction false} UsageAccounts(bs: seq<Block>)
    ensures UsedBytes(bs) + FreeBytes(bs) + H * |bs| == Span(bs)
    decreases |bs|
  {
    if bs != [] {
      UsageAccounts(bs[..|bs| - 1]);
    }
  }
}
