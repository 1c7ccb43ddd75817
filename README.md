# SmartAllocator pool engine, modelled in Dafny

`SmartAllocator` carves one fixed-size pool into blocks. Each block starts with
a header (`MemoryBlock`: payload `size`, `free` flag, `next` link). The headers
form a chain in address order that tiles the whole pool. An allocation picks a
free block by first fit, best fit or worst fit. It splits off the tail when
the block exceeds the request by more than one header's worth, and it
returns the address just past the header. A deallocation steps back one header from that address, marks the
block free and merges every run of neighbouring free blocks in one forward
pass. A usage report totals the used and free payload.

The engine is first.cpp. The files one.cpp, coalesce.cpp, two.cpp,
allocator.cpp and print.cpp repeat pieces of it: `findBlock`, `coalesce`,
`deallocate`, the constructor with `setStrategy`, and `printMemoryUsage`.

The model:

- `Blocks` (blocks.dfy): the header record `Block(size, free)`. The header
  size `H` is 24, which is `sizeof(MemoryBlock)` on a 64-bit target. The chain
  is a `seq<Block>` in address order, so a header's `next` is the following
  element. `Span` is the bytes covered (header plus payload per block).
  `Offset` is a header's position in the pool. `HandleAt` is the address
  handed out (`Offset + H`). `HeaderAt` finds the header at a position, which
  is what stepping one header back from a handle reaches.
- `Selection` (selection.dfy): `IsChoice` says, without reference to the
  traversal, which block each strategy must select. `Choice` is that block,
  or `None`.
- `Splitting` (splitting.dfy): `Place` gives the list after a selected block
  is split (when its size exceeds the request by more than `H`) and marked
  used.
- `Coalescing` (coalescing.dfy): `MergeRuns` is the reference definition of
  the coalescing pass. `MergeAt` is one merge step of that pass.
- `Deallocation` (deallocation.dfy): `Release`/`Free` give the list after a
  block is marked free and coalesced. This file also holds the
  allocate-then-free round trip.
- `Usage` (usage.dfy): used and free payload totals.
- `Allocator` (allocator.dfy): class `SmartAllocator` with the fields
  `blocks`, `poolSize` and `strategy`, and the methods of the C++ class.
  `FindBlock`, `Coalesce` and `MemoryUsage` keep the source's loops and are
  proved against the functions above. `Valid()` holds in every reachable
  state: the list is non-empty, it tiles the pool exactly, and no two
  neighbouring blocks are both free.

Behaviour worth noting:

- A request of 0 bytes is served like any other; it is not rejected.
- A block is split only when its size exceeds the request by strictly more
  than one header. A block with exactly `H` spare bytes is handed out whole.
- No two neighbouring blocks are free after any operation, not only after
  deallocation, because an allocation never creates a free pair.
- Allocating from a block and then freeing it restores the list exactly,
  split or not.
- A handle stays valid while its block is allocated: other allocations and
  deallocations never move a used block's header or change its size, so a
  caller may hold several handles and give them back in any order. A handle
  that has been given back no longer reaches a used block.

## Model

| member | source | states |
|---|---|---|
| `Allocator.SmartAllocator.constructor` | first.cpp:73-90 | one free block of `size - H` bytes covers the pool; the strategy defaults to first fit; the pool is tiled; needs `size >= H` (unsigned subtraction) |
| `Allocator.SmartAllocator.SetStrategy` | first.cpp:92-94 | only the strategy changes; the block list and pool size stay as they were |
| `Allocator.SmartAllocator.FindBlock` | first.cpp:54-70 | read-only walk; returns None exactly when no free block has size >= n, otherwise the block the strategy selects (`IsChoice`), including the early return for first fit and strict `<` / `>` tie-breaking |
| `Allocator.SmartAllocator.Allocate` | first.cpp:96-120 | failure (None) exactly when no free block fits, with the list unchanged; otherwise the handle is the selected block's offset + H, stepping back from it reaches the selected block, and the new list is `Place` of the old one; the new handle was not in use before, is in use now, and its block holds at least n bytes inside the pool; every handle in use before still reaches its unchanged block; the pool stays tiled and coalesced |
| `Allocator.SmartAllocator.Deallocate` | first.cpp:122-130 | a None handle changes nothing; otherwise the header one header-width before the handle is marked free and the list coalesced (`Free`); the handle given back is no longer in use; every other handle in use still reaches its unchanged block; tiling and "no adjacent free blocks" hold afterwards |
| `Allocator.SmartAllocator.Coalesce` | first.cpp:33-44 | the in-place pass (grow, unlink, stay; or advance) terminates and produces `MergeRuns` of the old list |
| `Allocator.SmartAllocator.MemoryUsage` | first.cpp:135-154 | read-only walk visiting every block once; used = payload of used blocks, free = payload of free blocks, block count = list length, and used + free + H * count = pool size |
| `Selection.Choice` | first.cpp:58-69 | None exactly when no free block has size >= n; otherwise a block satisfying the strategy's selection rule |
| `Selection.ChoiceUnique` | first.cpp:61-65 | each strategy's rule (earliest fit; smallest, earliest among equals; largest, earliest among equals) picks at most one block |
| `Selection.ChoiceExists` | one.cpp:13-24 | whenever some free block fits, every strategy's rule picks one |
| `Selection.StrategyExample` | one.cpp:15-20 | free blocks of 50, 200, 80 and a request of 60: first fit picks the 200 block, best fit the 80 block, worst fit the 200 block |
| `Splitting.Place` | first.cpp:107-116 | the selected block becomes used with size >= n; when split, its size is exactly n and a free block of `old - n - H` follows it, taking over the old successor; otherwise its size is unchanged and < n + H + 1; all other blocks are unchanged |
| `Splitting.PlaceKeepsSpan` | first.cpp:107-116 | allocation keeps the sum of header + payload equal to the pool size |
| `Splitting.PlaceKeepsOffsets` | first.cpp:107-119 | the handle is unchanged by the split; the new header sits n bytes past the handle |
| `Splitting.PlaceKeepsLaterOffsets` | first.cpp:108-112 | the headers after the allocated block stay at their addresses, one position further along the chain when a tail was split off |
| `Splitting.PlaceKeepsHandle` | first.cpp:107-116 | allocating one block leaves the handle of every other block valid, reaching the same block unchanged |
| `Splitting.PlaceHandsOut` | first.cpp:116-119 | the returned handle steps back to the selected block, now used with at least n bytes that end inside the pool; it was not the handle of a used block before |
| `Splitting.PlaceKeepsLive` | first.cpp:96-120 | every handle in use before an allocation is still in use after it and reaches the same block |
| `Splitting.PlaceKeepsCoalesced` | first.cpp:107-116 | allocating from a list with no adjacent free blocks leaves none |
| `Splitting.PlaceThenMarkFree` | first.cpp:107-116 | setting the allocated block's flag back to free restores the old list when no split happened, and leaves the block as two free halves (n and old - n - H) when it was split |
| `Coalescing.MergeRuns` | coalesce.cpp:9-17 | the pass never lengthens the list, keeps it non-empty and keeps the first block's flag |
| `Coalescing.MergeAt` | coalesce.cpp:11-12 | a merge grows the earlier block by H + the later block's size and unlinks the later block, leaving all others in place |
| `Coalescing.MergeAtKeepsSpan` | coalesce.cpp:11-12 | one merge keeps the tiling sum |
| `Coalescing.MergeAtStep` | coalesce.cpp:10-14 | merging two free neighbours and staying at the same block does not change the pass's result |
| `Coalescing.AdvanceStep` | coalesce.cpp:15-16 | advancing past a block that does not start a free pair does not change the pass's result |
| `Coalescing.MergeRunsKeepsHead` | coalesce.cpp:10-16 | a block not followed by a free neighbour (or not free itself) passes through the pass unchanged |
| `Coalescing.MergeRunsKeepsSpan` | coalesce.cpp:11-12 | the whole pass keeps the tiling sum |
| `Coalescing.MergeRunsCoalesced` | coalesce.cpp:9-17 | after the pass no two neighbouring blocks are both free |
| `Coalescing.MergeRunsKeepsUsed` | coalesce.cpp:10-16 | used blocks keep their sizes, flags and relative order |
| `Coalescing.MergeRunsKeepsUsedAt` | coalesce.cpp:9-17 | a used block comes through the pass unchanged with its header at the same address |
| `Coalescing.MergeRunsHeaderOrigin` | coalesce.cpp:9-17 | every header left by the pass was a header of its input, at the same address and with the same flag |
| `Coalescing.MergeRunsSplit` | coalesce.cpp:9-17 | a used block separates the pass into two independent halves, so a run anywhere in the list is merged as a run at the front would be |
| `Coalescing.MergeRunsRun` | coalesce.cpp:10-14 | a run of k free blocks becomes one free block at the run's start of size (sum of sizes) + (k - 1) * H |
| `Coalescing.MergeRunsFixpoint` | coalesce.cpp:9-17 | a list with no adjacent free blocks is left unchanged |
| `Coalescing.MergeRunsIdempotent` | coalesce.cpp:9-17 | running the pass again on its output changes nothing |
| `Coalescing.MergeRunsPrefix` | coalesce.cpp:9-17 | a coalesced prefix that cannot merge with what follows passes through unchanged |
| `Blocks.HandleRecoversHeader` | two.cpp:4 | stepping back one header from a block's handle reaches exactly that block's header, so a handle identifies its block |
| `Blocks.HeaderFrom` | first.cpp:125 | a header found for a position starts exactly at that position |
| `Blocks.OffsetWithinSpan` | first.cpp:108 | every block's header and payload lie inside the tiled pool |
| `Blocks.OffsetsIncrease` | first.cpp:108-112 | along the `next` chain, headers lie at strictly increasing addresses, at least one header apart |
| `Deallocation.ReleaseKeepsTiling` | two.cpp:4-7 | marking a block free and coalescing keeps the tiling sum, leaves no adjacent free blocks and keeps the list non-empty |
| `Deallocation.ReleaseKeepsHandle` | two.cpp:4-7 | freeing one block leaves the handle of every other used block valid, reaching the same block unchanged |
| `Deallocation.FreeEndsLive` | first.cpp:122-130 | after a deallocation the handle given back no longer reaches a used block, even after coalescing |
| `Deallocation.FreeKeepsLive` | first.cpp:122-130 | every other handle in use before a deallocation is still in use after it and reaches the same block |
| `Deallocation.RejoinSplit` | first.cpp:107-114 | a block split into two free halves merges back into the original block |
| `Deallocation.AllocateThenFree` | two.cpp:4-7 | from a list with no adjacent free blocks, allocating from any fitting free block and then freeing the returned handle restores the list exactly |
| `Allocator.TestStrategy` | first.cpp:185-196 | ten allocations of 100, 150 and 200 bytes, then every second handle given back: each handle passed back is in use, the pool stays tiled and coalesced, and the blocks of the handles kept are still allocated |
| `Usage.UsageAccounts` | print.cpp:8-15 | used payload + free payload + H per block = the tiling sum, hence the pool size |

## Left out

- The spin lock (`lockAllocator`/`unlockAllocator`, the `atomic_flag`) is not modelled. Operations run one at a time, so lock and unlock are no-ops.
- Reserving and releasing the pool is not modelled: `posix_memalign`/`_aligned_malloc`, the 64-byte `ALIGNMENT`, `bad_alloc` and the destructor's `free`. These are calls into the C runtime. The pool is an abstract capacity `poolSize`, and construction requires `poolSize >= H`.
- Addresses are offsets from the start of the pool, and the null handle is `None`. The pointer arithmetic of `block + 1` and `ptr - 1` becomes `HandleAt` and `HeaderAt`. `HeaderAt` searches for the header instead of subtracting. Aliasing between the list and the pool bytes is not modelled.
- The header chain is a sequence that the methods reassign. Relinking `next` pointers in place becomes inserting or removing elements.
- `__builtin_prefetch` is a cache hint with no effect on results.
- Console output (`cout`) is left out.
- `printMemoryMap` is left out. It draws a bar from a floating-point ratio and is display only.
- The drivers `simulateCodeInput` (regex and stdin parsing) and the interactive `main` menu are left out. `testStrategy` is modelled without its console output and its calls to `printMemoryUsage` and `printMemoryMap`.
- Allocator.SmartAllocator.Deallocate: requires a handle that steps back to an existing header. A foreign handle, or one whose block was absorbed by coalescing, is undefined behaviour in the source. Freeing a block that is already free but still has its header is allowed, as in the source.
- Allocator.SmartAllocator.Allocate: sizes are unbounded naturals, so `size + sizeof(MemoryBlock)` never wraps. The 64-bit wrap would need a request within `H` bytes of 2^64, and no block of a real pool is that large, so the request could not fit anyway.
- Allocator.SmartAllocator.constructor: `poolSize - sizeof(MemoryBlock)` would wrap for a pool smaller than one header. The model excludes that case by its precondition and does not model the wrap.
