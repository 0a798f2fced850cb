# Aligned arena allocator for an embedded Lua state

This project models `AlignedArenaAllocator` from `src/main.cpp`. It is the
allocator a Lua interpreter is given through its `l_alloc` callback. It has
four parts:

- A caller-supplied byte buffer `[begin, end]`, where `end` is the buffer's
  last byte. Blocks are carved from it by a bump cursor `curr`.
- An 8-byte alignment step done with `std::align` (section 23.10.5
  [ptr.align] of ISO C++17). It is given the remaining `pool_size` as its
  space.
- A LIFO free list for the one recycled size class, 64 bytes. It is linked
  intrusively: a freed block's first word holds the next node.
- A fallback to the global heap (`::operator new` / `::operator delete`).
  Any pointer outside `[begin, end]` is routed to it.

The model has two layers.

- `ArenaModel` holds the allocator's fields as a value, `Pool`, and each
  operation as a step function on it (`AllocateStep`, `DeallocateStep`,
  `ReallocateStep`, `ResetStep`, `Construct`).
  - The invariant `Layout` covers the blocks carved since the last reset
    and not yet given up, free or handed out. Each such block is 8-aligned,
    lies in the buffer below the cursor and below `end`, and overlaps no
    other. Every free-list node is a distinct 64-byte block among them.
  - Lemmas prove that each step keeps `Layout`.
- `Arena` holds the imperative classes.
  - `AlignedArenaAllocator` is a class with the source's fields, and its
    methods update them in place.
  - The free list is the concrete head pointer plus the link words stored in
    memory (`mem`, a byte map). A ghost `freeList` sequence tracks it, and
    the predicate `FreeChain` ties the two together.
  - Each method is proved to produce exactly the state its step function
    gives, and to keep `Valid()`.
  - `ReAllocate` is also proved to copy the first `min(osize, nsize)` bytes
    into the new block.
- `Memory` models bytes, the little-endian pointer word and `memcpy`.
- `Alignment` models `std::align`.
- `ArenaClient` shows two `l_alloc` calls composing for an interpreter
  that holds several blocks.
- `ArenaProperties` proves facts across several calls: LIFO recycling, the
  bump path, a cursor that never moves back, routing by provenance,
  exhaustion of the buffer, and concrete request sequences.

Where the source's comments or design intent differ from the code, the model
follows the code, and the differences are proved as lemmas:

- **A block that ends exactly at the buffer's end is not kept.** The bound
  check is `m_curr <= m_end` (src/main.cpp:161), and `m_end` is the last
  byte. An 8-aligned buffer of exactly `k` minimum blocks therefore serves
  only `k - 1` of them; the `k`-th goes to the heap (`FillUp`). An 8-aligned
  128-byte arena holds one 64-byte block, not two (`TwoBlockArena`).
- **The cursor is not restored on fallback.** It is advanced before the
  bound check and keeps growing past `end + 1` (`TwoBlockArena`,
  `AlignFaultReachable`).
- **`std::align` can fail.** The comment at src/main.cpp:142-143 says it
  never does. But `pool_size` is lowered by every alignment padding and
  never restored, not even by `reset_pool`. Once the padding has used it up,
  `std::align` fails and the process exits. On the buffer `[8, 23]`, three
  65-byte requests reach that exit (`AlignFaultReachable`,
  `AlignFaultExactly`, `RunKeepsBuffer`).

Calls into code that is not modelled are handled as follows:

- `::operator new`/`delete` are modelled by the `GlobalAllocator` class.
  It hands out 8-aligned blocks from an address above the buffer, upwards,
  that overlap no block still in use.
- `exit(EXIT_FAILURE)` is the `ExitFailure` reply (`AlignFault` in the model).
- Addresses are natural numbers, and `NULL` is 0.

## Model

| member | source | states |
|---|---|---|
| ArenaModel.SizeToAllocate | src/main.cpp:105-115 | the rounded size is the request when it is at least 64 and 64 otherwise: at least both, and equal to one of them |
| ArenaModel.Construct | src/main.cpp:93-97 | a new arena satisfies the layout invariant with no blocks, and pool_size is end - begin + 1 |
| ArenaModel.ResetStep | src/main.cpp:99-103 | reset_pool gives the state of an arena freshly built on the same buffer, with the layout invariant and no blocks, except that pool_size keeps what padding has taken |
| ArenaModel.AllocateStep | src/main.cpp:117-179 | an allocation keeps the buffer, never moves the cursor back and never raises pool_size |
| ArenaModel.ReallocateStep | src/main.cpp:218-233 | a reallocation takes its block from where Allocate would, keeps the buffer, never moves the cursor back and never raises pool_size; the layout is kept by ReallocatePreservesLayout |
| ArenaModel.DeallocateStep | src/main.cpp:181-214 | a free is forwarded to the heap exactly when the pointer lies outside [begin, end], and it changes nothing but the free list |
| ArenaModel.AllocatePreservesLayout | src/main.cpp:117-179 | each outcome of Allocate keeps the layout invariant: a recycled block was free and is now handed out; a bumped block is new, aligned, inside the buffer and disjoint from every other; a fallback leaves the arena's blocks as they were; a failed std::align changes nothing |
| ArenaModel.PopPreservesLayout | src/main.cpp:131-136 | unlinking the head keeps the invariant and hands out a 64-byte block that was carved from the buffer |
| ArenaModel.CarvePreservesLayout | src/main.cpp:155-165 | a block carved at or after the end of every other block is new, on no list, and keeps the invariant |
| ArenaModel.DeallocatePreservesLayout | src/main.cpp:184-213 | every route of DeAllocate keeps the invariant, and the freed block is no longer handed out |
| ArenaModel.ReallocatePreservesLayout | src/main.cpp:218-233 | a reallocation keeps the layout invariant: a carved fresh block joins the blocks in use, an old block above the minimum size leaves them, and the old block is no longer handed out |
| ArenaModel.PushPreservesLayout | src/main.cpp:191-202 | pushing a handed-out 64-byte block on the free list keeps the invariant |
| ArenaModel.BurnPreservesLayout | src/main.cpp:203-207 | giving up a larger block for good keeps the invariant without it |
| ArenaModel.FreeWordsApart | src/main.cpp:199-201 | no free-list link word overlaps a block that is handed out |
| ArenaModel.FreeChainFrame | src/main.cpp:228 | a write that misses every link word leaves the free list in memory intact |
| ArenaModel.PushKeepsChain | src/main.cpp:199-201 | writing the old head into the freed block's first word and making it the head links the old list behind it |
| ArenaModel.PushStep | src/main.cpp:191-202 | the recycling path of DeAllocate pushes the block, keeps the invariant and the chain in memory, and takes the block out of use |
| ArenaModel.ChainHeadNull | src/main.cpp:123 | the head pointer is null exactly when the free list is empty, since no node is null |
| Memory.LoadStoreWord | src/main.cpp:199-201 | the pointer written into a block's first word is the one read back as its next link |
| Memory.LoadWordFrame | src/main.cpp:134 | a link word is unaffected by writes outside it |
| Memory.Copy | src/main.cpp:228 | memcpy of n bytes between blocks that do not overlap: the target holds the source bytes and every other byte is unchanged |
| Alignment.StdAlign | src/main.cpp:144 | std::align returns an 8-aligned address at most 7 bytes on that still fits the 8 bytes, and lowers the space by exactly the bytes skipped |
| Alignment.StdAlignFirstFit | src/main.cpp:144 | std::align succeeds whenever any aligned address fits, and then returns the first one |
| Arena.GlobalAllocator.Allocate | src/main.cpp:20-24 | a heap block is 8-aligned, above the buffer, new, and disjoint from every heap block in use; heap blocks in use stay pairwise disjoint |
| Arena.GlobalAllocator.DeAllocate | src/main.cpp:25-29 | operator delete takes the block out of use and nothing else |
| Arena.AlignedArenaAllocator.constructor | src/main.cpp:93-97 | the fields are those of Construct(begin, end) and the invariant holds |
| Arena.AlignedArenaAllocator.ResetPool | src/main.cpp:99-103 | the cursor is back at begin, the free list is empty and pool_size and memory are untouched |
| Arena.AlignedArenaAllocator.Allocate | src/main.cpp:117-179 | the new fields are those of AllocateStep; a returned pointer is non-null, 8-aligned, not in use before, now a block of the requested size, and disjoint from every block in use before; every block in use stays in use, no other block enters use, and memory is untouched; the block comes from the free list, the cursor or the heap as AllocateStep says; a failed std::align is ExitFailure and changes nothing |
| Arena.AlignedArenaAllocator.PopFreeList | src/main.cpp:123-137 | the head is handed out, disjoint from every block in use, and the head becomes the next link read from the block's first word; the blocks in use are those before plus the head |
| Arena.AlignedArenaAllocator.HeadIsApart | src/main.cpp:131 | the head of the free list overlaps no block in use |
| Arena.AlignedArenaAllocator.BumpAllocate | src/main.cpp:138-178 | the cursor path: an aligned block inside the buffer, or a heap block of the unrounded size, or ExitFailure with nothing changed, with the cursor advanced as AllocateStep says; the block is disjoint from every block in use, and the blocks in use are those before plus it |
| Arena.AlignedArenaAllocator.CarveBlock | src/main.cpp:155-166 | a block that fits is handed out from the aligned cursor, which moves past it; it is new, inside the buffer and disjoint from every block in use, and the blocks in use are those before plus it |
| Arena.AlignedArenaAllocator.ServeFromHeap | src/main.cpp:155-171 | a block that would pass end still moves the cursor, and the heap serves the unrounded size with a block outside the buffer, disjoint from every block in use; the blocks in use are those before plus it |
| Arena.AlignedArenaAllocator.BlocksBelowCursor | src/main.cpp:155-161 | every arena block in use ends at or before the cursor and before end |
| Arena.AlignedArenaAllocator.DeAllocate | src/main.cpp:181-214 | the new fields are those of DeallocateStep; the blocks in use are exactly those before except the freed one, each with its size; the push writes the old head into the block's first word and no other byte changes |
| Arena.AlignedArenaAllocator.ReleaseArenaBlock | src/main.cpp:186-208 | the arena route of DeAllocate: the arena blocks in use are exactly those before except this one, each with its size, and only the block's first word may change: it holds the old head when the block is pushed, and nothing changes when a larger block is given up |
| Arena.AlignedArenaAllocator.ReleaseHeapBlock | src/main.cpp:209-213 | the heap route of DeAllocate: the block goes back to the global allocator; the blocks in use are exactly those before except this one |
| Arena.AlignedArenaAllocator.AllocateFresh | src/main.cpp:222 | the allocation that starts ReAllocate: the step function's block, or a heap block above the arena; the block is in use with the new size, was not in use before and overlaps no block in use; the blocks in use are exactly those before plus it; ExitFailure changes nothing |
| Arena.AlignedArenaAllocator.PushFreeList | src/main.cpp:191-202 | memory holds the old head in the block's first word, the block is the new head, and the step is a push |
| Arena.AlignedArenaAllocator.ReAllocate | src/main.cpp:218-233 | the new fields are those of ReallocateStep and the reply is the block its source names; the new block of nsize is fresh, disjoint from every block in use before, and in use; the blocks in use are exactly those before, minus the old block, plus the new one; the first min(osize, nsize) bytes of the new block are the old block's bytes, and no byte changes outside them and the old block's link word; ExitFailure exactly when std::align fails, and then nothing changes |
| Arena.AlignedArenaAllocator.MoveAndRelease | src/main.cpp:228-230 | copying into the fresh block and then freeing the old block leaves the copied bytes in place; the blocks in use are exactly those before except the old block; no byte changes outside the copy and the old block's link word |
| Arena.AlignedArenaAllocator.MemCopy | src/main.cpp:228 | memcpy into a block writes exactly that block's bytes, keeps the free list intact and leaves the blocks in use exactly as they were |
| Arena.AlignedArenaAllocator.BlocksApart | src/main.cpp:184 | two different blocks in use never overlap, whether from the arena or the heap, and an arena block is apart over its whole rounded size |
| Arena.AlignedArenaAllocator.CopyTargetIsClear | src/main.cpp:222-228 | the fresh block overlaps neither the old block nor any free-list link word, so the copy is well defined and safe |
| Arena.LAlloc | src/main.cpp:235-261 | nsize 0 frees a non-null ptr and returns null; a null ptr allocates; anything else reallocates; each as the matching step function says, with the reply the block the step's source names; in each branch the blocks in use are exactly those before, minus the freed or resized block, plus the new one; a new block is fresh and disjoint from every block in use; memory changes only in the freed block's link word and the copied bytes, which are the old block's leading bytes; ExitFailure changes nothing |
| ArenaClient.ResizeKeepingOther | src/main.cpp:235-261 | with two blocks held, resizing one through l_alloc gives a block in use, apart from the other block, holding the first block's leading bytes; the first block leaves use and the other stays in use |
| ArenaClient.FreeKeepingOther | src/main.cpp:235-261 | with two blocks held, freeing one through l_alloc takes it out of use, brings no block into use, and leaves the other in use with all its bytes untouched |
| ArenaClient.ResizeThenFreeOther | src/main.cpp:235-261 | with two blocks held, resizing one and then freeing the other composes: afterwards the resized block is in use with the first block's leading bytes, and neither original block is in use |
| ArenaProperties.ApplyKeepsBuffer | src/main.cpp:93-233 | no single call moves the buffer or raises pool_size, and only reset_pool moves the cursor back |
| ArenaProperties.RunKeepsBuffer | src/main.cpp:142-143 | over any run of calls, reset_pool included, the buffer stays and pool_size never grows back |
| ArenaProperties.CursorNeverDecreases | src/main.cpp:155-156 | over any run without reset_pool the bump cursor never decreases |
| ArenaProperties.RoutingIsStable | src/main.cpp:184-213 | after any run, a pointer is forwarded to the heap exactly when it lies outside the original [begin, end]; inside, it is pushed when its size rounds to 64 and given up otherwise |
| ArenaProperties.PopTakesHead | src/main.cpp:123-137 | a request of at most 64 bytes with a non-empty free list gets the head, and only the list changes |
| ArenaProperties.LifoRecycling | src/main.cpp:123-201 | freeing an arena block of at most 64 bytes and then requesting at most 64 bytes returns that block and restores every field |
| ArenaProperties.DeallocateRoutes | src/main.cpp:184-213 | a free never moves the cursor or pool_size: a small arena block is pushed, a larger one is given up with nothing changed, a foreign one is forwarded with nothing changed |
| ArenaProperties.BumpPath | src/main.cpp:144-171 | the block starts at the first multiple of 8 at or after the cursor, pool_size drops by exactly the padding, the cursor ends just past the block, and the block is kept exactly when it ends at or before end, else the heap serves the unrounded size |
| ArenaProperties.AlignFaultExactly | src/main.cpp:142-177 | the process exits exactly when the cursor path is taken and pool_size is below the padding plus 8, and then nothing changes |
| ArenaProperties.FillUp | src/main.cpp:155-171 | in an aligned buffer of k minimum blocks, the first k - 1 small requests are carved one after another from begin, and the k-th and every later one falls back to the heap |
| ArenaProperties.FillStep | src/main.cpp:144-171 | in that buffer each small request pads nothing, moves the cursor 64 bytes and is kept exactly while fewer than k blocks have passed |
| ArenaProperties.TwoBlockArena | src/main.cpp:155-171 | an 8-aligned 128-byte arena serves the first 8-byte request and sends the second and every later one to the heap, with the cursor past end |
| ArenaProperties.AlignFaultReachable | src/main.cpp:142-177 | on the buffer [8, 23], two 65-byte requests fall back and the third makes std::align fail |
| ArenaProperties.FreeThenAllocateReuses | src/main.cpp:117-201 | in a 4096-byte buffer, a 4-byte request gets begin, and after it is freed the next 4-byte request gets begin again without moving the cursor |
| ArenaProperties.TwoLargeRequests | src/main.cpp:144-166 | in a 4096-byte buffer, two 200-byte requests get adjacent, disjoint, aligned blocks and move the cursor 400 bytes |

## Left out

- `main` and the Lua glue (src/main.cpp:264-327) are outside the allocator.
- The `printf` tracing is output only.
- `GlobalAllocator::ReAllocate` and `GlobalAllocator::l_alloc` are not modelled. The arena never calls them.
- `::operator new` never fails in the model. A `std::bad_alloc` from the heap is not represented.
- Arena.GlobalAllocator.Allocate: the heap is a stand-in that places blocks above the buffer and never reuses an address. A real heap may place them below `begin` and may reuse freed addresses. The arena only relies on heap blocks lying outside `[begin, end]` and not overlapping blocks in use.
- Arena.GlobalAllocator.DeAllocate: the source obtains heap blocks from the aligned `::operator new(size, std::align_val_t)` but returns them through the plain `::operator delete(ptr)`. Section [new.delete.single] of ISO C++17 leaves that pairing undefined. The stand-in heap simply takes the block back.
- Arena.AlignedArenaAllocator.constructor: requires `0 < begin <= end < 2^64`. The source does not check this. With `end < begin`, `pool_size` would wrap around.
- Arena.AlignedArenaAllocator.BumpAllocate: `m_curr + allocateBytes` is unbounded in the model. The 64-bit wrap-around of a pointer near the top of the address space is not represented.
- Arena.AlignedArenaAllocator.DeAllocate: requires the pointer to be a block in use together with the size it was requested with. Freeing a foreign pointer, freeing twice, or freeing with another size is outside the caller's contract and is not modelled. The source does not check for it: a second free of a 64-byte block pushes it again, and a block freed with a size that rounds differently is pushed or given up by that size. `ReAllocate` and `LAlloc` require the same.
- The interpreter's own writes into its blocks are not modelled. Memory changes only through the free-list link words and the `memcpy` of `ReAllocate`. A byte never written reads as 0.
- `exit(EXIT_FAILURE)` is a reply, not the end of the process. In `ArenaProperties.Run`, a call that would exit leaves the state as it was.
- The `float` fields of `Thing` are left out. Only its size and alignment (8 and 8) are used, as the arguments of `std::align`.
