# An implicit-free-list allocator, verified

This project models `mm.c`, a malloc package in the style of the CS:APP
malloc lab: a heap of blocks carved out of an arena that only grows (through
`mem_sbrk`), each block framed by a 4-byte header and a 4-byte footer that
hold `PACK(size, alloc)`, an 8-byte allocated prologue block and a 0-size
allocated epilogue header at the two ends, first-fit placement with
splitting, immediate boundary-tag coalescing on free, and a realloc that
always allocates, copies and frees.

The model has two levels.

- **Blocks** (`blocks.dfy`) describes the heap as the list of its regular
  blocks, `Block(bp, size, alloc)`, in address order. Each operation of the
  allocator is a function on that list: `Coalesce`, `Place`, `FirstFit`,
  `Extend`, `FreeAt`, `Malloc` and `Realloc`. The lemmas prove what the
  allocator promises: the blocks tile the heap without gaps, no two free
  blocks are adjacent, first fit, split and no split in place, the sizing
  and growth of malloc, and the semantics of free and realloc.
- **Allocator** (`allocator.dfy`) is the allocator itself, as a class `Heap`
  over the arena bytes `mem` and `heapListp`. Its methods do what the C
  functions do, through the same macros (`Tags`, `Memory`). Each method
  reads and writes tag words and walks the heap by header sizes. Each is
  proved to leave an arena whose tags spell out, through `Layout.Image`,
  exactly the block list that the corresponding Blocks function computes.
  Every allocated block keeps its payload bytes (`Layout.PayloadsKept`).
  `Layout.ImageDecodes` proves that the arena determines the block list, so
  the ghost list `blocks` adds no information of its own.

`layout.dfy` ties bytes to blocks. `steps.dfy` holds the lemmas about each
sequence of writes a method performs.

Addresses are byte offsets from the arena base, which is taken to be
8-aligned. The pointer NULL is `None`.

## Model

| member | source | states |
|---|---|---|
| Tags.TagRoundTrip | mm.c:54-62 | GET_SIZE(PACK(size, a)) gives back size exactly when size is a multiple of 8, and GET_ALLOC then gives back a |
| Tags.PackInjective | mm.c:54 | two tags built from 8-aligned sizes are equal exactly when their sizes and flags are |
| Tags.SizeBits | mm.c:61 | masking off the low three bits gives a multiple of 8 within 7 below the word |
| Tags.Align | mm.c:38 | ALIGN(size) is the least multiple of 8 that is at least size |
| Tags.Max | mm.c:51 | MAX(x, y) is one of x and y and at least both |
| Memory.Put | mm.c:57-58 | after PUT(p, v), GET(p) reads v; the length and every byte outside the word are unchanged |
| Memory.GetSize | mm.c:61 | GET_SIZE reads a multiple of 8 |
| Memory.Memcpy | mm.c:279 | memcpy writes the n source bytes to dst and changes no byte outside [dst, dst + n) |
| Layout.ReadTags | mm.c:61-69 | for a block with correct tags, GET_SIZE and GET_ALLOC on header and footer give its size and state, FTRP finds its footer and NEXT_BLKP steps over it |
| Layout.ReadPrev | mm.c:70 | in a valid heap, PREV_BLKP of a block reaches the block before it (the prologue for the first block) |
| Layout.ReadNext | mm.c:69 | in a valid heap, NEXT_BLKP of a block reaches the next block, or for the last block the epilogue, whose header reads size 0 and allocated |
| Layout.ImageDecodes | mm.c:292-304 | walking headers from the first block after the prologue to the 0-size epilogue yields exactly the block list |
| Allocator.Heap.constructor | mm.c:75 | an empty arena with the given limit, heap_listp 0 |
| Allocator.Heap.MemSbrk | mm.c:95-96 | mem_sbrk returns the old break and grows the arena by incr bytes, keeping the old bytes; it returns -1 and changes nothing when incr is negative or the limit would be passed |
| Allocator.Heap.Init | mm.c:92-112 | mm_init returns 0 exactly when the arena has room for 16 + 4096 bytes, and then the heap is one free 4096-byte block after the prologue; -1 otherwise: when not even the 16 bytes fit, the arena is untouched and heap_listp holds -1, the failure value of mem_sbrk it was assigned; when only the extension fails, an empty valid heap |
| Allocator.Heap.WritePrologue | mm.c:95-105 | the four PUTs of mm_init make a valid empty heap with heap_listp at the prologue payload, and leave the bytes below alone |
| Blocks.ExtendFirst | mm.c:108-109 | extending the empty heap by CHUNKSIZE yields one free block of 4096 bytes |
| Allocator.Heap.ExtendHeap | mm.c:120-139 | extend_heap rounds words up to even and grows the arena by that many bytes; it leaves the heap Extend describes, with a free last block of at least that size, and returns that block; NULL and nothing changed when the arena cannot grow; payloads are kept |
| Allocator.Heap.NewFreeBlock | mm.c:132-135 | the new bytes become a free block whose header overwrites the old epilogue, followed by a new epilogue; only the new block can have a free neighbour |
| Blocks.Extend | mm.c:120-139 | extend_heap on the block list: a free block of size bytes where the epilogue was, coalesced with a free last block, so the heap gains at most one block and is never empty; properties in ExtendSound and ExtendLast |
| Blocks.ExtendBytes | mm.c:126 | the byte count asked for is a multiple of 8, between words * 4 and words * 4 + 4 |
| Blocks.ExtendSound | mm.c:120-139 | extend_heap keeps the tiling and no-adjacent-free invariant, grows the heap by exactly size bytes and leaves a free last block of at least size bytes, which starts at the old last block when that was free; allocated blocks survive |
| Blocks.ExtendLast | mm.c:138 | the block extend_heap returns is the coalesced last block |
| Allocator.Heap.Coalesce | mm.c:151-183 | reads both neighbours' allocated bits and dispatches to the four cases; the heap afterwards is Blocks.Coalesce of the old one, the result is the merged block's payload pointer, and payloads are kept |
| Allocator.Heap.MergeNext | mm.c:162-166 | case 2: the block absorbs its free successor; header then footer are rewritten with the summed size |
| Allocator.Heap.MergePrev | mm.c:168-173 | case 3: the free predecessor absorbs the block; the footer is written, then the predecessor's header, and the result is the predecessor |
| Allocator.Heap.MergeBoth | mm.c:175-180 | case 4: the predecessor absorbs the block and the successor; the result is the predecessor |
| Steps.NothingToMerge | mm.c:158-159 | case 1: with both neighbours allocated, coalesce leaves the heap as it is |
| Blocks.Coalesce | mm.c:151-183 | coalesce on block i: the free neighbours and block i are replaced by one free block from the first absorbed block to the end of the last, whose size is the sum of theirs; properties in CoalesceTiles, CoalesceMerged and CoalesceKeeps |
| Blocks.CoalesceTiles | mm.c:151-183 | coalescing a free block that was the only exception to the invariant keeps the tiling and its end, and leaves no two free blocks adjacent |
| Blocks.CoalesceMerged | mm.c:151-183 | the merged block is free, starts at the predecessor when that was free and ends at the successor's end when that was free, and both its neighbours are allocated |
| Blocks.CoalesceKeeps | mm.c:151-183 | coalesce changes no block outside the merged run, and every allocated block survives |
| Blocks.MergedBounds | mm.c:162-180 | the merged size is the sum of the absorbed sizes, a valid block size spanning exactly the absorbed blocks |
| Layout.WalkTiles | mm.c:296-297 | the header walk (start at bp, step by NEXT_BLKP, stop at a 0-size header) finds blocks that tile memory from bp, each a multiple of 8 and at least 8 bytes, whatever the arena holds |
| Layout.Walk | mm.c:296-297 | the list of blocks the header walk from bp visits, with the size and allocated bit each header reads |
| Allocator.Heap.FindFit | mm.c:292-304 | find_fit walks the headers and returns the first free block of at least asize bytes, NULL when there is none |
| Blocks.FirstFit | mm.c:292-304 | the index found is of a fitting free block and no earlier block fits; None exactly when no block fits |
| Allocator.Heap.Place | mm.c:315-337 | place on a fitting block leaves the heap Blocks.Place describes, valid, with payloads kept |
| Allocator.Heap.PlaceSplit | mm.c:320-331 | when csize - asize >= 16, the block becomes an allocated block of asize followed by a free block of csize - asize |
| Allocator.Heap.PlaceWhole | mm.c:332-336 | otherwise the whole block of csize bytes is marked allocated |
| Allocator.Heap.WriteTags | mm.c:324-335 | PUT(HDRP) then PUT(FTRP) writes correct tags for a block of the new size, touches nothing else, and NEXT_BLKP then skips that size |
| Blocks.Placed | mm.c:315-337 | place turns a block into one or two blocks, two exactly when csize - asize >= 16; the first is allocated at the same address; with two, it has asize bytes and is followed by a free block of at least 16 bytes, the two covering the old block; with one, it keeps the whole csize |
| Blocks.PlacedTiles | mm.c:320-336 | the blocks place leaves tile the old block exactly, with no two free blocks adjacent |
| Blocks.Place | mm.c:315-337 | place on block i replaces it by the blocks Placed gives, so the heap gains at most one block; properties in PlaceTiles, PlaceBlock and PlaceKeeps |
| Blocks.PlaceTiles | mm.c:315-337 | place keeps the tiling, its end and the no-adjacent-free invariant |
| Blocks.PlaceBlock | mm.c:315-337 | the placed block is allocated at the same address with between asize and asize + 15 bytes: exactly asize followed by a free remainder of csize - asize when that remainder is at least 16, the whole csize otherwise |
| Blocks.PlaceKeeps | mm.c:315-337 | place changes no other block |
| Allocator.Heap.Malloc | mm.c:194-223 | mm_malloc leaves the heap and returns the pointer Blocks.Malloc describes, keeps the heap valid and every payload |
| Allocator.Heap.MallocFit | mm.c:212-215 | the first-fit path: place in block i and return its payload |
| Allocator.Heap.MallocGrow | mm.c:218-222 | the miss path: extend_heap(MAX(asize, CHUNKSIZE) / 4), NULL with nothing changed when that fails, else place in the new last block |
| Allocator.Heap.PlaceLast | mm.c:221-222 | placing in the last block after the extension gives the outcome Blocks.Malloc describes |
| Blocks.AdjustSize | mm.c:205-209 | the adjusted size is a multiple of 8, at least 16, holds the request plus 8 bytes of tags, and is the least such above 16 |
| Blocks.AdjustIsAlign | mm.c:205-209 | for a non-zero request the adjusted size is ALIGN(size + 8) |
| Blocks.GrowBytes | mm.c:218-219 | the growth asked for on a miss is exactly MAX(asize, CHUNKSIZE) bytes |
| Blocks.MallocNull | mm.c:201-220 | mm_malloc returns NULL exactly for size 0 or when no block fits and the arena cannot grow by MAX(asize, CHUNKSIZE); the heap is then unchanged |
| Blocks.Malloc | mm.c:194-223 | mm_malloc on the block list: NULL for size 0; else place AdjustSize(size) in FirstFit, or, when nothing fits, NULL if the arena cannot grow by MAX(asize, CHUNKSIZE) and otherwise Extend and place in the last block; properties in MallocNull, MallocInvariant, MallocBlock, MallocKeeps and MallocFirstFit |
| Blocks.MallocInvariant | mm.c:194-223 | mm_malloc keeps the tiling and no-adjacent-free invariant; the heap grows by exactly MAX(asize, CHUNKSIZE) when nothing fits and the arena has room, and otherwise keeps its end |
| Blocks.MallocFitTiles | mm.c:212-215 | the fit path keeps the tiling, its end and the invariant |
| Blocks.MallocGrowTiles | mm.c:218-222 | the growth path keeps the tiling and the invariant and moves the end up by MAX(asize, CHUNKSIZE) |
| Blocks.MallocKeeps | mm.c:194-223 | every allocated block survives mm_malloc |
| Blocks.MallocBlock | mm.c:194-223 | a non-NULL result names an allocated block with room for size bytes between its tags, is 8-aligned when the heap is, and is not the pointer of any block allocated before |
| Blocks.MallocGrowBlock | mm.c:218-222 | the same for the block placed after extending the heap |
| Blocks.PlacedFresh | mm.c:212-215 | the block placed in a fit is allocated, large enough, aligned with the heap, and new |
| Blocks.ExtendFresh | mm.c:218-222 | the last block after an extension was not allocated before |
| Blocks.MallocFirstFit | mm.c:212-215 | when some free block fits, mm_malloc returns a fitting block at or below it |
| Blocks.MallocTooLarge | mm.c:194-223 | a request whose size plus 8 exceeds the room the arena could ever have gets NULL with the heap unchanged |
| Blocks.AdjustSizeWrapped | mm.c:205-209 | the adjusted size as computed in 64-bit size_t is a multiple of 8 below 2^64 |
| Blocks.AdjustSizeWrappedAgrees | mm.c:205-209 | when size + 15 does not wrap, the wrapped computation equals the exact one |
| Blocks.AdjustSizeWraps | mm.c:205-209 | for size = 2^64 - 1 the wrapped adjusted size is 8, smaller than the request |
| Allocator.Heap.Free | mm.c:233-243 | mm_free clears the allocated bit in header and footer and coalesces: the heap becomes FreeAt of the old one, stays valid, and every other allocated block keeps its payload |
| Blocks.FreeAt | mm.c:233-243 | mm_free on block i: clear its allocated bit, then coalesce it, so the heap loses at most two blocks; properties in FreeSound, FreeCovers, FreeKeepsOthers and FreedNotAllocated |
| Blocks.MarkFree | mm.c:235-239 | clearing the bit keeps the tiling, and only the freed block can then have a free neighbour |
| Blocks.FreeSound | mm.c:233-243 | mm_free keeps the tiling, its end and the no-adjacent-free invariant; a free block covers the freed bytes; every other allocated block survives |
| Blocks.FreeCovers | mm.c:233-243 | after mm_free a free block covers the freed block |
| Blocks.FreeKeepsOthers | mm.c:233-243 | mm_free leaves every other allocated block in place |
| Blocks.FreedNotAllocated | mm.c:233-243 | after mm_free the freed pointer names no allocated block |
| Blocks.IndexOf | mm.c:235 | the index found is of the block at that payload pointer; None when no block has it |
| Blocks.IndexOfTiling | mm.c:235 | in a tiling a payload pointer identifies its block |
| Allocator.Heap.Realloc | mm.c:253-282 | mm_realloc leaves the heap and returns the pointer Blocks.Realloc describes; when it moves, the new payload starts with the old one cut to CopySize; every other allocated block keeps its payload, and all do when nothing is freed |
| Allocator.Heap.ReallocMove | mm.c:269-281 | the moving path: malloc, NULL with everything kept when it fails, else copy and free |
| Allocator.Heap.MoveBlock | mm.c:275-281 | copySize is the old block size less 8, cut to size; the copy lands in the new block and the old block is freed |
| Allocator.Heap.CopyPayload | mm.c:279 | memcpy between two distinct blocks copies n bytes, and changes no tag and no other payload |
| Blocks.Realloc | mm.c:253-282 | mm_realloc on the block list: Malloc for NULL; FreeAt and NULL for size 0; otherwise Malloc, NULL with the heap unchanged when that fails, else FreeAt of the old block in the new heap and the new pointer; properties in ReallocInvariant, ReallocNull and ReallocMoves |
| Blocks.CopySize | mm.c:275-277 | the copy length is the smaller of size and the old payload size |
| Blocks.ReallocInvariant | mm.c:253-282 | mm_realloc keeps the tiling and the no-adjacent-free invariant |
| Blocks.ReallocNull | mm.c:264-272 | size 0 frees ptr and returns NULL; a failed malloc returns NULL with the heap unchanged and ptr still allocated |
| Blocks.ReallocMoves | mm.c:269-281 | a successful mm_realloc returns a different pointer to an allocated block with room for size bytes, and ptr is no longer allocated |
| Blocks.KeptIndex | mm.c:269-281 | the old block keeps its identity across the malloc inside mm_realloc |
| Steps.ReallocIndices | mm.c:270-272 | after a successful malloc inside mm_realloc the old block and the new one are distinct blocks, the new one allocated with room for size bytes and not allocated before |
| Steps.ReallocKeeps | mm.c:270-281 | malloc, memcpy and free composed keep every other allocated block's payload, and the copied bytes reach the new block |

## Left out

- The memlib internals: `Heap.MemSbrk` models `mem_sbrk` as an arena that
  grows up to a fixed limit. The bytes it adds hold unspecified values, and
  the limit is a parameter of the heap.
- The team structure and `SIZE_T_SIZE` (kept from an earlier naive
  version, as the comment above the alignment macros says): the
  allocator's code uses neither.
- Absolute addresses: pointers are offsets from an 8-aligned arena base.
  The byte order of GET/PUT is little-endian.
- Client misuse: `Heap.Free` and `Heap.Realloc` require that the pointer
  names an allocated block. The C code trusts its caller here. Freeing
  twice or freeing a foreign pointer has undefined behaviour and is not
  modelled.
- Allocator.Heap.Init: does not state the padding word's value or the
  bytes below the prologue after the extension; it only states that the
  heap is valid.
- Word width: the arena limit is below 2^32, so every block size fits a
  tag word. Requests of any size are modelled as intended, without the
  64-bit wrap-around of the source's size computation: `Blocks.AdjustSize`
  works on unbounded integers, and the wrap is in Findings.
- Concurrency: the allocator is single-threaded.
- The stale-payload contents of blocks: only allocated blocks' payloads are
  tracked. Free blocks' bytes, and the bytes realloc's new block holds
  beyond the copied prefix, are not described.

## Findings

| source | as written | input that shows it | evidently intended | confidence | as-written member | corrected member |
|---|---|---|---|---|---|---|
| mm.c:205-209 | `asize = DSIZE * ((size + DSIZE + (DSIZE - 1)) / DSIZE)` is computed in `size_t`, so it wraps for requests within 15 of 2^64 | `mm_malloc(2^64 - 1)` computes asize 8, smaller than the request and below the minimum block size, and can go on to place it | a request that cannot fit the heap returns NULL, and asize is always at least size + 8 | not executed | Blocks.AdjustSizeWraps | Blocks.MallocTooLarge |
