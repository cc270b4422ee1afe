/**
 * The allocator of mm.c as a heap object: the arena grown by mem_sbrk,
 * heap_listp, and the operations mm_init, extend_heap, coalesce,
 * find_fit, place, mm_malloc, mm_free and mm_realloc, each proved against
 * the block-list function it implements.
 */
module Allocator {
  import opened Tags
  import opened Memory
  import opened Blocks
  import opened Layout
  import opened Wrappers
  import opened Steps

  class Heap {
    /** The most bytes the arena may hold (memlib's MAX_HEAP). */
    const limit: nat
    /** The arena from its base up to the break. */
    var mem: seq<Byte>
    /** heap_listp: the payload pointer of the prologue block. */
    var heapListp: int
    /** The regular blocks between prologue and epilogue, in address order. */
    ghost var blocks: seq<Block>

    /** The arena is within its limit, and every size in it fits a tag word. */
    ghost predicate ArenaOk()
      reads this
    {
      limit < WORD_LIMIT && |mem| <= limit
    }

    /** The arena holds the heap described by blocks, fully coalesced. */
    ghost predicate Valid()
      reads this
    {
      ArenaOk() && Image(mem, heapListp, blocks) && NoAdjacentFree(blocks)
    }

    /** An empty arena of at most limit bytes, before mm_init. */
    constructor(limit: nat)
      requires limit < WORD_LIMIT
      ensures this.limit == limit && mem == [] && heapListp == 0 && ArenaOk()
    {
      this.limit := limit;
      mem := [];
      heapListp := 0;
      blocks := [];
    }

    /**
     * mem_sbrk(incr): move the break up by incr bytes and return the old
     * break, or -1 (leaving the arena alone) when incr is negative or the
     * arena would pass its limit. The new bytes hold unspecified values.
     */
    method MemSbrk(incr: int) returns (p: int)
      requires ArenaOk()
      modifies this
      ensures ArenaOk() && heapListp == old(heapListp) && blocks == old(blocks)
      ensures incr < 0 || |old(mem)| + incr > limit ==> p == -1 && mem == old(mem)
      ensures 0 <= incr && |old(mem)| + incr <= limit ==>
        p == |old(mem)| && |mem| == |old(mem)| + incr && mem[..p] == old(mem)
    {
      if incr < 0 || |mem| + incr > limit {
        return -1;
      }
      p := |mem|;
      ghost var zeros: seq<Byte> := seq(incr, _ => 0);
      assert |zeros| == incr;
      var added: seq<Byte> :| |added| == incr;
      mem := mem + added;
    }

    /**
     * mm_init: take 16 bytes from mem_sbrk for the padding word, the
     * prologue's header and footer and the epilogue header, point
     * heap_listp at the prologue payload, then extend the heap by CHUNKSIZE
     * bytes. -1 when either request to the arena fails. heap_listp takes
     * mem_sbrk's result before it is tested, so a failed first request
     * leaves it at -1; after a failed extension the empty heap stays in
     * place.
     */
    method Init() returns (r: int)
      requires ArenaOk()
      modifies this
      ensures ArenaOk() && (r == 0 || r == -1)
      ensures r == 0 <==> |old(mem)| + 4 * WSIZE + CHUNKSIZE <= limit
      ensures |old(mem)| + 4 * WSIZE > limit ==> mem == old(mem) && heapListp == -1
      ensures |old(mem)| + 4 * WSIZE <= limit ==>
        Valid() && heapListp == |old(mem)| + DSIZE
      ensures r == 0 ==> blocks == [Block(|old(mem)| + 2 * DSIZE, CHUNKSIZE, false)]
      ensures r == -1 && |old(mem)| + 4 * WSIZE <= limit ==> blocks == []
    {
      var p := MemSbrk(4 * WSIZE);
      if p == -1 {
        heapListp := p;
        return -1;
      }
      WritePrologue(p);
      var bp := ExtendHeap(CHUNKSIZE / WSIZE);
      if bp.None? {
        return -1;
      }
      ExtendFirst(p + 2 * WSIZE + DSIZE);
      return 0;
    }

    /**
     * The PUTs of mm_init into the 16 fresh bytes at p: padding, prologue
     * header and footer, epilogue header; heap_listp then points at the
     * prologue payload and the heap is empty.
     */
    method WritePrologue(p: int)
      requires ArenaOk() && 0 <= p && |mem| == p + 4 * WSIZE
      modifies this
      ensures ArenaOk() && Valid() && |mem| == |old(mem)| && mem[..p] == old(mem)[..p]
      ensures heapListp == p + DSIZE && blocks == []
    {
      ghost var ms := mem;
      mem := Put(mem, p, 0);
      ghost var m1 := mem;
      mem := Put(mem, p + WSIZE, Pack(DSIZE, 1));
      ghost var m2 := mem;
      mem := Put(mem, p + 2 * WSIZE, Pack(DSIZE, 1));
      ghost var m3 := mem;
      mem := Put(mem, p + 3 * WSIZE, Pack(0, 1));
      InitWrites(ms, m1, m2, m3, mem, p);
      heapListp := p + 2 * WSIZE;
      blocks := [];
    }

    /**
     * mm_malloc(size): NULL for size 0; otherwise adjust the size, place it
     * in the first fit, or else extend the heap by MAX(asize, CHUNKSIZE)
     * bytes and place it in the new last block; NULL when the arena cannot
     * grow. The heap afterwards, and the pointer, are what Blocks.Malloc
     * describes, and every allocated block keeps its payload.
     */
    method Malloc(size: nat) returns (bp: Option<int>)
      requires Valid()
      modifies this
      ensures Valid() && heapListp == old(heapListp)
      ensures Outcome(blocks, bp) == Blocks.Malloc(old(blocks), old(heapListp) + DSIZE, limit, size)
      ensures PayloadsKept(old(mem), old(blocks), mem, blocks)
    {
      if size == 0 {
        return None;
      }
      var asize := AdjustSize(size);
      bp := FindFit(asize);
      if bp.Some? {
        MallocFit(bp.value, size, asize, FirstFit(blocks, asize).value);
      } else {
        bp := MallocGrow(size, asize);
      }
    }

    /** The hit path of mm_malloc: block i is the first fit, at payload bp; place the request there. */
    method MallocFit(bp: int, size: nat, asize: int, ghost i: nat)
      requires Valid() && size > 0 && asize == AdjustSize(size)
      requires FirstFit(blocks, asize) == Some(i) && bp == blocks[i].bp
      modifies this
      ensures Valid() && heapListp == old(heapListp)
      ensures Outcome(blocks, Some(bp)) == Blocks.Malloc(old(blocks), old(heapListp) + DSIZE, limit, size)
      ensures PayloadsKept(old(mem), old(blocks), mem, blocks)
    {
      MallocFitOutcome(blocks, heapListp + DSIZE, limit, size, i);
      Place(bp, asize, i);
    }

    /** The miss path of mm_malloc: no free block fits, so grow the heap and place there. */
    method MallocGrow(size: nat, asize: int) returns (bp: Option<int>)
      requires Valid() && size > 0 && asize == AdjustSize(size) && FirstFit(blocks, asize).None?
      modifies this
      ensures Valid() && heapListp == old(heapListp)
      ensures Outcome(blocks, bp) == Blocks.Malloc(old(blocks), old(heapListp) + DSIZE, limit, size)
      ensures PayloadsKept(old(mem), old(blocks), mem, blocks)
    {
      ghost var bs, m0, hl, grow := blocks, mem, heapListp, GrowBytes(asize);
      var words := Max(asize, CHUNKSIZE) / WSIZE;
      assert grow == ExtendBytes(words);
      assert |mem| == End(bs, hl + DSIZE);
      bp := ExtendHeap(words);
      if bp.None? {
        MallocGrowNull(bs, hl + DSIZE, limit, size);
        return;
      }
      ghost var ext, m1 := blocks, mem;
      PlaceLast(bp.value, size, asize, bs, hl + DSIZE);
      PayloadsKeptTrans(m0, bs, m1, ext, mem, blocks);
    }

    /**
     * The end of mm_malloc's miss path: the heap bs has just been
     * extended by MAX(asize, CHUNKSIZE) bytes; place the request in the
     * last block, whose payload pointer bp the extension returned.
     */
    method PlaceLast(bp: int, size: nat, asize: int, ghost bs: seq<Block>, ghost start: int)
      requires Valid() && size > 0 && asize == AdjustSize(size) && FirstFit(bs, asize).None?
      requires End(bs, start) + Max(asize, CHUNKSIZE) <= limit
      requires blocks == Extend(bs, start, Max(asize, CHUNKSIZE))
      requires bp == blocks[|blocks| - 1].bp && Fits(blocks[|blocks| - 1], asize)
      modifies this
      ensures Valid() && heapListp == old(heapListp)
      ensures Outcome(blocks, Some(bp)) == Blocks.Malloc(bs, start, limit, size)
      ensures PayloadsKept(old(mem), old(blocks), mem, blocks)
    {
      ghost var ext := blocks;
      Place(bp, asize, |ext| - 1);
      MallocGrowFinish(bs, start, limit, size, ext, blocks, Some(bp));
    }

    /**
     * mm_free(ptr), for a ptr that names an allocated block: clear the
     * allocated bit in its header and footer, then coalesce it with free
     * neighbours. The heap afterwards is FreeAt of the old one, and every
     * other allocated block keeps its payload.
     */
    method Free(ptr: int)
      requires Valid() && IsAllocated(blocks, ptr)
      modifies this
      ensures Valid() && heapListp == old(heapListp) && |mem| == |old(mem)|
      ensures blocks == FreeAt(old(blocks), IndexOf(old(blocks), ptr).value)
      ensures PayloadsKept(old(mem), Cleared(old(blocks), IndexOf(old(blocks), ptr).value), mem, blocks)
    {
      ghost var bs, m0, hl, i := blocks, mem, heapListp, IndexOf(blocks, ptr).value;
      assert TagsOk(mem, bs[i]);
      ReadTags(mem, bs[i]);
      Within(bs, hl + DSIZE, i);
      var size := GetSize(mem, Hdrp(ptr));
      WriteTags(ptr, size, 0);
      FreeWrites(m0, mem, hl, bs, i, size);
      MarkFree(bs, i, hl + DSIZE);
      blocks := Cleared(bs, i);
      ghost var m1 := mem;
      var _ := Coalesce(ptr, i);
      PayloadsKeptTrans(m0, Cleared(bs, i), m1, Cleared(bs, i), mem, blocks);
    }

    /**
     * mm_realloc(ptr, size): malloc when ptr is NULL; free ptr and return
     * NULL when size is 0; otherwise malloc a new block, NULL with nothing
     * freed if that fails, else copy the old payload (cut to size) into
     * it, free the old block and return the new one.
     */
    method Realloc(ptr: Option<int>, size: nat) returns (r: Option<int>)
      requires Valid() && (ptr.Some? ==> IsAllocated(blocks, ptr.value))
      modifies this
      ensures Valid() && heapListp == old(heapListp)
      ensures Outcome(blocks, r) == Blocks.Realloc(old(blocks), old(heapListp) + DSIZE, limit, ptr, size)
      ensures ptr.None? || (size > 0 && r.None?) ==> PayloadsKept(old(mem), old(blocks), mem, blocks)
      ensures ptr.Some? ==>
        PayloadsKept(old(mem), Cleared(old(blocks), IndexOf(old(blocks), ptr.value).value), mem, blocks)
      ensures ptr.Some? && r.Some? ==>
        Copied(old(mem), mem, ptr.value, r.value,
               CopySize(old(blocks)[IndexOf(old(blocks), ptr.value).value].size, size))
    {
      if ptr.None? {
        r := Malloc(size);
        return;
      }
      if size == 0 {
        Free(ptr.value);
        return None;
      }
      r := ReallocMove(ptr.value, size, IndexOf(blocks, ptr.value).value);
    }

    /** The moving path of mm_realloc, for a non-NULL ptr and a non-zero size. */
    method ReallocMove(p: int, size: nat, ghost i: nat) returns (r: Option<int>)
      requires Valid() && IsAllocated(blocks, p) && i == IndexOf(blocks, p).value && size > 0
      modifies this
      ensures Valid() && heapListp == old(heapListp)
      ensures MovedOrKept(old(mem), old(blocks), mem, blocks, old(heapListp) + DSIZE, limit, p, size, i, r)
    {
      ghost var bs, m0, hl := blocks, mem, heapListp;
      r := Malloc(size);
      if r.None? {
        KeptFinish(m0, bs, mem, blocks, hl + DSIZE, limit, p, size, i);
        return;
      }
      ghost var b1, m1 := blocks, mem;
      ghost var j, q := ReallocIndices(bs, hl + DSIZE, limit, p, size, i, blocks, r);
      MoveBlock(p, r.value, size, j, q);
      MoveDone(m0, bs, m1, b1, mem, blocks, hl + DSIZE, limit, p, size, i, j, q, r);
    }

    /**
     * The rest of mm_realloc once the new block q is allocated: copy the
     * old payload of block j, cut to size, into it and free block j.
     */
    method MoveBlock(p: int, newp: int, size: nat, ghost j: nat, ghost q: nat)
      requires Valid() && j < |blocks| && q < |blocks| && j != q
      requires blocks[j].bp == p && blocks[j].alloc && blocks[q].bp == newp && blocks[q].alloc
      requires size + DSIZE <= blocks[q].size
      modifies this
      ensures Valid() && heapListp == old(heapListp)
      ensures blocks == FreeAt(old(blocks), j)
      ensures PayloadsKept(old(mem), Cleared(Cleared(old(blocks), j), q), mem, blocks)
      ensures Copied(old(mem), mem, p, newp, CopySize(old(blocks)[j].size, size))
    {
      ghost var b1, m1, hl := blocks, mem, heapListp;
      assert TagsOk(m1, b1[j]);
      ReadTags(m1, b1[j]);
      IndexOfTiling(b1, hl + DSIZE, j);
      var copySize := GetSize(mem, Hdrp(p)) - DSIZE;
      if size < copySize {
        copySize := size;
      }
      assert copySize == CopySize(b1[j].size, size);
      CopyPayload(newp, p, copySize, q, j);
      ghost var m2 := mem;
      Free(p);
      MoveKeeps(m1, b1, m2, mem, blocks, hl + DSIZE, j, q);
      Within(b1, hl + DSIZE, q);
      MoveCopy(m1, m2, mem, p, b1[q], copySize);
      assert Copied(m1, mem, p, newp, copySize);
    }

    /** memcpy(dst, src, n) from the payload of block j into that of block q. */
    method CopyPayload(dst: int, src: int, n: nat, ghost q: nat, ghost j: nat)
      requires Valid() && q < |blocks| && j < |blocks| && q != j
      requires blocks[q].bp == dst && blocks[j].bp == src
      requires n <= blocks[q].size - DSIZE && n <= blocks[j].size - DSIZE
      modifies this
      ensures Valid() && blocks == old(blocks) && heapListp == old(heapListp)
      ensures dst + n <= src || src + n <= dst
      ensures 0 <= dst && dst + n <= |old(mem)| && 0 <= src && src + n <= |old(mem)|
      ensures Copied(old(mem), mem, src, dst, n) && SameOutside(old(mem), mem, dst, dst + n)
      ensures forall b :: b in blocks && b.bp != dst ==> Payload(mem, b) == Payload(old(mem), b)
    {
      CopyRanges(mem, heapListp, blocks, q, j, n);
      ghost var m0 := mem;
      mem := Memcpy(mem, dst, src, n);
      CopyWrites(m0, mem, heapListp, blocks, q, j, n);
      MemcpyWrites(m0, dst, src, n);
    }

    /**
     * extend_heap(words): ask mem_sbrk for words rounded up to an even
     * count, turn the new space into a free block whose header replaces the
     * old epilogue, write a new epilogue after it, and coalesce the block
     * with a free last block. NULL, with nothing changed, when the arena
     * cannot grow.
     */
    method ExtendHeap(words: nat) returns (bp: Option<int>)
      requires Valid() && words > 0
      modifies this
      ensures Valid() && heapListp == old(heapListp)
      ensures |old(mem)| + ExtendBytes(words) > limit ==> bp.None? && mem == old(mem) && blocks == old(blocks)
      ensures |old(mem)| + ExtendBytes(words) <= limit ==>
        |mem| == |old(mem)| + ExtendBytes(words) &&
        blocks == Extend(old(blocks), old(heapListp) + DSIZE, ExtendBytes(words)) &&
        bp == Some(blocks[|blocks| - 1].bp) &&
        !blocks[|blocks| - 1].alloc && blocks[|blocks| - 1].size >= ExtendBytes(words)
      ensures PayloadsKept(old(mem), old(blocks), mem, blocks)
    {
      ghost var bs, m0, hl := blocks, mem, heapListp;
      var size := ExtendBytes(words);
      var p := MemSbrk(size);
      if p == -1 {
        return None;
      }
      NewFreeBlock(p, size);
      ghost var m3 := mem;
      var r := Coalesce(p, |bs|);
      ExtendLast(bs, hl + DSIZE, size);
      ExtendSound(bs, hl + DSIZE, size);
      PayloadsKeptTrans(m0, bs, m3, bs + [Block(p, size, false)], mem, blocks);
      return Some(r);
    }

    /**
     * The middle of extend_heap: the size bytes at p, just obtained from
     * mem_sbrk, become a free block whose header overwrites the old
     * epilogue, and a new epilogue header follows them.
     */
    method NewFreeBlock(p: int, size: int)
      requires ArenaOk() && 0 <= p && p + size == |mem| && size >= DSIZE && size % DSIZE == 0
      requires Image(mem[..p], heapListp, blocks) && NoAdjacentFree(blocks)
      modifies this
      ensures ArenaOk() && heapListp == old(heapListp) && |mem| == |old(mem)|
      ensures blocks == old(blocks) + [Block(p, size, false)]
      ensures Image(mem, heapListp, blocks) && NoAdjacentFreeExcept(blocks, |old(blocks)|)
      ensures PayloadsKept(old(mem)[..p], old(blocks), mem, blocks)
    {
      ghost var bs, m0, ms, hl := blocks, mem[..p], mem, heapListp;
      WriteTags(p, size, 0);
      ghost var m2 := mem;
      mem := Put(mem, Hdrp(NextBlkp(mem, p)), Pack(0, 1));
      ExtendWrites(m0, ms, m2, mem, hl, bs, size);
      ghost var nb := Block(p, size, false);
      assert nb == Block(End(bs, hl + DSIZE), size, false);
      blocks := bs + [nb];
      Append(bs, hl + DSIZE, nb);
    }

    /**
     * find_fit(asize): walk the blocks from heap_listp until the epilogue
     * and return the first free block of at least asize bytes, or NULL.
     * It changes nothing.
     */
    method FindFit(asize: int) returns (bp: Option<int>)
      requires Valid()
      ensures FirstFit(blocks, asize).None? ==> bp.None?
      ensures FirstFit(blocks, asize).Some? ==> bp == Some(blocks[FirstFit(blocks, asize).value].bp)
    {
      var p := heapListp;
      ghost var j := 0;
      ReadPosition(mem, heapListp, blocks, j);
      while GetSize(mem, Hdrp(p)) > 0
        invariant j <= |blocks| + 1 && p == Position(heapListp, blocks, j)
        invariant WordAt(mem, Hdrp(p))
        invariant forall t :: 0 <= t < j - 1 ==> !Fits(blocks[t], asize)
        decreases |blocks| + 1 - j
      {
        ReadPosition(mem, heapListp, blocks, j);
        if GetAlloc(mem, Hdrp(p)) == 0 && asize <= GetSize(mem, Hdrp(p)) {
          return Some(p);
        }
        p := NextBlkp(mem, p);
        j := j + 1;
        ReadPosition(mem, heapListp, blocks, j);
      }
      ReadPosition(mem, heapListp, blocks, j);
      return None;
    }

    /**
     * coalesce(bp) on block i, which is free and the only possible
     * exception to the coalescing invariant: read the states of both
     * neighbours and merge block i with whichever of them are free, as the
     * four cases of the source do. The result is the merged block, which
     * starts at the predecessor when that was free.
     */
    method Coalesce(bp: int, ghost i: nat) returns (r: int)
      requires ArenaOk() && Image(mem, heapListp, blocks)
      requires i < |blocks| && blocks[i].bp == bp && !blocks[i].alloc
      requires NoAdjacentFreeExcept(blocks, i)
      modifies this
      ensures blocks == Blocks.Coalesce(old(blocks), i) && r == Merged(old(blocks), i).bp
      ensures Valid() && heapListp == old(heapListp) && |mem| == |old(mem)|
      ensures PayloadsKept(old(mem), old(blocks), mem, blocks)
    {
      ghost var bs := blocks;
      NeighbourStates(mem, heapListp, blocks, i);
      var prevAlloc := GetAlloc(mem, Ftrp(mem, PrevBlkp(mem, bp)));
      var nextAlloc := GetAlloc(mem, Hdrp(NextBlkp(mem, bp)));
      if prevAlloc == 1 && nextAlloc == 1 {
        NothingToMerge(mem, heapListp, bs, i);
        r := bp;
      } else if prevAlloc == 1 && nextAlloc == 0 {
        r := MergeNext(bp, i);
      } else if prevAlloc == 0 && nextAlloc == 1 {
        r := MergePrev(bp, i);
      } else {
        r := MergeBoth(bp, i);
      }
      blocks := Blocks.Coalesce(bs, i);
    }

    /** Case 2 of coalesce: only the successor is free; block i absorbs it. */
    method MergeNext(bp: int, ghost i: nat) returns (r: int)
      requires ArenaOk() && Image(mem, heapListp, blocks)
      requires i < |blocks| && blocks[i].bp == bp && !blocks[i].alloc
      requires NoAdjacentFreeExcept(blocks, i)
      requires (i == 0 || blocks[i - 1].alloc) && i + 1 < |blocks| && !blocks[i + 1].alloc
      modifies this
      ensures heapListp == old(heapListp) && blocks == old(blocks) && ArenaOk()
      ensures CoalesceDone(old(mem), mem, heapListp, blocks, i) && r == Merged(blocks, i).bp
    {
      ghost var bs, m0, hl := blocks, mem, heapListp;
      ghost var nb := Merged(bs, i);
      ReadsForCoalesce(m0, hl, bs, i);
      var size := GetSize(mem, Hdrp(bp));
      size := size + GetSize(mem, Hdrp(NextBlkp(mem, bp)));
      assert size == nb.size;
      mem := Put(mem, Hdrp(bp), Pack(size, 0));
      ghost var m1 := mem;
      ReadWritten(m0, Hdrp(bp), size, 0);
      assert Ftrp(m1, bp) == nb.bp + nb.size - DSIZE;
      mem := Put(mem, Ftrp(mem, bp), Pack(size, 0));
      HeaderThenFooter(m0, hl, bs, i, Hdrp(bp), Ftrp(m1, bp), size);
      r := bp;
    }

    /**
     * Case 3 of coalesce: only the predecessor is free; it absorbs block i.
     * The footer of block i is written first, then the predecessor's header.
     */
    method MergePrev(bp: int, ghost i: nat) returns (r: int)
      requires ArenaOk() && Image(mem, heapListp, blocks)
      requires i < |blocks| && blocks[i].bp == bp && !blocks[i].alloc
      requires NoAdjacentFreeExcept(blocks, i)
      requires i > 0 && !blocks[i - 1].alloc && (i + 1 == |blocks| || blocks[i + 1].alloc)
      modifies this
      ensures heapListp == old(heapListp) && blocks == old(blocks) && ArenaOk()
      ensures CoalesceDone(old(mem), mem, heapListp, blocks, i) && r == Merged(blocks, i).bp
    {
      ghost var bs, m0, hl := blocks, mem, heapListp;
      ghost var nb := Merged(bs, i);
      ReadsForCoalesce(m0, hl, bs, i);
      assert MergeStart(bs, i) == i - 1 && MergeEnd(bs, i) == i;
      ghost var a, f := Hdrp(nb.bp), Ftrp(m0, bp);
      assert f == nb.bp + nb.size - DSIZE;
      var size := GetSize(mem, Hdrp(bp));
      size := size + GetSize(mem, Hdrp(PrevBlkp(mem, bp)));
      assert size == nb.size;
      mem := Put(mem, Ftrp(mem, bp), Pack(size, 0));
      ghost var m1 := mem;
      PrevAfterPut(m0, f, Pack(size, 0), bp);
      mem := Put(mem, Hdrp(PrevBlkp(mem, bp)), Pack(size, 0));
      PrevAfterPut(m1, a, Pack(size, 0), bp);
      r := PrevBlkp(mem, bp);
      assert r == nb.bp;
      FooterThenHeader(m0, hl, bs, i, a, f, size);
    }

    /** Case 4 of coalesce: both neighbours are free; the predecessor absorbs both. */
    method MergeBoth(bp: int, ghost i: nat) returns (r: int)
      requires ArenaOk() && Image(mem, heapListp, blocks)
      requires i < |blocks| && blocks[i].bp == bp && !blocks[i].alloc
      requires NoAdjacentFreeExcept(blocks, i)
      requires i > 0 && !blocks[i - 1].alloc && i + 1 < |blocks| && !blocks[i + 1].alloc
      modifies this
      ensures heapListp == old(heapListp) && blocks == old(blocks) && ArenaOk()
      ensures CoalesceDone(old(mem), mem, heapListp, blocks, i) && r == Merged(blocks, i).bp
    {
      ghost var bs, m0, hl := blocks, mem, heapListp;
      ghost var nb := Merged(bs, i);
      ReadsForCoalesce(m0, hl, bs, i);
      assert MergeStart(bs, i) == i - 1 && MergeEnd(bs, i) == i + 1;
      ghost var a, next := Hdrp(nb.bp), NextBlkp(m0, bp);
      ghost var f := Ftrp(m0, next);
      assert f == nb.bp + nb.size - DSIZE;
      var size := GetSize(mem, Hdrp(bp));
      size := size + GetSize(mem, Hdrp(PrevBlkp(mem, bp))) + GetSize(mem, Ftrp(mem, NextBlkp(mem, bp)));
      assert size == nb.size;
      mem := Put(mem, Hdrp(PrevBlkp(mem, bp)), Pack(size, 0));
      ghost var m1 := mem;
      HeaderAfterPut(m0, a, Pack(size, 0), bp);
      HeaderAfterPut(m0, a, Pack(size, 0), next);
      PrevAfterPut(m0, a, Pack(size, 0), bp);
      mem := Put(mem, Ftrp(mem, NextBlkp(mem, bp)), Pack(size, 0));
      PrevAfterPut(m1, f, Pack(size, 0), bp);
      r := PrevBlkp(mem, bp);
      assert r == nb.bp;
      HeaderThenFooter(m0, hl, bs, i, a, f, size);
    }

    /**
     * place(bp, asize) on block i, a free block of at least asize bytes:
     * split off the remainder as a free block when it is at least 16
     * bytes, otherwise mark the whole block allocated.
     */
    method Place(bp: int, asize: int, ghost i: nat)
      requires Valid() && i < |blocks| && blocks[i].bp == bp && Fits(blocks[i], asize)
      requires asize >= 2 * DSIZE && asize % DSIZE == 0
      modifies this
      ensures blocks == Blocks.Place(old(blocks), i, asize)
      ensures Valid() && heapListp == old(heapListp) && |mem| == |old(mem)|
      ensures PayloadsKept(old(mem), old(blocks), mem, blocks)
    {
      ghost var bs := blocks;
      NextReads(mem, heapListp, blocks, i);
      var csize := GetSize(mem, Hdrp(bp));
      if csize - asize >= 2 * DSIZE {
        PlaceSplit(bp, asize, csize, i);
      } else {
        PlaceWhole(bp, asize, csize, i);
      }
      blocks := Blocks.Place(bs, i, asize);
    }

    /** place when the remainder is at least 16 bytes: split the block in two. */
    method PlaceSplit(bp: int, asize: int, csize: int, ghost i: nat)
      requires Valid() && i < |blocks| && blocks[i].bp == bp && Fits(blocks[i], asize)
      requires asize >= 2 * DSIZE && asize % DSIZE == 0
      requires csize == blocks[i].size && csize - asize >= 2 * DSIZE
      modifies this
      ensures heapListp == old(heapListp) && blocks == old(blocks) && ArenaOk()
      ensures PlaceDone(old(mem), mem, old(heapListp), old(blocks), i, asize)
    {
      ghost var bs, m0, hl := blocks, mem, heapListp;
      Within(bs, hl + DSIZE, i);
      SubAligned(csize, asize);
      WriteTags(bp, asize, 1);
      ghost var m2 := mem;
      var next := NextBlkp(mem, bp);
      WriteTags(next, csize - asize, 0);
      SplitWrites(m0, m2, mem, hl, bs, i, asize, csize);
    }

    /** place when the remainder would be under 16 bytes: allocate the whole block. */
    method PlaceWhole(bp: int, asize: int, csize: int, ghost i: nat)
      requires Valid() && i < |blocks| && blocks[i].bp == bp && Fits(blocks[i], asize)
      requires asize >= 2 * DSIZE && asize % DSIZE == 0
      requires csize == blocks[i].size && csize - asize < 2 * DSIZE
      modifies this
      ensures heapListp == old(heapListp) && blocks == old(blocks) && ArenaOk()
      ensures PlaceDone(old(mem), mem, old(heapListp), old(blocks), i, asize)
    {
      ghost var bs, m0, hl := blocks, mem, heapListp;
      Within(bs, hl + DSIZE, i);
      WriteTags(bp, csize, 1);
      WholeWrites(m0, mem, hl, bs, i, asize, csize);
    }

    /**
     * PUT(HDRP(bp), PACK(size, alloc)) then PUT(FTRP(bp), PACK(size, alloc)):
     * the footer is found through the header just written, so both tags
     * land at the ends of a block of the new size, which NEXT_BLKP now skips.
     */
    method WriteTags(bp: int, size: int, alloc: Bit)
      requires 0 <= bp - WSIZE && bp + size - WSIZE <= |mem|
      requires DSIZE <= size < WORD_LIMIT && size % DSIZE == 0
      modifies this
      ensures heapListp == old(heapListp) && blocks == old(blocks)
      ensures TagsOk(mem, Block(bp, size, alloc == 1))
      ensures SameOutside(old(mem), mem, bp - WSIZE, bp + size - WSIZE)
      ensures NextBlkp(mem, bp) == bp + size
    {
      ghost var m0 := mem;
      WriteHeader(mem, bp, size, alloc);
      mem := Put(mem, Hdrp(bp), Pack(size, alloc));
      ghost var m1 := mem;
      mem := Put(mem, Ftrp(mem, bp), Pack(size, alloc));
      HeaderAfterPut(m1, bp + size - DSIZE, Pack(size, alloc), bp);
      WriteBlock(m0, mem, Block(bp, size, alloc == 1), bp - WSIZE, bp + size - DSIZE, Pack(size, alloc));
    }
  }
}
