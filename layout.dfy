/**
 * How the block list sits in the arena: the prologue, the header and footer
 * of every block, the epilogue header; how the address macros read
 * neighbours through those tags; and which writes keep the picture intact.
 */
module Layout {
  import opened Tags
  import opened Memory
  import opened Blocks

  /** The prologue: an allocated 8-byte block (header and footer only) at payload hl. */
  function Prologue(hl: int): Block
  {
    Block(hl, DSIZE, true)
  }

  /** Block b's header and footer both hold PACK(size, alloc). */
  predicate TagsOk(m: seq<Byte>, b: Block)
  {
    DSIZE <= b.size < WORD_LIMIT && b.size % DSIZE == 0 &&
    WordAt(m, b.bp - WSIZE) && WordAt(m, b.bp + b.size - DSIZE) &&
    Get(m, b.bp - WSIZE) == Pack(b.size, BitOf(b.alloc)) &&
    Get(m, b.bp + b.size - DSIZE) == Pack(b.size, BitOf(b.alloc))
  }

  /**
   * The arena m holds the heap whose prologue payload is hl (heap_listp)
   * and whose regular blocks are bs: the prologue's tags, then bs tiling
   * from hl + 8 with correct tags, then the epilogue header PACK(0, 1) as
   * the last word before the break.
   */
  predicate Image(m: seq<Byte>, hl: int, bs: seq<Block>)
  {
    TagsOk(m, Prologue(hl)) &&
    Contiguous(bs, hl + DSIZE) && |m| == End(bs, hl + DSIZE) &&
    WordAt(m, |m| - WSIZE) && Get(m, |m| - WSIZE) == Pack(0, 1) &&
    forall k {:trigger TagsOk(m, bs[k])} :: 0 <= k < |bs| ==> TagsOk(m, bs[k])
  }

  /** The payload bytes of a block: everything between its header and its footer. */
  function Payload(m: seq<Byte>, b: Block): seq<Byte>
  {
    if 0 <= b.bp && DSIZE <= b.size && b.bp + b.size - DSIZE <= |m|
    then m[b.bp..b.bp + b.size - DSIZE]
    else []
  }

  /** Every allocated block of bs0 is still a block of bs1, with the same payload bytes. */
  ghost predicate PayloadsKept(m0: seq<Byte>, bs0: seq<Block>, m1: seq<Byte>, bs1: seq<Block>)
  {
    forall b :: b in bs0 && b.alloc ==> b in bs1 && Payload(m1, b) == Payload(m0, b)
  }

  /** Payloads kept across two steps are kept across both. */
  lemma PayloadsKeptTrans(m0: seq<Byte>, bs0: seq<Block>, m1: seq<Byte>, bs1: seq<Block>, m2: seq<Byte>, bs2: seq<Block>)
    requires PayloadsKept(m0, bs0, m1, bs1) && PayloadsKept(m1, bs1, m2, bs2)
    ensures PayloadsKept(m0, bs0, m2, bs2)
  {
  }

  /** The outcome coalesce promises: the coalesced list is in the arena, payloads kept. */
  ghost predicate CoalesceDone(m0: seq<Byte>, m2: seq<Byte>, hl: int, bs: seq<Block>, i: nat)
  {
    i < |bs| && |m2| == |m0| &&
    Image(m2, hl, Blocks.Coalesce(bs, i)) && NoAdjacentFree(Blocks.Coalesce(bs, i)) &&
    PayloadsKept(m0, bs, m2, Blocks.Coalesce(bs, i))
  }

  /** The outcome place promises: the placed list is in the arena, payloads kept. */
  ghost predicate PlaceDone(m0: seq<Byte>, m1: seq<Byte>, hl: int, bs: seq<Block>, i: nat, asize: int)
  {
    i < |bs| && |m1| == |m0| &&
    Image(m1, hl, Blocks.Place(bs, i, asize)) && NoAdjacentFree(Blocks.Place(bs, i, asize)) &&
    PayloadsKept(m0, bs, m1, Blocks.Place(bs, i, asize))
  }

  /** m1 is m0 with at most the bytes [lo, hi) changed. */
  predicate SameOutside(m0: seq<Byte>, m1: seq<Byte>, lo: int, hi: int)
  {
    |m1| == |m0| && 0 <= lo <= hi <= |m0| &&
    Agree(m0, m1, 0, lo) && Agree(m0, m1, hi, |m0|)
  }

  // ---------------------------------------------------------------------
  // Writing

  /** A PUT inside [lo, hi) changes nothing outside it. */
  lemma PutInside(m: seq<Byte>, p: int, v: Word, lo: int, hi: int)
    requires WordAt(m, p) && 0 <= lo <= p && p + WSIZE <= hi <= |m|
    ensures SameOutside(m, Put(m, p, v), lo, hi)
  {
  }

  /** PREV_BLKP(bp) reads the same through a PUT that misses the word before bp's header. */
  lemma PrevAfterPut(m: seq<Byte>, p: int, v: Word, bp: int)
    requires WordAt(m, p) && WordAt(m, bp - DSIZE)
    requires p + WSIZE <= bp - DSIZE || bp - WSIZE <= p
    ensures WordAt(Put(m, p, v), bp - DSIZE) && PrevBlkp(Put(m, p, v), bp) == PrevBlkp(m, bp)
  {
    GetPutOther(m, p, v, bp - DSIZE);
  }

  /** NEXT_BLKP(bp) and FTRP(bp) read the same through a PUT that misses bp's header. */
  lemma HeaderAfterPut(m: seq<Byte>, p: int, v: Word, bp: int)
    requires WordAt(m, p) && WordAt(m, bp - WSIZE)
    requires p + WSIZE <= bp - WSIZE || bp <= p
    ensures WordAt(Put(m, p, v), Hdrp(bp)) && NextBlkp(Put(m, p, v), bp) == NextBlkp(m, bp)
    ensures Ftrp(Put(m, p, v), bp) == Ftrp(m, bp)
  {
    GetPutOther(m, p, v, bp - WSIZE);
  }

  /** A PUT leaves every word it does not overlap as it was. */
  lemma GetPutOther(m: seq<Byte>, p: int, v: Word, q: int)
    requires WordAt(m, p) && WordAt(m, q) && (q + WSIZE <= p || p + WSIZE <= q)
    ensures Get(Put(m, p, v), q) == Get(m, q)
  {
  }

  lemma SameOutsideTrans(m0: seq<Byte>, m1: seq<Byte>, m2: seq<Byte>, lo: int, hi: int)
    requires SameOutside(m0, m1, lo, hi) && SameOutside(m1, m2, lo, hi)
    ensures SameOutside(m0, m2, lo, hi)
  {
  }

  lemma SameOutsideWiden(m0: seq<Byte>, m1: seq<Byte>, lo: int, hi: int, lo': int, hi': int)
    requires SameOutside(m0, m1, lo, hi) && 0 <= lo' <= lo && hi <= hi' <= |m0|
    ensures SameOutside(m0, m1, lo', hi')
  {
  }

  /** Tags that lie in a window where two arenas agree read the same in both. */
  lemma KeepTags(m0: seq<Byte>, m1: seq<Byte>, b: Block, lo: int, hi: int)
    requires TagsOk(m0, b) && Agree(m0, m1, lo, hi)
    requires lo <= b.bp - WSIZE && b.bp + b.size - WSIZE <= hi
    ensures TagsOk(m1, b)
  {
    GetAgree(m0, m1, b.bp - WSIZE, lo, hi);
    GetAgree(m0, m1, b.bp + b.size - DSIZE, lo, hi);
  }

  /** A payload that lies in a window where two arenas agree is the same in both. */
  lemma KeepPayload(m0: seq<Byte>, m1: seq<Byte>, b: Block, lo: int, hi: int)
    requires Agree(m0, m1, lo, hi) && lo <= b.bp && DSIZE <= b.size && b.bp + b.size - DSIZE <= hi
    ensures Payload(m1, b) == Payload(m0, b)
  {
  }

  // ---------------------------------------------------------------------
  // Reading

  /**
   * GET_SIZE and GET_ALLOC on a block's header and footer give its size and
   * state, FTRP finds its footer, and NEXT_BLKP steps over it.
   */
  lemma ReadTags(m: seq<Byte>, b: Block)
    requires TagsOk(m, b)
    ensures GetSize(m, Hdrp(b.bp)) == b.size && GetAlloc(m, Hdrp(b.bp)) == BitOf(b.alloc)
    ensures Ftrp(m, b.bp) == b.bp + b.size - DSIZE
    ensures GetSize(m, Ftrp(m, b.bp)) == b.size && GetAlloc(m, Ftrp(m, b.bp)) == BitOf(b.alloc)
    ensures NextBlkp(m, b.bp) == b.bp + b.size
  {
    TagRoundTrip(b.size, BitOf(b.alloc));
  }

  /** The block before block k: the previous regular block, or the prologue. */
  function Before(hl: int, bs: seq<Block>, k: nat): Block
    requires k <= |bs|
  {
    if k == 0 then Prologue(hl) else bs[k - 1]
  }

  /** PREV_BLKP of block k reaches the block before it, through that block's footer. */
  lemma ReadPrev(m: seq<Byte>, hl: int, bs: seq<Block>, k: nat)
    requires Image(m, hl, bs) && k < |bs|
    ensures TagsOk(m, Before(hl, bs, k))
    ensures Before(hl, bs, k).bp + Before(hl, bs, k).size == bs[k].bp
    ensures WordAt(m, bs[k].bp - DSIZE) && PrevBlkp(m, bs[k].bp) == Before(hl, bs, k).bp
  {
    var b := Before(hl, bs, k);
    ReadTags(m, b);
  }

  /**
   * NEXT_BLKP of block k reaches the next block, or, after the last block,
   * the epilogue, whose header reads size 0 and allocated.
   */
  lemma ReadNext(m: seq<Byte>, hl: int, bs: seq<Block>, k: nat)
    requires Image(m, hl, bs) && k < |bs|
    ensures TagsOk(m, bs[k])
    ensures NextBlkp(m, bs[k].bp) == bs[k].bp + bs[k].size
    ensures k + 1 < |bs| ==> bs[k + 1].bp == bs[k].bp + bs[k].size && TagsOk(m, bs[k + 1])
    ensures k + 1 == |bs| ==>
      bs[k].bp + bs[k].size == |m| && WordAt(m, |m| - WSIZE) &&
      GetSize(m, |m| - WSIZE) == 0 && GetAlloc(m, |m| - WSIZE) == 1
  {
    ReadTags(m, bs[k]);
    if k + 1 == |bs| {
      TagRoundTrip(0, 1);
    } else {
      assert TagsOk(m, bs[k + 1]);
    }
  }

  /**
   * The j-th payload pointer find_fit visits from heap_listp: the prologue,
   * then each regular block, then the epilogue.
   */
  function Position(hl: int, bs: seq<Block>, j: nat): int
  {
    if j == 0 then hl else if j <= |bs| then bs[j - 1].bp else End(bs, hl + DSIZE)
  }

  /**
   * What the header at each visited position reads: 8 and allocated for
   * the prologue, the block's own size and state, 0 and allocated for the
   * epilogue; NEXT_BLKP moves on to the following position.
   */
  lemma ReadPosition(m: seq<Byte>, hl: int, bs: seq<Block>, j: nat)
    requires Image(m, hl, bs) && j <= |bs| + 1
    ensures WordAt(m, Hdrp(Position(hl, bs, j)))
    ensures j == 0 ==>
      GetSize(m, Hdrp(Position(hl, bs, j))) == DSIZE && GetAlloc(m, Hdrp(Position(hl, bs, j))) == 1
    ensures 0 < j <= |bs| ==>
      GetSize(m, Hdrp(Position(hl, bs, j))) == bs[j - 1].size &&
      GetAlloc(m, Hdrp(Position(hl, bs, j))) == BitOf(bs[j - 1].alloc)
    ensures j == |bs| + 1 ==> GetSize(m, Hdrp(Position(hl, bs, j))) == 0
    ensures j <= |bs| ==> NextBlkp(m, Position(hl, bs, j)) == Position(hl, bs, j + 1)
  {
    if j == 0 {
      ReadTags(m, Prologue(hl));
    } else if j <= |bs| {
      ReadTags(m, bs[j - 1]);
      if j < |bs| {
        assert bs[j].bp == bs[j - 1].bp + bs[j - 1].size;
      }
    }
  }

  // ---------------------------------------------------------------------
  // Decoding: the block list is determined by the arena

  /**
   * The blocks found by following headers from payload bp, as find_fit
   * does, until a header reads size 0.
   */
  ghost function Walk(m: seq<Byte>, bp: int): seq<Block>
    decreases |m| - bp
  {
    if !(WSIZE <= bp <= |m|) then []
    else
      var size := GetSize(m, bp - WSIZE);
      if size == 0 then []
      else [Block(bp, size, GetAlloc(m, bp - WSIZE) == 1)] + Walk(m, bp + size)
  }

  /**
   * Whatever the arena holds, the blocks the header walk finds from bp tile
   * memory from bp onward, each a multiple of 8 and at least 8 bytes.
   */
  lemma {:induction false} WalkTiles(m: seq<Byte>, bp: int)
    ensures Contiguous(Walk(m, bp), bp)
    ensures forall k :: 0 <= k < |Walk(m, bp)| ==>
              Walk(m, bp)[k].size >= DSIZE && Walk(m, bp)[k].size % DSIZE == 0
    decreases |m| - bp
  {
    if WSIZE <= bp <= |m| && GetSize(m, bp - WSIZE) > 0 {
      var size := GetSize(m, bp - WSIZE);
      var rest := Walk(m, bp + size);
      WalkTiles(m, bp + size);
      var r := Walk(m, bp);
      assert r == [Block(bp, size, GetAlloc(m, bp - WSIZE) == 1)] + rest;
      assert forall k :: 0 < k < |r| ==> r[k] == rest[k - 1];
    }
  }

  /** Walking from a block with correct tags yields that block, then the walk from its successor. */
  lemma WalkStep(m: seq<Byte>, b: Block)
    requires TagsOk(m, b)
    ensures Walk(m, b.bp) == [b] + Walk(m, b.bp + b.size)
  {
    ReadTags(m, b);
  }

  lemma {:induction false} WalkFrom(m: seq<Byte>, hl: int, bs: seq<Block>, k: nat)
    requires Image(m, hl, bs) && k <= |bs|
    ensures Walk(m, Position(hl, bs, k + 1)) == bs[k..]
    decreases |bs| - k
  {
    ReadPosition(m, hl, bs, k + 1);
    if k < |bs| {
      var b := bs[k];
      ReadPosition(m, hl, bs, k + 2);
      WalkStep(m, b);
      WalkFrom(m, hl, bs, k + 1);
      assert bs[k..] == [b] + bs[k + 1..];
    } else {
      var e := Position(hl, bs, k + 1);
      assert WSIZE <= e <= |m| && GetSize(m, e - WSIZE) == 0;
    }
  }

  /**
   * The heap an arena holds is unique: walking the headers from the first
   * block after the prologue yields exactly the block list.
   */
  lemma ImageDecodes(m: seq<Byte>, hl: int, bs: seq<Block>)
    requires Image(m, hl, bs)
    ensures Walk(m, hl + DSIZE) == bs
  {
    WalkFrom(m, hl, bs, 0);
  }

  // ---------------------------------------------------------------------
  // Rewriting a run of blocks

  /**
   * Rewriting the tags of blocks lo..hi (from the header of lo to the
   * footer of hi) so that they describe mid keeps the image, and every
   * block outside the run keeps its payload.
   */
  lemma ImageSplice(m0: seq<Byte>, m1: seq<Byte>, hl: int, bs: seq<Block>, lo: nat, hi: nat, mid: seq<Block>)
    requires Image(m0, hl, bs) && lo <= hi < |bs|
    requires |mid| > 0 && Contiguous(mid, bs[lo].bp) && End(mid, bs[lo].bp) == bs[hi].bp + bs[hi].size
    requires SameOutside(m0, m1, bs[lo].bp - WSIZE, bs[hi].bp + bs[hi].size - WSIZE)
    requires forall t :: 0 <= t < |mid| ==> TagsOk(m1, mid[t])
    ensures Image(m1, hl, Splice(bs, lo, hi, mid))
    ensures forall k :: 0 <= k < |bs| && (k < lo || hi < k) ==> Payload(m1, bs[k]) == Payload(m0, bs[k])
  {
    var start := hl + DSIZE;
    var a, z := bs[lo].bp - WSIZE, bs[hi].bp + bs[hi].size - WSIZE;
    var r := Splice(bs, lo, hi, mid);
    SpliceContiguous(bs, lo, hi, mid, start);
    Within(bs, start, lo);
    Within(bs, start, hi);
    KeepTags(m0, m1, Prologue(hl), 0, a);
    GetAgree(m0, m1, |m0| - WSIZE, z, |m0|);
    SpliceTags(m0, m1, hl, bs, lo, hi, mid);
    assert |m1| == End(r, start);
    assert TagsOk(m1, Prologue(hl));
    assert Contiguous(r, start);
    assert WordAt(m1, |m1| - WSIZE);
    assert Get(m1, |m1| - WSIZE) == Pack(0, 1);
    assert forall k :: 0 <= k < |r| ==> TagsOk(m1, r[k]);
    SplicePayloads(m0, m1, hl, bs, lo, hi);
  }

  /** A block of a tiling lies between its start and its end. */
  lemma Within(bs: seq<Block>, start: int, k: nat)
    requires Contiguous(bs, start) && k < |bs|
    ensures start <= bs[k].bp && bs[k].bp + bs[k].size <= End(bs, start)
  {
    ContiguousLayout(bs, start);
  }

  lemma SpliceTags(m0: seq<Byte>, m1: seq<Byte>, hl: int, bs: seq<Block>, lo: nat, hi: nat, mid: seq<Block>)
    requires Image(m0, hl, bs) && lo <= hi < |bs|
    requires SameOutside(m0, m1, bs[lo].bp - WSIZE, bs[hi].bp + bs[hi].size - WSIZE)
    requires forall t :: 0 <= t < |mid| ==> TagsOk(m1, mid[t])
    ensures forall k :: 0 <= k < |Splice(bs, lo, hi, mid)| ==> TagsOk(m1, Splice(bs, lo, hi, mid)[k])
  {
    var a, z := bs[lo].bp - WSIZE, bs[hi].bp + bs[hi].size - WSIZE;
    ContiguousLayout(bs, hl + DSIZE);
    var r := Splice(bs, lo, hi, mid);
    var d := (hi - lo + 1) - |mid|;
    forall k | 0 <= k < |r| ensures TagsOk(m1, r[k]) {
      if k < lo {
        assert r[k] == bs[k];
        KeepTags(m0, m1, bs[k], 0, a);
      } else if k < lo + |mid| {
        assert r[k] == mid[k - lo];
      } else {
        assert r[k] == bs[k + d];
        KeepTags(m0, m1, bs[k + d], z, |m0|);
      }
    }
  }

  lemma SplicePayloads(m0: seq<Byte>, m1: seq<Byte>, hl: int, bs: seq<Block>, lo: nat, hi: nat)
    requires Image(m0, hl, bs) && lo <= hi < |bs|
    requires SameOutside(m0, m1, bs[lo].bp - WSIZE, bs[hi].bp + bs[hi].size - WSIZE)
    ensures forall k :: 0 <= k < |bs| && (k < lo || hi < k) ==> Payload(m1, bs[k]) == Payload(m0, bs[k])
  {
    var a, z := bs[lo].bp - WSIZE, bs[hi].bp + bs[hi].size - WSIZE;
    ContiguousLayout(bs, hl + DSIZE);
    forall k | 0 <= k < |bs| && (k < lo || hi < k) ensures Payload(m1, bs[k]) == Payload(m0, bs[k]) {
      if k < lo {
        KeepPayload(m0, m1, bs[k], 0, a);
      } else {
        KeepPayload(m0, m1, bs[k], z, |m0|);
      }
    }
  }

  /**
   * Rewriting a run of free blocks keeps every allocated block with its
   * payload.
   */
  lemma SplicePayloadsKept(m0: seq<Byte>, m1: seq<Byte>, hl: int, bs: seq<Block>, lo: nat, hi: nat, mid: seq<Block>)
    requires Image(m0, hl, bs) && lo <= hi < |bs|
    requires forall k :: lo <= k <= hi ==> !bs[k].alloc
    requires forall k :: 0 <= k < |bs| && (k < lo || hi < k) ==> Payload(m1, bs[k]) == Payload(m0, bs[k])
    ensures PayloadsKept(m0, bs, m1, Splice(bs, lo, hi, mid))
  {
    forall b | b in bs && b.alloc ensures b in Splice(bs, lo, hi, mid) && Payload(m1, b) == Payload(m0, b) {
      SpliceKeeps(bs, lo, hi, mid, b);
    }
  }

  /**
   * Rewriting the tags of block i with the same size and a new state keeps
   * the image; every other block keeps its payload.
   */
  lemma ImageRetag(m0: seq<Byte>, m1: seq<Byte>, hl: int, bs: seq<Block>, i: nat, nb: Block)
    requires Image(m0, hl, bs) && i < |bs|
    requires nb.bp == bs[i].bp && nb.size == bs[i].size && TagsOk(m1, nb)
    requires SameOutside(m0, m1, bs[i].bp - WSIZE, bs[i].bp + bs[i].size - WSIZE)
    ensures Image(m1, hl, bs[i := nb])
    ensures forall b :: b in bs && b.bp != bs[i].bp ==> b in bs[i := nb] && Payload(m1, b) == Payload(m0, b)
  {
    ImageSplice(m0, m1, hl, bs, i, i, [nb]);
    var r := Splice(bs, i, i, [nb]);
    assert r == bs[i := nb] by {
      assert forall k :: 0 <= k < |r| ==> r[k] == bs[i := nb][k];
    }
    forall b | b in bs && b.bp != bs[i].bp ensures b in bs[i := nb] && Payload(m1, b) == Payload(m0, b) {
      var k :| 0 <= k < |bs| && bs[k] == b;
      assert bs[i := nb][k] == b;
    }
  }

  /**
   * Writing inside the payload of block j (as memcpy into a new block does)
   * keeps the image and every other block's payload.
   */
  lemma ImagePayloadWrite(m0: seq<Byte>, m1: seq<Byte>, hl: int, bs: seq<Block>, j: nat)
    requires Image(m0, hl, bs) && j < |bs|
    requires SameOutside(m0, m1, bs[j].bp, bs[j].bp + bs[j].size - DSIZE)
    ensures Image(m1, hl, bs)
    ensures forall b :: b in bs && b.bp != bs[j].bp ==> Payload(m1, b) == Payload(m0, b)
  {
    assert TagsOk(m0, bs[j]);
    ContiguousLayout(bs, hl + DSIZE);
    SameOutsideWiden(m0, m1, bs[j].bp, bs[j].bp + bs[j].size - DSIZE,
                     bs[j].bp - WSIZE, bs[j].bp + bs[j].size - WSIZE);
    GetAgree(m0, m1, bs[j].bp - WSIZE, 0, bs[j].bp);
    GetAgree(m0, m1, bs[j].bp + bs[j].size - DSIZE, bs[j].bp + bs[j].size - DSIZE, |m0|);
    ImageRetag(m0, m1, hl, bs, j, bs[j]);
    assert bs[j := bs[j]] == bs;
  }

  /**
   * Growing the arena by size bytes, with a free block of that size where
   * the epilogue was and a new epilogue at the new end, keeps the image
   * with that block appended; every old block keeps its payload.
   */
  lemma ImageExtend(m0: seq<Byte>, m1: seq<Byte>, hl: int, bs: seq<Block>, size: int)
    requires Image(m0, hl, bs) && |m1| == |m0| + size
    requires Agree(m0, m1, 0, |m0| - WSIZE)
    requires TagsOk(m1, Block(|m0|, size, false))
    requires WordAt(m1, |m1| - WSIZE) && Get(m1, |m1| - WSIZE) == Pack(0, 1)
    ensures Image(m1, hl, bs + [Block(|m0|, size, false)])
    ensures forall b :: b in bs ==> Payload(m1, b) == Payload(m0, b)
  {
    var start := hl + DSIZE;
    var nb := Block(|m0|, size, false);
    var r := bs + [nb];
    Append(bs, start, nb);
    ContiguousLayout(bs, start);
    KeepTags(m0, m1, Prologue(hl), 0, |m0| - WSIZE);
    forall k | 0 <= k < |r| ensures TagsOk(m1, r[k]) {
      if k < |bs| {
        KeepTags(m0, m1, bs[k], 0, |m0| - WSIZE);
      }
    }
    forall b | b in bs ensures Payload(m1, b) == Payload(m0, b) {
      var k :| 0 <= k < |bs| && bs[k] == b;
      KeepPayload(m0, m1, b, 0, |m0| - WSIZE);
    }
  }

  // ---------------------------------------------------------------------
  // What coalesce reads

  /**
   * coalesce's reads through the predecessor: FTRP(PREV_BLKP(bp)) gives
   * the state of the block before block i (allocated for the prologue),
   * and HDRP(PREV_BLKP(bp)) its size.
   */
  lemma PrevReads(m: seq<Byte>, hl: int, bs: seq<Block>, i: nat)
    requires Image(m, hl, bs) && i < |bs|
    ensures var bp := bs[i].bp;
      WordAt(m, bp - DSIZE) && PrevBlkp(m, bp) == Before(hl, bs, i).bp &&
      WordAt(m, Hdrp(PrevBlkp(m, bp))) && WordAt(m, Ftrp(m, PrevBlkp(m, bp))) &&
      GetAlloc(m, Ftrp(m, PrevBlkp(m, bp))) == BitOf(Before(hl, bs, i).alloc) &&
      GetSize(m, Hdrp(PrevBlkp(m, bp))) == Before(hl, bs, i).size
  {
    ReadPrev(m, hl, bs, i);
    ReadTags(m, Before(hl, bs, i));
  }

  /**
   * coalesce's reads on block i and its successor: the size of block i,
   * NEXT_BLKP(bp), the successor's state from its header (allocated for
   * the epilogue), and for a regular successor its size from header and
   * footer.
   */
  lemma NextReads(m: seq<Byte>, hl: int, bs: seq<Block>, i: nat)
    requires Image(m, hl, bs) && i < |bs|
    ensures var bp := bs[i].bp;
      WordAt(m, Hdrp(bp)) && GetSize(m, Hdrp(bp)) == bs[i].size &&
      NextBlkp(m, bp) == bp + bs[i].size && WordAt(m, Hdrp(NextBlkp(m, bp))) &&
      GetAlloc(m, Hdrp(NextBlkp(m, bp))) == (if i + 1 == |bs| then 1 else BitOf(bs[i + 1].alloc))
    ensures var bp := bs[i].bp;
      i + 1 < |bs| ==>
        bs[i + 1].bp == NextBlkp(m, bp) &&
        GetSize(m, Hdrp(NextBlkp(m, bp))) == bs[i + 1].size &&
        WordAt(m, Ftrp(m, NextBlkp(m, bp))) &&
        Ftrp(m, NextBlkp(m, bp)) == bs[i + 1].bp + bs[i + 1].size - DSIZE &&
        GetSize(m, Ftrp(m, NextBlkp(m, bp))) == bs[i + 1].size
  {
    ReadNext(m, hl, bs, i);
    ReadTags(m, bs[i]);
    if i + 1 < |bs| {
      ReadTags(m, bs[i + 1]);
    }
  }

  /** The block coalesce builds spans from the header of the first block it absorbs to the footer of the last. */
  lemma MergedSpan(bs: seq<Block>, start: int, i: nat)
    requires Contiguous(bs, start) && i < |bs|
    ensures var nb, lo, hi := Merged(bs, i), MergeStart(bs, i), MergeEnd(bs, i);
      nb.bp == bs[lo].bp && nb.bp + nb.size == bs[hi].bp + bs[hi].size &&
      start <= nb.bp && nb.bp + nb.size <= End(bs, start) && nb.size % DSIZE == 0 && nb.size >= DSIZE
  {
    var lo, hi := MergeStart(bs, i), MergeEnd(bs, i);
    Within(bs, start, lo);
    Within(bs, start, hi);
    MergedBounds(bs, start, i);
  }
}
