/**
 * The arena writes of coalesce, place and mm_free, case by case: each
 * sequence of PUTs the source performs leaves an arena that holds the
 * block list the matching Blocks function describes, and keeps the payload
 * of every allocated block.
 */
module Steps {
  import opened Tags
  import opened Memory
  import opened Blocks
  import opened Layout
  import opened Wrappers

  /** Two PUTs of the same value at disjoint words inside [lo, hi). */
  lemma WriteTwo(m0: seq<Byte>, p1: int, p2: int, v: Word, lo: int, hi: int)
    requires 0 <= lo <= p1 && p1 + WSIZE <= hi && lo <= p2 && p2 + WSIZE <= hi && hi <= |m0|
    requires p1 + WSIZE <= p2 || p2 + WSIZE <= p1
    ensures var m2 := Put(Put(m0, p1, v), p2, v);
      SameOutside(m0, m2, lo, hi) && Get(m2, p1) == v && Get(m2, p2) == v
  {
    var m1 := Put(m0, p1, v);
    GetPutOther(m1, p2, v, p1);
    PutInside(m0, p1, v, lo, hi);
    PutInside(m1, p2, v, lo, hi);
    SameOutsideTrans(m0, m1, Put(m1, p2, v), lo, hi);
  }

  // ---------------------------------------------------------------------
  // coalesce

  /** Case 1 of coalesce: both neighbours allocated; nothing is merged. */
  lemma CoalesceNone(bs: seq<Block>, i: nat)
    requires i < |bs| && !bs[i].alloc
    requires i == 0 || bs[i - 1].alloc
    requires i + 1 == |bs| || bs[i + 1].alloc
    ensures Blocks.Coalesce(bs, i) == bs && Merged(bs, i).bp == bs[i].bp
  {
    var r := Blocks.Coalesce(bs, i);
    assert Merged(bs, i) == bs[i];
    assert forall k :: 0 <= k < |bs| ==> r[k] == bs[k];
  }

  /** A size just written with PACK(size, alloc) reads back by GET_SIZE. */
  lemma ReadWritten(m: seq<Byte>, p: int, size: int, alloc: Bit)
    requires WordAt(m, p) && 0 <= size < WORD_LIMIT && size % DSIZE == 0
    ensures GetSize(Put(m, p, Pack(size, alloc)), p) == size
  {
    TagRoundTrip(size, alloc);
  }

  /**
   * After PACK(size, alloc) is written into bp's header, FTRP(bp) and
   * NEXT_BLKP(bp) follow the new size.
   */
  lemma WriteHeader(m: seq<Byte>, bp: int, size: int, alloc: Bit)
    requires 0 <= size < WORD_LIMIT && size % DSIZE == 0 && DSIZE <= size
    requires 0 <= bp - WSIZE && bp + size - WSIZE <= |m|
    ensures WordAt(m, Hdrp(bp))
    ensures var m1 := Put(m, Hdrp(bp), Pack(size, alloc));
      WordAt(m1, Hdrp(bp)) && Ftrp(m1, bp) == bp + size - DSIZE && WordAt(m1, Ftrp(m1, bp)) &&
      NextBlkp(m1, bp) == bp + size
  {
    ReadWritten(m, Hdrp(bp), size, alloc);
  }

  /** Case 1 of coalesce ends in the promised state without writing anything. */
  lemma NothingToMerge(m0: seq<Byte>, hl: int, bs: seq<Block>, i: nat)
    requires Image(m0, hl, bs) && i < |bs| && !bs[i].alloc && NoAdjacentFreeExcept(bs, i)
    requires i == 0 || bs[i - 1].alloc
    requires i + 1 == |bs| || bs[i + 1].alloc
    ensures CoalesceDone(m0, m0, hl, bs, i) && Merged(bs, i).bp == bs[i].bp
  {
    CoalesceNone(bs, i);
    CoalesceTiles(bs, i, hl + DSIZE);
  }

  /** Two PUTs to disjoint words commute. */
  lemma PutCommute(m: seq<Byte>, p1: int, v1: Word, p2: int, v2: Word)
    requires WordAt(m, p1) && WordAt(m, p2) && (p1 + WSIZE <= p2 || p2 + WSIZE <= p1)
    ensures Put(Put(m, p1, v1), p2, v2) == Put(Put(m, p2, v2), p1, v1)
  {
    var l, r := Put(Put(m, p1, v1), p2, v2), Put(Put(m, p2, v2), p1, v1);
    assert forall k :: 0 <= k < |m| ==> l[k] == r[k];
  }

  /**
   * Writing the merged block's tags: PACK(size, 0) for the summed size into
   * the header of the first block absorbed and the footer of the last.
   * Nothing outside that span changes.
   */
  lemma MergedTags(m0: seq<Byte>, hl: int, bs: seq<Block>, i: nat, a: int, f: int, s: int)
    requires hl >= 0 && Contiguous(bs, hl + DSIZE) && |m0| == End(bs, hl + DSIZE)
    requires |m0| < WORD_LIMIT && i < |bs|
    requires var nb := Merged(bs, i);
      a == nb.bp - WSIZE && f == nb.bp + nb.size - DSIZE && s == nb.size
    ensures 0 <= s < WORD_LIMIT && WordAt(m0, a) && WordAt(m0, f)
    ensures var m2 := Put(Put(m0, a, Pack(s, 0)), f, Pack(s, 0));
      SameOutside(m0, m2, a, f + WSIZE) && TagsOk(m2, Merged(bs, i))
  {
    MergedSpan(bs, hl + DSIZE, i);
    WriteTwo(m0, a, f, Pack(s, 0), a, f + WSIZE);
  }

  /**
   * What coalesce reads on block i of a well-formed arena: the state of
   * both neighbours (allocated for the prologue and the epilogue), the size
   * of block i, and the sizes of the neighbours it may absorb; and where the
   * merged block lies.
   */
  ghost predicate CoalesceReads(m: seq<Byte>, hl: int, bs: seq<Block>, i: nat)
  {
    i < |bs| && |m| < WORD_LIMIT &&
    var bp, nb := bs[i].bp, Merged(bs, i);
    var prevFree, nextFree := MergeStart(bs, i) < i, MergeEnd(bs, i) > i;
    WordAt(m, bp - DSIZE) && WordAt(m, Hdrp(PrevBlkp(m, bp))) &&
    WordAt(m, Ftrp(m, PrevBlkp(m, bp))) &&
    GetAlloc(m, Ftrp(m, PrevBlkp(m, bp))) == (if prevFree then 0 else 1) &&
    WordAt(m, Hdrp(bp)) && GetSize(m, Hdrp(bp)) == bs[i].size && DSIZE <= bs[i].size &&
    NextBlkp(m, bp) == bp + bs[i].size && WordAt(m, Hdrp(NextBlkp(m, bp))) &&
    GetAlloc(m, Hdrp(NextBlkp(m, bp))) == (if nextFree then 0 else 1) &&
    (prevFree ==> PrevBlkp(m, bp) == nb.bp && GetSize(m, Hdrp(PrevBlkp(m, bp))) == bs[i - 1].size &&
                  DSIZE <= bs[i - 1].size) &&
    (nextFree ==> GetSize(m, Hdrp(NextBlkp(m, bp))) == bs[i + 1].size &&
                  WordAt(m, Ftrp(m, NextBlkp(m, bp))) &&
                  Ftrp(m, NextBlkp(m, bp)) == nb.bp + nb.size - DSIZE &&
                  GetSize(m, Ftrp(m, NextBlkp(m, bp))) == bs[i + 1].size) &&
    (!prevFree ==> nb.bp == bp) &&
    nb.size == (if prevFree then bs[i - 1].size else 0) + bs[i].size + (if nextFree then bs[i + 1].size else 0) &&
    0 <= nb.bp - WSIZE && nb.bp + nb.size <= |m| && nb.size % DSIZE == 0
  }

  /** The two states coalesce reads first: the predecessor's footer and the successor's header. */
  lemma NeighbourStates(m: seq<Byte>, hl: int, bs: seq<Block>, i: nat)
    requires Image(m, hl, bs) && i < |bs|
    ensures var bp := bs[i].bp;
      WordAt(m, bp - DSIZE) && WordAt(m, Hdrp(PrevBlkp(m, bp))) && WordAt(m, Ftrp(m, PrevBlkp(m, bp))) &&
      WordAt(m, Hdrp(bp)) && WordAt(m, Hdrp(NextBlkp(m, bp))) &&
      (GetAlloc(m, Ftrp(m, PrevBlkp(m, bp))) == 1 <==> i == 0 || bs[i - 1].alloc) &&
      (GetAlloc(m, Hdrp(NextBlkp(m, bp))) == 1 <==> i + 1 == |bs| || bs[i + 1].alloc)
  {
    PrevReads(m, hl, bs, i);
    NextReads(m, hl, bs, i);
  }

  /** coalesce's reads hold on every well-formed arena. */
  lemma ReadsForCoalesce(m: seq<Byte>, hl: int, bs: seq<Block>, i: nat)
    requires Image(m, hl, bs) && |m| < WORD_LIMIT && i < |bs|
    ensures CoalesceReads(m, hl, bs, i)
  {
    PrevReads(m, hl, bs, i);
    NextReads(m, hl, bs, i);
    MergedSpan(bs, hl + DSIZE, i);
    if i > 0 {
      assert TagsOk(m, bs[i - 1]);
    }
  }

  /**
   * Cases 2 and 4 of coalesce end in the promised state: the header of the
   * merged block is written at a, then its footer at f, both with size s.
   */
  lemma HeaderThenFooter(m0: seq<Byte>, hl: int, bs: seq<Block>, i: nat, a: int, f: int, s: int)
    requires Image(m0, hl, bs) && |m0| < WORD_LIMIT && i < |bs| && !bs[i].alloc
    requires NoAdjacentFreeExcept(bs, i)
    requires var nb := Merged(bs, i);
      a == nb.bp - WSIZE && f == nb.bp + nb.size - DSIZE && s == nb.size
    ensures WordAt(m0, a) && WordAt(m0, f) && 0 <= s < WORD_LIMIT
    ensures CoalesceDone(m0, Put(Put(m0, a, Pack(s, 0)), f, Pack(s, 0)), hl, bs, i)
  {
    var nb := Merged(bs, i);
    MergedTags(m0, hl, bs, i, a, f, s);
    var m2 := Put(Put(m0, a, Pack(s, 0)), f, Pack(s, 0));
    CoalesceWrite(m0, m2, hl, bs, i);
    CoalesceKeepsPayloads(m0, m2, hl, bs, i);
    CoalesceTiles(bs, i, hl + DSIZE);
  }

  /** Case 3 of coalesce writes the footer first; the outcome is the same. */
  lemma FooterThenHeader(m0: seq<Byte>, hl: int, bs: seq<Block>, i: nat, a: int, f: int, s: int)
    requires Image(m0, hl, bs) && |m0| < WORD_LIMIT && i < |bs| && !bs[i].alloc
    requires NoAdjacentFreeExcept(bs, i)
    requires var nb := Merged(bs, i);
      a == nb.bp - WSIZE && f == nb.bp + nb.size - DSIZE && s == nb.size
    ensures WordAt(m0, a) && WordAt(m0, f) && 0 <= s < WORD_LIMIT
    ensures CoalesceDone(m0, Put(Put(m0, f, Pack(s, 0)), a, Pack(s, 0)), hl, bs, i)
  {
    HeaderThenFooter(m0, hl, bs, i, a, f, s);
    MergedSpan(bs, hl + DSIZE, i);
    PutCommute(m0, a, Pack(s, 0), f, Pack(s, 0));
  }

  /**
   * Cases 2 to 4 of coalesce: once the merged block's tags are written (and
   * nothing outside it changed), the arena holds the coalesced block list.
   */
  lemma CoalesceWrite(m0: seq<Byte>, m2: seq<Byte>, hl: int, bs: seq<Block>, i: nat)
    requires Image(m0, hl, bs) && i < |bs|
    requires var nb := Merged(bs, i);
      SameOutside(m0, m2, nb.bp - WSIZE, nb.bp + nb.size - WSIZE) && TagsOk(m2, nb)
    ensures Image(m2, hl, Blocks.Coalesce(bs, i))
  {
    var nb, lo, hi := Merged(bs, i), MergeStart(bs, i), MergeEnd(bs, i);
    MergedSpan(bs, hl + DSIZE, i);
    assert forall t :: 0 <= t < |[nb]| ==> TagsOk(m2, [nb][t]);
    ImageSplice(m0, m2, hl, bs, lo, hi, [nb]);
  }

  /**
   * ... and every allocated block keeps its payload, since the blocks
   * coalesce absorbs are all free.
   */
  lemma CoalesceKeepsPayloads(m0: seq<Byte>, m2: seq<Byte>, hl: int, bs: seq<Block>, i: nat)
    requires Image(m0, hl, bs) && i < |bs| && !bs[i].alloc
    requires var nb := Merged(bs, i);
      SameOutside(m0, m2, nb.bp - WSIZE, nb.bp + nb.size - WSIZE)
    ensures PayloadsKept(m0, bs, m2, Blocks.Coalesce(bs, i))
  {
    var nb, lo, hi := Merged(bs, i), MergeStart(bs, i), MergeEnd(bs, i);
    MergedSpan(bs, hl + DSIZE, i);
    SplicePayloads(m0, m2, hl, bs, lo, hi);
    SplicePayloadsKept(m0, m2, hl, bs, lo, hi, [nb]);
  }

  // ---------------------------------------------------------------------
  // place

  /**
   * The split's two blocks written one after the other, over block i and
   * nothing else, leave the arena holding Place(bs, i, asize).
   */
  lemma SplitWrites(m0: seq<Byte>, m2: seq<Byte>, m4: seq<Byte>, hl: int, bs: seq<Block>, i: nat, asize: int, c: int)
    requires Image(m0, hl, bs) && NoAdjacentFree(bs)
    requires i < |bs| && Fits(bs[i], asize) && asize >= DSIZE && asize % DSIZE == 0
    requires c == bs[i].size && c - asize >= 2 * DSIZE
    requires TagsOk(m2, Block(bs[i].bp, asize, true))
    requires SameOutside(m0, m2, bs[i].bp - WSIZE, bs[i].bp + asize - WSIZE)
    requires TagsOk(m4, Block(bs[i].bp + asize, c - asize, false))
    requires SameOutside(m2, m4, bs[i].bp + asize - WSIZE, bs[i].bp + c - WSIZE)
    ensures PlaceDone(m0, m4, hl, bs, i, asize)
  {
    var b := bs[i];
    assert TagsOk(m0, b);
    var b1, b2 := Block(b.bp, asize, true), Block(b.bp + asize, c - asize, false);
    SplitTwo(m0, m2, m4, b1, b2, b.bp - WSIZE, b.bp + c - WSIZE);
    var mid := Placed(b, asize);
    assert mid[0] == b1 && mid[1] == b2 && |mid| == 2;
    PlaceFinish(m0, m4, hl, bs, i, asize, b.bp - WSIZE, b.bp + c - WSIZE);
  }

  /**
   * Two adjacent blocks written one after the other (m0 to m2, then m2 to
   * m4): the second pair of writes keeps the first block's tags, and
   * together they change only the span [lo, hi) of both blocks.
   */
  lemma SplitTwo(m0: seq<Byte>, m2: seq<Byte>, m4: seq<Byte>, b1: Block, b2: Block, lo: int, hi: int)
    requires b2.bp == b1.bp + b1.size && lo == b1.bp - WSIZE && hi == b2.bp + b2.size - WSIZE
    requires 0 <= lo && hi <= |m0|
    requires TagsOk(m2, b1) && SameOutside(m0, m2, lo, b1.bp + b1.size - WSIZE)
    requires TagsOk(m4, b2) && SameOutside(m2, m4, b1.bp + b1.size - WSIZE, hi)
    ensures TagsOk(m4, b1) && TagsOk(m4, b2) && SameOutside(m0, m4, lo, hi)
  {
    KeepTags(m2, m4, b1, 0, b1.bp + b1.size - WSIZE);
    SameOutsideWiden(m0, m2, lo, b1.bp + b1.size - WSIZE, lo, hi);
    SameOutsideWiden(m2, m4, b1.bp + b1.size - WSIZE, hi, lo, hi);
    SameOutsideTrans(m0, m2, m4, lo, hi);
  }

  /** Writing a block's header at h and footer at f with its tag v gives it correct tags and changes nothing else. */
  lemma WriteBlock(m: seq<Byte>, m': seq<Byte>, b: Block, h: int, f: int, v: Word)
    requires DSIZE <= b.size < WORD_LIMIT && b.size % DSIZE == 0
    requires h == b.bp - WSIZE && f == b.bp + b.size - DSIZE && v == Pack(b.size, BitOf(b.alloc))
    requires 0 <= h && f + WSIZE <= |m| && m' == Put(Put(m, h, v), f, v)
    ensures TagsOk(m', b) && SameOutside(m, m', h, f + WSIZE)
  {
    WriteTwo(m, h, f, v, h, f + WSIZE);
  }

  /**
   * place without a split: PACK(c, 1) into the block's header and footer
   * (m0 to m2) leaves the arena holding Place(bs, i, asize).
   */
  lemma WholeWrites(m0: seq<Byte>, m2: seq<Byte>, hl: int, bs: seq<Block>, i: nat, asize: int, c: int)
    requires Image(m0, hl, bs) && NoAdjacentFree(bs)
    requires i < |bs| && Fits(bs[i], asize) && asize >= DSIZE && asize % DSIZE == 0
    requires c == bs[i].size && c - asize < 2 * DSIZE
    requires TagsOk(m2, Block(bs[i].bp, c, true))
    requires SameOutside(m0, m2, bs[i].bp - WSIZE, bs[i].bp + c - WSIZE)
    ensures PlaceDone(m0, m2, hl, bs, i, asize)
  {
    assert Placed(bs[i], asize)[0] == Block(bs[i].bp, c, true);
    PlaceFinish(m0, m2, hl, bs, i, asize, bs[i].bp - WSIZE, bs[i].bp + c - WSIZE);
  }

  /** Once the placed blocks' tags are written over block i, the arena holds Place(bs, i, asize). */
  lemma PlaceFinish(m0: seq<Byte>, m1: seq<Byte>, hl: int, bs: seq<Block>, i: nat, asize: int, lo: int, hi: int)
    requires Image(m0, hl, bs) && NoAdjacentFree(bs)
    requires i < |bs| && Fits(bs[i], asize) && asize >= DSIZE && asize % DSIZE == 0
    requires lo == bs[i].bp - WSIZE && hi == bs[i].bp + bs[i].size - WSIZE && SameOutside(m0, m1, lo, hi)
    requires TagsOk(m1, Placed(bs[i], asize)[0])
    requires |Placed(bs[i], asize)| == 2 ==> TagsOk(m1, Placed(bs[i], asize)[1])
    ensures PlaceDone(m0, m1, hl, bs, i, asize)
  {
    var mid := Placed(bs[i], asize);
    assert forall t :: 0 <= t < |mid| ==> TagsOk(m1, mid[t]) by {
      forall t | 0 <= t < |mid| ensures TagsOk(m1, mid[t]) {
        assert t == 0 || t == 1;
      }
    }
    assert Contiguous(mid, bs[i].bp) && End(mid, bs[i].bp) == bs[i].bp + bs[i].size;
    ImageSplice(m0, m1, hl, bs, i, i, mid);
    PlaceTiles(bs, i, asize, hl + DSIZE);
    SplicePayloadsKept(m0, m1, hl, bs, i, i, mid);
  }

  // ---------------------------------------------------------------------
  // extend_heap

  /**
   * extend_heap's writes after mem_sbrk(size) returned the old break: the
   * new block's header over the old epilogue, its footer, and the new
   * epilogue header at the new end. The arena then holds bs with the new
   * free block appended, and every old block keeps its payload.
   */
  lemma ExtendWrites(m0: seq<Byte>, ms: seq<Byte>, m2: seq<Byte>, m3: seq<Byte>, hl: int, bs: seq<Block>, size: int)
    requires Image(m0, hl, bs) && size >= DSIZE && size % DSIZE == 0 && |m0| + size < WORD_LIMIT
    requires |ms| == |m0| + size && ms[..|m0|] == m0
    requires TagsOk(m2, Block(|m0|, size, false)) && SameOutside(ms, m2, |m0| - WSIZE, |m0| + size - WSIZE)
    requires WordAt(m2, |m0| + size - WSIZE) && m3 == Put(m2, |m0| + size - WSIZE, Pack(0, 1))
    ensures Image(m3, hl, bs + [Block(|m0|, size, false)])
    ensures forall b :: b in bs ==> Payload(m3, b) == Payload(m0, b)
  {
    var nb := Block(|m0|, size, false);
    PutInside(m2, |m0| + size - WSIZE, Pack(0, 1), |m0| + size - WSIZE, |m0| + size);
    KeepTags(m2, m3, nb, 0, |m0| + size - WSIZE);
    assert Agree(m0, m3, 0, |m0| - WSIZE) by {
      forall k | 0 <= k < |m0| - WSIZE ensures m0[k] == m3[k] {
        assert ms[k] == ms[..|m0|][k];
      }
    }
    ImageExtend(m0, m3, hl, bs, size);
  }

  /**
   * mm_init's four PUTs into the 16 fresh bytes at p (padding, prologue
   * header and footer, epilogue header) leave an arena holding the empty
   * heap whose prologue payload is p + 8; the bytes below p are untouched.
   */
  lemma InitWrites(ms: seq<Byte>, m1: seq<Byte>, m2: seq<Byte>, m3: seq<Byte>, m4: seq<Byte>, p: int)
    requires 0 <= p && |ms| == p + 4 * WSIZE
    requires m1 == Put(ms, p, 0) && m2 == Put(m1, p + WSIZE, Pack(DSIZE, 1))
    requires m3 == Put(m2, p + DSIZE, Pack(DSIZE, 1)) && m4 == Put(m3, p + 3 * WSIZE, Pack(0, 1))
    ensures Image(m4, p + DSIZE, []) && m4[..p] == ms[..p]
  {
    GetPutOther(m2, p + DSIZE, Pack(DSIZE, 1), p + WSIZE);
    GetPutOther(m3, p + 3 * WSIZE, Pack(0, 1), p + WSIZE);
    GetPutOther(m3, p + 3 * WSIZE, Pack(0, 1), p + DSIZE);
    assert TagsOk(m4, Prologue(p + DSIZE));
  }

  /**
   * mm_free's two PUTs of PACK(c, 0) into block i's header and footer
   * (m0 to m1) leave the arena holding the blocks with block i's allocated
   * bit cleared; every block still allocated keeps its payload.
   */
  lemma FreeWrites(m0: seq<Byte>, m1: seq<Byte>, hl: int, bs: seq<Block>, i: nat, c: int)
    requires Image(m0, hl, bs) && i < |bs| && c == bs[i].size
    requires TagsOk(m1, Block(bs[i].bp, c, false))
    requires SameOutside(m0, m1, bs[i].bp - WSIZE, bs[i].bp + c - WSIZE)
    ensures Image(m1, hl, Cleared(bs, i))
    ensures PayloadsKept(m0, Cleared(bs, i), m1, Cleared(bs, i))
  {
    var nb := bs[i].(alloc := false);
    ImageRetag(m0, m1, hl, bs, i, nb);
    ContiguousLayout(bs, hl + DSIZE);
    var cl := Cleared(bs, i);
    forall b | b in cl && b.alloc ensures Payload(m1, b) == Payload(m0, b) {
      var k :| 0 <= k < |cl| && cl[k] == b;
      assert k != i && b == bs[k];
      assert b.bp != bs[i].bp;
    }
  }

  /** The payloads of two different blocks lie inside the arena and do not overlap. */
  lemma CopyRanges(m: seq<Byte>, hl: int, bs: seq<Block>, q: nat, j: nat, n: int)
    requires Image(m, hl, bs) && q < |bs| && j < |bs| && q != j
    requires n <= bs[q].size - DSIZE && n <= bs[j].size - DSIZE
    ensures 0 <= bs[q].bp && bs[q].bp + n <= |m| && 0 <= bs[j].bp && bs[j].bp + n <= |m|
    ensures bs[q].bp + n <= bs[j].bp || bs[j].bp + n <= bs[q].bp
  {
    assert TagsOk(m, Prologue(hl));
    ContiguousLayout(bs, hl + DSIZE);
  }

  /**
   * memcpy into the payload of block q (m0 to m1) keeps the heap in the
   * arena and every other block's payload.
   */
  lemma CopyWrites(m0: seq<Byte>, m1: seq<Byte>, hl: int, bs: seq<Block>, q: nat, j: nat, n: nat)
    requires Image(m0, hl, bs) && q < |bs| && j < |bs| && q != j
    requires n <= bs[q].size - DSIZE && n <= bs[j].size - DSIZE
    requires 0 <= bs[q].bp && bs[q].bp + n <= |m0| && 0 <= bs[j].bp && bs[j].bp + n <= |m0|
    requires bs[q].bp + n <= bs[j].bp || bs[j].bp + n <= bs[q].bp
    requires m1 == Memcpy(m0, bs[q].bp, bs[j].bp, n)
    ensures Image(m1, hl, bs)
    ensures forall b :: b in bs && b.bp != bs[q].bp ==> Payload(m1, b) == Payload(m0, b)
  {
    Within(bs, hl + DSIZE, q);
    assert SameOutside(m0, m1, bs[q].bp, bs[q].bp + bs[q].size - DSIZE);
    ImagePayloadWrite(m0, m1, hl, bs, q);
  }

  /** Payloads kept for every allocated block are kept for those left after clearing block i. */
  lemma ClearedKept(m0: seq<Byte>, bs: seq<Block>, m1: seq<Byte>, bs1: seq<Block>, i: nat)
    requires i < |bs| && PayloadsKept(m0, bs, m1, bs1)
    ensures PayloadsKept(m0, Cleared(bs, i), m1, bs1)
  {
    forall b | b in Cleared(bs, i) && b.alloc ensures b in bs {
      var k :| 0 <= k < |bs| && Cleared(bs, i)[k] == b;
      assert bs[k] == b;
    }
  }

  /**
   * memcpy into the new block q (m1 to m2), then free of the old block j
   * (m2 to m3), keep the payload of every other allocated block, and of
   * block q.
   */
  lemma MoveKeeps(m1: seq<Byte>, b1: seq<Block>, m2: seq<Byte>, m3: seq<Byte>, b3: seq<Block>,
                  start: int, j: nat, q: nat)
    requires Contiguous(b1, start) && j < |b1| && q < |b1| && j != q && b1[q].alloc
    requires forall b :: b in b1 && b.bp != b1[q].bp ==> Payload(m2, b) == Payload(m1, b)
    requires PayloadsKept(m2, Cleared(b1, j), m3, b3)
    ensures PayloadsKept(m1, Cleared(Cleared(b1, j), q), m3, b3)
    ensures b1[q] in b3 && Payload(m3, b1[q]) == Payload(m2, b1[q])
  {
    ContiguousLayout(b1, start);
    var c := Cleared(b1, j);
    forall b | b in Cleared(c, q) && b.alloc ensures b in b3 && Payload(m3, b) == Payload(m1, b) {
      var t :| 0 <= t < |b1| && Cleared(c, q)[t] == b;
      assert t != j && t != q && b1[t] == b && c[t] == b;
      assert b.bp != b1[q].bp;
    }
    assert c[q] == b1[q];
  }

  /**
   * After a successful mm_malloc during mm_realloc of the allocated block
   * i: the old block is now block j, the new one block q, they differ, and
   * the new one has room for the request.
   */
  lemma ReallocIndices(bs: seq<Block>, start: int, limit: int, p: int, size: nat, i: nat,
                        b1: seq<Block>, np: Option<int>) returns (j: nat, q: nat)
    requires Contiguous(bs, start) && NoAdjacentFree(bs) && IsAllocated(bs, p) && i == IndexOf(bs, p).value
    requires size > 0 && Outcome(b1, np) == Malloc(bs, start, limit, size) && np.Some?
    ensures j < |b1| && q < |b1| && j != q && b1[j] == bs[i]
    ensures b1[q].bp == np.value && b1[q].alloc && size + DSIZE <= b1[q].size
    ensures forall b :: b in bs && b.alloc ==> b.bp != b1[q].bp
    ensures Realloc(bs, start, limit, Some(p), size) == Outcome(FreeAt(b1, j), np)
  {
    MallocBlock(bs, start, limit, size);
    j := KeptIndex(bs, start, limit, size, i);
    q := IndexOf(b1, np.value).value;
  }

  /**
   * mm_realloc as a whole: what malloc (m0 to m1) and the move of old
   * block i, now block j, into the new block q (m1 to m3) keep, composed.
   */
  lemma ReallocKeeps(m0: seq<Byte>, bs: seq<Block>, m1: seq<Byte>, b1: seq<Block>, m3: seq<Byte>,
                     b3: seq<Block>, start: int, i: nat, j: nat, q: nat, n: int)
    requires Contiguous(bs, start) && 0 <= start && |m0| == End(bs, start) && i < |bs| && bs[i].alloc
    requires j < |b1| && q < |b1| && b1[j] == bs[i] && n <= bs[i].size - DSIZE
    requires PayloadsKept(m0, bs, m1, b1)
    requires forall b :: b in bs && b.alloc ==> b.bp != b1[q].bp
    requires PayloadsKept(m1, Cleared(Cleared(b1, j), q), m3, b3)
    requires Copied(m1, m3, bs[i].bp, b1[q].bp, n)
    ensures PayloadsKept(m0, Cleared(bs, i), m3, b3)
    ensures Copied(m0, m3, bs[i].bp, b1[q].bp, n)
  {
    ContiguousLayout(bs, start);
    forall b | b in Cleared(bs, i) && b.alloc ensures b in b3 && Payload(m3, b) == Payload(m0, b) {
      var k :| 0 <= k < |bs| && Cleared(bs, i)[k] == b;
      assert k != i && bs[k] == b;
      assert b.bp != bs[i].bp;
      var t :| 0 <= t < |b1| && b1[t] == b;
      assert t != j && t != q;
      assert Cleared(Cleared(b1, j), q)[t] == b;
    }
    var ob := bs[i];
    assert Payload(m1, ob) == Payload(m0, ob);
    var s1, s0 := m1[ob.bp..ob.bp + n], m0[ob.bp..ob.bp + n];
    forall k | 0 <= k < n ensures s1[k] == s0[k] {
      assert m1[ob.bp + k] == Payload(m1, ob)[k] == Payload(m0, ob)[k] == m0[ob.bp + k];
    }
  }

  /**
   * The bytes mm_realloc copies: the first n payload bytes of the old
   * block at src land at the new block nb's payload by memcpy (m1 to m2)
   * and stay there through free (m2 to m3).
   */
  lemma MoveCopy(m1: seq<Byte>, m2: seq<Byte>, m3: seq<Byte>, src: int, nb: Block, n: nat)
    requires 0 <= src && src + n <= |m1|
    requires 0 <= nb.bp && DSIZE <= nb.size && nb.bp + nb.size - DSIZE <= |m2| == |m1| == |m3|
    requires n <= nb.size - DSIZE && (nb.bp + n <= src || src + n <= nb.bp)
    requires Payload(m3, nb) == Payload(m2, nb) && Copied(m1, m2, src, nb.bp, n)
    ensures Copied(m1, m3, src, nb.bp, n)
  {
    var s3, s2 := m3[nb.bp..nb.bp + n], m2[nb.bp..nb.bp + n];
    forall k | 0 <= k < n ensures s3[k] == s2[k] {
      assert m3[nb.bp + k] == Payload(m3, nb)[k] == Payload(m2, nb)[k] == m2[nb.bp + k];
    }
  }

  /** memcpy(dst, src, n) copies the n bytes and changes nothing outside [dst, dst + n). */
  lemma MemcpyWrites(m: seq<Byte>, dst: int, src: int, n: nat)
    requires 0 <= dst && dst + n <= |m| && 0 <= src && src + n <= |m|
    requires dst + n <= src || src + n <= dst
    ensures Copied(m, Memcpy(m, dst, src, n), src, dst, n)
    ensures SameOutside(m, Memcpy(m, dst, src, n), dst, dst + n)
  {
    var r := Memcpy(m, dst, src, n);
    var s1, s0 := r[dst..dst + n], m[src..src + n];
    forall k | 0 <= k < n ensures s1[k] == s0[k] {
      assert r[dst + k] == m[src + k];
    }
  }

  /**
   * What mm_realloc(ptr, size) with ptr at block i of bs and size > 0
   * promises of the heap b in arena m it leaves, from bs in arena m0, and
   * the pointer r it returns.
   */
  ghost predicate MovedOrKept(m0: seq<Byte>, bs: seq<Block>, m: seq<Byte>, b: seq<Block>,
                              start: int, limit: int, p: int, size: nat, i: nat, r: Option<int>)
    requires IsAllocated(bs, p) && i == IndexOf(bs, p).value
  {
    Outcome(b, r) == Realloc(bs, start, limit, Some(p), size) &&
    (r.None? ==> PayloadsKept(m0, bs, m, b)) &&
    PayloadsKept(m0, Cleared(bs, i), m, b) &&
    (r.Some? ==> Copied(m0, m, p, r.value, CopySize(bs[i].size, size)))
  }

  /** The moving path of mm_realloc meets MovedOrKept. */
  lemma MovedFinish(m0: seq<Byte>, bs: seq<Block>, b1: seq<Block>, m3: seq<Byte>, b3: seq<Block>,
                    start: int, limit: int, p: int, size: nat, i: nat, j: nat, np: Option<int>)
    requires IsAllocated(bs, p) && i == IndexOf(bs, p).value && np.Some?
    requires j < |b1| && b3 == FreeAt(b1, j) && Realloc(bs, start, limit, Some(p), size) == Outcome(b3, np)
    requires PayloadsKept(m0, Cleared(bs, i), m3, b3)
    requires Copied(m0, m3, bs[i].bp, np.value, CopySize(bs[i].size, size))
    ensures MovedOrKept(m0, bs, m3, b3, start, limit, p, size, i, np)
  {
  }

  /**
   * The moving path of mm_realloc, composed: malloc gave block q of b1
   * (m0 to m1), the old block is block j of b1, and the copy and the free
   * (m1 to m3) left b3.
   */
  lemma MoveDone(m0: seq<Byte>, bs: seq<Block>, m1: seq<Byte>, b1: seq<Block>, m3: seq<Byte>, b3: seq<Block>,
                 start: int, limit: int, p: int, size: nat, i: nat, j: nat, q: nat, np: Option<int>)
    requires Contiguous(bs, start) && 0 <= start && |m0| == End(bs, start)
    requires IsAllocated(bs, p) && i == IndexOf(bs, p).value && np.Some?
    requires j < |b1| && q < |b1| && b1[j] == bs[i] && b1[q].bp == np.value
    requires forall b :: b in bs && b.alloc ==> b.bp != b1[q].bp
    requires b3 == FreeAt(b1, j) && Realloc(bs, start, limit, Some(p), size) == Outcome(b3, np)
    requires PayloadsKept(m0, bs, m1, b1)
    requires PayloadsKept(m1, Cleared(Cleared(b1, j), q), m3, b3)
    requires Copied(m1, m3, p, np.value, CopySize(bs[i].size, size))
    ensures MovedOrKept(m0, bs, m3, b3, start, limit, p, size, i, np)
  {
    ReallocKeeps(m0, bs, m1, b1, m3, b3, start, i, j, q, CopySize(bs[i].size, size));
    MovedFinish(m0, bs, b1, m3, b3, start, limit, p, size, i, j, np);
  }

  /** The failing path of mm_realloc meets MovedOrKept. */
  lemma KeptFinish(m0: seq<Byte>, bs: seq<Block>, m1: seq<Byte>, b1: seq<Block>,
                   start: int, limit: int, p: int, size: nat, i: nat)
    requires IsAllocated(bs, p) && i == IndexOf(bs, p).value && size > 0
    requires Outcome(b1, None) == Malloc(bs, start, limit, size)
    requires PayloadsKept(m0, bs, m1, b1)
    ensures MovedOrKept(m0, bs, m1, b1, start, limit, p, size, i, None)
  {
    ClearedKept(m0, bs, m1, b1, i);
  }
}
