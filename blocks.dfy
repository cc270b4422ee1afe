/**
 * The heap as a list of blocks, in address order, between the prologue and
 * the epilogue; and the effect of each allocator step on that list.
 *
 * These functions are the specifications the heap methods are proved
 * against; the lemmas here state what the allocator promises about them:
 * tiling, preserved sizes, maximal coalescing and first fit.
 */
module Blocks {
  import opened Tags
  import opened Wrappers

  /** A regular heap block: payload pointer, total size (tags included), state. */
  datatype Block = Block(bp: int, size: int, alloc: bool)

  /** The blocks tile [start, End(bs, start)) with no gap and no overlap. */
  predicate Contiguous(bs: seq<Block>, start: int)
  {
    (forall k :: 0 <= k < |bs| ==> bs[k].size >= DSIZE && bs[k].size % DSIZE == 0) &&
    (|bs| > 0 ==> bs[0].bp == start) &&
    (forall k :: 0 <= k < |bs| - 1 ==> bs[k + 1].bp == bs[k].bp + bs[k].size)
  }

  /** Where the tiling ends: the epilogue's payload pointer. */
  function End(bs: seq<Block>, start: int): int
  {
    if |bs| == 0 then start else bs[|bs| - 1].bp + bs[|bs| - 1].size
  }

  /** Total bytes covered by the blocks. */
  function Span(bs: seq<Block>): int
  {
    if bs == [] then 0 else bs[0].size + Span(bs[1..])
  }

  /** The coalescing invariant: no two neighbours are both free. */
  predicate NoAdjacentFree(bs: seq<Block>)
  {
    forall k :: 0 <= k < |bs| - 1 ==> bs[k].alloc || bs[k + 1].alloc
  }

  /** The coalescing invariant, except possibly around block i. */
  predicate NoAdjacentFreeExcept(bs: seq<Block>, i: int)
  {
    forall k :: 0 <= k < |bs| - 1 && k != i - 1 && k != i ==> bs[k].alloc || bs[k + 1].alloc
  }

  /** Every payload pointer is 8-aligned. */
  predicate Aligned(bs: seq<Block>)
  {
    forall k :: 0 <= k < |bs| ==> bs[k].bp % ALIGNMENT == 0
  }

  // ---------------------------------------------------------------------
  // Tiling facts

  /**
   * In a tiling, each block lies inside [start, End), blocks appear in
   * address order without overlap, and the end is start plus the total size.
   */
  lemma {:induction false} ContiguousLayout(bs: seq<Block>, start: int)
    requires Contiguous(bs, start)
    ensures End(bs, start) == start + Span(bs)
    ensures forall k :: 0 <= k < |bs| ==> start <= bs[k].bp && bs[k].bp + bs[k].size <= End(bs, start)
    ensures forall j, k :: 0 <= j < k < |bs| ==> bs[j].bp + bs[j].size <= bs[k].bp
    decreases |bs|
  {
    if |bs| > 0 {
      var rest := bs[1..];
      assert Contiguous(rest, start + bs[0].size);
      ContiguousLayout(rest, start + bs[0].size);
      assert End(bs, start) == End(rest, start + bs[0].size);
      forall j, k | 0 <= j < k < |bs| ensures bs[j].bp + bs[j].size <= bs[k].bp {
        if j > 0 {
          assert rest[j - 1] == bs[j] && rest[k - 1] == bs[k];
        } else if k > 1 {
          assert rest[0] == bs[1] && rest[k - 1] == bs[k];
          assert start + bs[0].size <= rest[k - 1].bp;
        }
      }
    }
  }

  /** bs with blocks lo..hi (inclusive) replaced by mid. */
  function Splice(bs: seq<Block>, lo: nat, hi: nat, mid: seq<Block>): (r: seq<Block>)
    requires lo <= hi < |bs|
    ensures |r| == |bs| - (hi - lo + 1) + |mid|
    ensures forall k {:trigger r[k]} :: 0 <= k < |r| ==>
              r[k] == if k < lo then bs[k]
                      else if k < lo + |mid| then mid[k - lo]
                      else bs[k + (hi - lo + 1) - |mid|]
  {
    bs[..lo] + mid + bs[hi + 1..]
  }

  /** A splice keeps the tiling when mid tiles exactly the span it replaces. */
  lemma SpliceContiguous(bs: seq<Block>, lo: nat, hi: nat, mid: seq<Block>, start: int)
    requires Contiguous(bs, start) && lo <= hi < |bs|
    requires |mid| > 0 && Contiguous(mid, bs[lo].bp)
    requires End(mid, bs[lo].bp) == bs[hi].bp + bs[hi].size
    ensures Contiguous(Splice(bs, lo, hi, mid), start)
    ensures End(Splice(bs, lo, hi, mid), start) == End(bs, start)
  {
    var r := Splice(bs, lo, hi, mid);
    var d := |mid| - (hi - lo + 1);
    forall k | 0 <= k < |r| - 1 ensures r[k + 1].bp == r[k].bp + r[k].size {
      if k + 1 < lo {
      } else if k + 1 == lo {
        assert r[k + 1] == mid[0];
      } else if k + 1 < lo + |mid| {
        assert r[k + 1] == mid[k + 1 - lo] && r[k] == mid[k - lo];
      } else if k + 1 == lo + |mid| {
        assert r[k + 1] == bs[hi + 1] && r[k] == mid[|mid| - 1];
      } else {
        assert r[k + 1] == bs[k + 1 - d] && r[k] == bs[k - d];
      }
    }
    forall k | 0 <= k < |r| ensures r[k].size >= DSIZE && r[k].size % DSIZE == 0 {
      if k < lo {
      } else if k < lo + |mid| {
        assert r[k] == mid[k - lo];
      } else {
        assert r[k] == bs[k - d];
      }
    }
    if lo == 0 {
      assert r[0] == mid[0];
    }
    if hi + 1 < |bs| {
      assert r[|r| - 1] == bs[|bs| - 1];
    } else {
      assert r[|r| - 1] == mid[|mid| - 1];
    }
  }

  /**
   * A splice keeps the coalescing invariant when mid has no free pair, the
   * untouched part had none, and a free end of mid never meets a free
   * neighbour.
   */
  lemma SpliceNoAdjacentFree(bs: seq<Block>, lo: nat, hi: nat, mid: seq<Block>)
    requires lo <= hi < |bs| && |mid| > 0 && NoAdjacentFree(mid)
    requires forall k :: 0 <= k < |bs| - 1 && (k + 1 < lo || k > hi) ==> bs[k].alloc || bs[k + 1].alloc
    requires lo > 0 ==> bs[lo - 1].alloc || mid[0].alloc
    requires hi + 1 < |bs| ==> bs[hi + 1].alloc || mid[|mid| - 1].alloc
    ensures NoAdjacentFree(Splice(bs, lo, hi, mid))
  {
    var r := Splice(bs, lo, hi, mid);
    var d := |mid| - (hi - lo + 1);
    forall k | 0 <= k < |r| - 1 ensures r[k].alloc || r[k + 1].alloc {
      if k + 1 < lo {
      } else if k + 1 == lo {
        assert r[k + 1] == mid[0];
      } else if k + 1 < lo + |mid| {
        assert r[k + 1] == mid[k + 1 - lo] && r[k] == mid[k - lo];
      } else if k + 1 == lo + |mid| {
        assert r[k + 1] == bs[hi + 1] && r[k] == mid[|mid| - 1];
      } else {
        assert r[k + 1] == bs[k + 1 - d] && r[k] == bs[k - d];
      }
    }
  }

  /** Every block outside the replaced run survives a splice. */
  lemma SpliceKeeps(bs: seq<Block>, lo: nat, hi: nat, mid: seq<Block>, b: Block)
    requires lo <= hi < |bs| && b in bs
    requires forall k :: lo <= k <= hi ==> bs[k] != b
    ensures b in Splice(bs, lo, hi, mid)
  {
    var r := Splice(bs, lo, hi, mid);
    var k :| 0 <= k < |bs| && bs[k] == b;
    if k < lo {
      assert r[k] == b;
    } else {
      assert r[k - (hi - lo + 1) + |mid|] == b;
    }
  }

  /** Every block of a splice comes from mid or from the untouched part. */
  lemma SpliceFrom(bs: seq<Block>, lo: nat, hi: nat, mid: seq<Block>)
    requires lo <= hi < |bs|
    ensures forall k :: 0 <= k < |Splice(bs, lo, hi, mid)| && !(lo <= k < lo + |mid|) ==>
              Splice(bs, lo, hi, mid)[k] in bs
  {
    var r := Splice(bs, lo, hi, mid);
    forall k | 0 <= k < |r| && !(lo <= k < lo + |mid|) ensures r[k] in bs {
      if k >= lo + |mid| {
        assert r[k] == bs[k + (hi - lo + 1) - |mid|];
      }
    }
  }

  /** Aligned payloads follow from an aligned start, since every size is a multiple of 8. */
  lemma {:induction false} ContiguousAligned(bs: seq<Block>, start: int)
    requires Contiguous(bs, start) && start % ALIGNMENT == 0
    ensures Aligned(bs) && End(bs, start) % ALIGNMENT == 0
    decreases |bs|
  {
    if |bs| > 0 {
      var init, last := bs[..|bs| - 1], bs[|bs| - 1];
      assert forall k :: 0 <= k < |init| ==> init[k] == bs[k];
      ContiguousAligned(init, start);
      if |bs| > 1 {
        assert End(init, start) == last.bp;
      }
      SumAligned(last.bp, last.size, 0);
    }
  }

  // ---------------------------------------------------------------------
  // coalesce

  /** Index of the block coalesce returns: the predecessor when that was free. */
  function MergeStart(bs: seq<Block>, i: nat): (r: nat)
    requires i < |bs|
    ensures r == i || (r == i - 1 && !bs[i - 1].alloc)
  {
    if i > 0 && !bs[i - 1].alloc then i - 1 else i
  }

  /** Index of the last block coalesce absorbs: the successor when that was free. */
  function MergeEnd(bs: seq<Block>, i: nat): (r: nat)
    requires i < |bs|
    ensures r == i || (r == i + 1 && r < |bs| && !bs[i + 1].alloc)
  {
    if i + 1 < |bs| && !bs[i + 1].alloc then i + 1 else i
  }

  /**
   * coalesce on block i: absorb whichever neighbours are free into one free
   * block that starts at the first block absorbed; its size is the sum of
   * the sizes absorbed.
   */
  function Coalesce(bs: seq<Block>, i: nat): seq<Block>
    requires i < |bs|
  {
    Splice(bs, MergeStart(bs, i), MergeEnd(bs, i), [Merged(bs, i)])
  }

  /** The single free block coalesce leaves in place of the blocks it absorbs. */
  function Merged(bs: seq<Block>, i: nat): Block
    requires i < |bs|
  {
    var lo, hi := MergeStart(bs, i), MergeEnd(bs, i);
    var size := (if lo < i then bs[i - 1].size else 0) + bs[i].size
                + (if hi > i then bs[i + 1].size else 0);
    Block(bs[lo].bp, size, false)
  }

  /** Three multiples of 8 add up to a multiple of 8. */
  lemma SumAligned(x: int, y: int, z: int)
    requires x % DSIZE == 0 && y % DSIZE == 0 && z % DSIZE == 0
    ensures (x + y + z) % DSIZE == 0
  {
    assert x + y + z == DSIZE * (x / DSIZE + y / DSIZE + z / DSIZE);
  }

  /** The difference of two multiples of 8 is a multiple of 8. */
  lemma SubAligned(x: int, y: int)
    requires x % DSIZE == 0 && y % DSIZE == 0
    ensures (x - y) % DSIZE == 0
  {
    assert x - y == DSIZE * (x / DSIZE - y / DSIZE);
  }

  /**
   * The merged block runs from the first block absorbed to the end of the
   * last, and its size is a valid block size.
   */
  lemma MergedBounds(bs: seq<Block>, start: int, i: nat)
    requires Contiguous(bs, start) && i < |bs|
    ensures var nb, lo, hi := Merged(bs, i), MergeStart(bs, i), MergeEnd(bs, i);
      nb.bp == bs[lo].bp && nb.bp + nb.size == bs[hi].bp + bs[hi].size &&
      nb.size >= DSIZE && nb.size % DSIZE == 0
  {
    var lo, hi := MergeStart(bs, i), MergeEnd(bs, i);
    var before := if lo < i then bs[i - 1].size else 0;
    var after := if hi > i then bs[i + 1].size else 0;
    if lo < i {
      assert bs[i].bp == bs[i - 1].bp + bs[i - 1].size;
    }
    if hi > i {
      assert bs[i + 1].bp == bs[i].bp + bs[i].size;
    }
    SumAligned(before, bs[i].size, after);
    assert Merged(bs, i).size == before + bs[i].size + after;
  }

  /**
   * coalesce keeps the tiling and its span, and afterwards no two free blocks
   * are adjacent anywhere, when block i was free and the only possible
   * exception to that invariant.
   */
  lemma CoalesceTiles(bs: seq<Block>, i: nat, start: int)
    requires Contiguous(bs, start) && i < |bs| && !bs[i].alloc
    requires NoAdjacentFreeExcept(bs, i)
    ensures Contiguous(Coalesce(bs, i), start)
    ensures End(Coalesce(bs, i), start) == End(bs, start)
    ensures NoAdjacentFree(Coalesce(bs, i))
  {
    var lo, hi := MergeStart(bs, i), MergeEnd(bs, i);
    var nb := Merged(bs, i);
    var mid := [nb];
    MergedBounds(bs, start, i);
    assert Contiguous(mid, bs[lo].bp) && End(mid, bs[lo].bp) == bs[hi].bp + bs[hi].size;
    SpliceContiguous(bs, lo, hi, mid, start);
    if lo > 0 {
      assert bs[lo - 1].alloc;
    }
    if hi + 1 < |bs| {
      assert bs[hi + 1].alloc;
    }
    SpliceNoAdjacentFree(bs, lo, hi, mid);
  }

  /**
   * The block coalesce returns: it is free, starts at the predecessor when
   * that was free (else at block i), ends where the successor ended when
   * that was free (else where block i ended), and both its neighbours are
   * allocated.
   */
  lemma CoalesceMerged(bs: seq<Block>, i: nat, start: int)
    requires Contiguous(bs, start) && i < |bs| && !bs[i].alloc
    requires NoAdjacentFreeExcept(bs, i)
    ensures var r, lo := Coalesce(bs, i), MergeStart(bs, i);
      lo < |r| && r[lo] == Merged(bs, i) && !r[lo].alloc &&
      r[lo].bp == (if i > 0 && !bs[i - 1].alloc then bs[i - 1].bp else bs[i].bp) &&
      r[lo].bp + r[lo].size ==
        (if i + 1 < |bs| && !bs[i + 1].alloc then bs[i + 1].bp + bs[i + 1].size
         else bs[i].bp + bs[i].size) &&
      (lo > 0 ==> r[lo - 1].alloc) && (lo + 1 < |r| ==> r[lo + 1].alloc)
  {
    var r, lo, hi := Coalesce(bs, i), MergeStart(bs, i), MergeEnd(bs, i);
    assert r[lo] == Merged(bs, i);
    if lo > 0 {
      assert r[lo - 1] == bs[lo - 1];
      if lo < i {
        assert bs[lo - 1].alloc;
      }
    }
    if lo + 1 < |r| {
      assert r[lo + 1] == bs[hi + 1];
    }
  }

  /**
   * coalesce touches nothing outside the merged span: every other block of
   * the result is a block of the input, and every allocated block of the
   * input is still there.
   */
  lemma CoalesceKeeps(bs: seq<Block>, i: nat)
    requires i < |bs| && !bs[i].alloc
    ensures forall k :: 0 <= k < |Coalesce(bs, i)| && k != MergeStart(bs, i) ==> Coalesce(bs, i)[k] in bs
    ensures forall b :: b in bs && b.alloc ==> b in Coalesce(bs, i)
  {
    var lo, hi := MergeStart(bs, i), MergeEnd(bs, i);
    var mid := [Merged(bs, i)];
    SpliceFrom(bs, lo, hi, mid);
    forall b | b in bs && b.alloc ensures b in Coalesce(bs, i) {
      SpliceKeeps(bs, lo, hi, mid, b);
    }
  }

  // ---------------------------------------------------------------------
  // place

  /** Whether a free block can take a request of asize bytes. */
  predicate Fits(b: Block, asize: int)
  {
    !b.alloc && asize <= b.size
  }

  /**
   * place(bp, asize) on block i: split off the remainder as a free block
   * when it is at least the minimum block size (16), otherwise allocate the
   * whole block.
   */
  function Place(bs: seq<Block>, i: nat, asize: int): (r: seq<Block>)
    requires i < |bs|
    ensures |r| == |bs| || |r| == |bs| + 1
  {
    Splice(bs, i, i, Placed(bs[i], asize))
  }

  /** The blocks place leaves in place of block i. */
  function Placed(b: Block, asize: int): (mid: seq<Block>)
    ensures 1 <= |mid| <= 2 && mid[0].bp == b.bp && mid[0].alloc
    ensures |mid| == 2 <==> b.size - asize >= 2 * DSIZE
    ensures |mid| == 1 ==> mid[0].size == b.size
    ensures |mid| == 2 ==>
      mid[0].size == asize && mid[1].bp == b.bp + mid[0].size && !mid[1].alloc &&
      mid[0].size + mid[1].size == b.size && mid[1].size >= 2 * DSIZE
  {
    if b.size - asize >= 2 * DSIZE then
      [Block(b.bp, asize, true), Block(b.bp + asize, b.size - asize, false)]
    else
      [Block(b.bp, b.size, true)]
  }

  /**
   * place on a fitting block keeps the tiling, its span and the coalescing
   * invariant.
   */
  lemma PlaceTiles(bs: seq<Block>, i: nat, asize: int, start: int)
    requires Contiguous(bs, start) && NoAdjacentFree(bs)
    requires i < |bs| && Fits(bs[i], asize) && asize >= DSIZE && asize % DSIZE == 0
    ensures Contiguous(Place(bs, i, asize), start)
    ensures End(Place(bs, i, asize), start) == End(bs, start)
    ensures NoAdjacentFree(Place(bs, i, asize))
  {
    var mid := Placed(bs[i], asize);
    assert Place(bs, i, asize) == Splice(bs, i, i, mid);
    PlacedTiles(bs[i], asize);
    SpliceContiguous(bs, i, i, mid, start);
    if i + 1 < |bs| {
      assert bs[i + 1].alloc;
    }
    SpliceNoAdjacentFree(bs, i, i, mid);
  }

  /** The blocks place leaves tile the block it was given, and hold no free pair. */
  lemma PlacedTiles(b: Block, asize: int)
    requires Fits(b, asize) && b.size % DSIZE == 0 && asize >= DSIZE && asize % DSIZE == 0
    ensures var mid := Placed(b, asize);
      Contiguous(mid, b.bp) && End(mid, b.bp) == b.bp + b.size && NoAdjacentFree(mid) && mid[0].alloc
  {
  }

  /**
   * The block place returns: allocated, at the same address, with at least
   * asize bytes and less than asize + 16. When the remainder is at least
   * 16 bytes it is exactly asize and is followed by a free block of
   * csize - asize bytes; otherwise it keeps the whole csize.
   */
  lemma PlaceBlock(bs: seq<Block>, i: nat, asize: int)
    requires i < |bs| && Fits(bs[i], asize)
    ensures var r := Place(bs, i, asize);
      i < |r| && r[i].alloc && r[i].bp == bs[i].bp &&
      asize <= r[i].size < asize + 2 * DSIZE &&
      (bs[i].size - asize >= 2 * DSIZE ==>
         |r| == |bs| + 1 && r[i].size == asize &&
         r[i + 1] == Block(bs[i].bp + asize, bs[i].size - asize, false)) &&
      (bs[i].size - asize < 2 * DSIZE ==> |r| == |bs| && r[i].size == bs[i].size)
  {
    var r := Place(bs, i, asize);
    var mid := Placed(bs[i], asize);
    assert r == Splice(bs, i, i, mid);
    assert r[i] == mid[0];
    if bs[i].size - asize >= 2 * DSIZE {
      assert r[i + 1] == mid[1];
    }
  }

  /**
   * place touches no other block: every block of the input other than
   * block i is in the result, and every block of the result outside the
   * placed run is a block of the input.
   */
  lemma PlaceKeeps(bs: seq<Block>, i: nat, asize: int)
    requires i < |bs|
    ensures forall b :: b in bs && b != bs[i] ==> b in Place(bs, i, asize)
    ensures forall k :: 0 <= k < |Place(bs, i, asize)| && !(i <= k < i + |Placed(bs[i], asize)|) ==>
              Place(bs, i, asize)[k] in bs
  {
    var mid := Placed(bs[i], asize);
    assert Place(bs, i, asize) == Splice(bs, i, i, mid);
    SpliceFrom(bs, i, i, mid);
    forall b | b in bs && b != bs[i] ensures b in Place(bs, i, asize) {
      SpliceKeeps(bs, i, i, mid, b);
    }
  }

  // ---------------------------------------------------------------------
  // find_fit

  /**
   * find_fit's policy: the index of the first block, in address order, that
   * is free and large enough.
   */
  function {:induction false} FirstFit(bs: seq<Block>, asize: int): (r: Option<nat>)
    ensures r.Some? ==> r.value < |bs| && Fits(bs[r.value], asize) &&
                        forall j :: 0 <= j < r.value ==> !Fits(bs[j], asize)
    ensures r.None? ==> forall j :: 0 <= j < |bs| ==> !Fits(bs[j], asize)
    decreases |bs|
  {
    if bs == [] then None
    else if Fits(bs[0], asize) then Some(0)
    else match FirstFit(bs[1..], asize)
      case None => None
      case Some(j) => Some(j + 1)
  }

  // ---------------------------------------------------------------------
  // extend_heap

  /** extend_heap's effect: a free block of size bytes where the epilogue was, then coalesced. */
  function Extend(bs: seq<Block>, start: int, size: int): (r: seq<Block>)
    ensures 0 < |r| <= |bs| + 1
  {
    Coalesce(bs + [Block(End(bs, start), size, false)], |bs|)
  }

  /** A block placed where the tiling ends extends it. */
  lemma Append(bs: seq<Block>, start: int, nb: Block)
    requires Contiguous(bs, start) && nb.bp == End(bs, start)
    requires nb.size >= DSIZE && nb.size % DSIZE == 0
    ensures var r := bs + [nb];
      Contiguous(r, start) && End(r, start) == nb.bp + nb.size && r[|bs|] == nb &&
      forall k :: 0 <= k < |bs| ==> r[k] == bs[k]
  {
    var r := bs + [nb];
    assert forall k :: 0 <= k < |bs| ==> r[k] == bs[k];
    if |bs| > 0 {
      assert r[|bs| - 1] == bs[|bs| - 1];
    }
  }

  /**
   * extend_heap keeps the tiling and the coalescing invariant, grows the
   * span by exactly size bytes, and leaves as its last block a free block
   * of at least size bytes, which starts at the old last block when that
   * was free and at the old epilogue otherwise. Allocated blocks survive.
   */
  lemma ExtendSound(bs: seq<Block>, start: int, size: int)
    requires Contiguous(bs, start) && NoAdjacentFree(bs)
    requires size >= DSIZE && size % DSIZE == 0
    ensures var r := Extend(bs, start, size);
      Contiguous(r, start) && End(r, start) == End(bs, start) + size && NoAdjacentFree(r) &&
      |r| > 0 && !r[|r| - 1].alloc && r[|r| - 1].size >= size &&
      r[|r| - 1].bp == (if |bs| > 0 && !bs[|bs| - 1].alloc then bs[|bs| - 1].bp else End(bs, start)) &&
      (forall b :: b in bs && b.alloc ==> b in r)
  {
    var nb := Block(End(bs, start), size, false);
    var grown := bs + [nb];
    var n := |bs|;
    Append(bs, start, nb);
    assert NoAdjacentFreeExcept(grown, n);
    CoalesceTiles(grown, n, start);
    CoalesceMerged(grown, n, start);
    CoalesceKeeps(grown, n);
    var r := Extend(bs, start, size);
    var lo := MergeStart(grown, n);
    assert MergeEnd(grown, n) == n;
    assert |r| == lo + 1;
    assert End(grown, start) == End(bs, start) + size;
    forall b | b in bs && b.alloc ensures b in r {
      assert b in grown;
    }
  }

  /** extend_heap returns the coalesced block, which is the last block of the heap. */
  lemma ExtendLast(bs: seq<Block>, start: int, size: int)
    ensures var r := Extend(bs, start, size);
      r[|r| - 1] == Merged(bs + [Block(End(bs, start), size, false)], |bs|)
  {
    var grown := bs + [Block(End(bs, start), size, false)];
    assert MergeEnd(grown, |bs|) == |bs|;
  }

  /** Extending the empty heap yields a single free block. */
  lemma ExtendFirst(start: int)
    ensures Extend([], start, CHUNKSIZE) == [Block(start, CHUNKSIZE, false)]
  {
    ExtendLast([], start, CHUNKSIZE);
  }

  // ---------------------------------------------------------------------
  // mm_free

  /** Block i with its allocated bit cleared: the two PUTs of mm_free. */
  function Cleared(bs: seq<Block>, i: nat): seq<Block>
    requires i < |bs|
  {
    bs[i := bs[i].(alloc := false)]
  }

  /** mm_free on block i: clear its allocated bit, then coalesce it. */
  function FreeAt(bs: seq<Block>, i: nat): (r: seq<Block>)
    requires i < |bs|
    ensures |bs| - 2 <= |r| <= |bs|
  {
    Coalesce(Cleared(bs, i), i)
  }

  /** Clearing block i's allocated bit keeps the tiling; only block i can then have a free neighbour. */
  lemma MarkFree(bs: seq<Block>, i: nat, start: int)
    requires Contiguous(bs, start) && NoAdjacentFree(bs) && i < |bs|
    ensures var marked := Cleared(bs, i);
      Contiguous(marked, start) && End(marked, start) == End(bs, start) &&
      NoAdjacentFreeExcept(marked, i) && !marked[i].alloc &&
      marked[i].bp == bs[i].bp && marked[i].size == bs[i].size &&
      forall k :: 0 <= k < |bs| && k != i ==> marked[k] == bs[k]
  {
    var marked := Cleared(bs, i);
    assert forall k :: 0 <= k < |bs| && k != i ==> marked[k] == bs[k];
  }

  /**
   * mm_free keeps the tiling, its span and the coalescing invariant; the
   * freed bytes end up inside one free block; every other allocated block
   * survives.
   */
  lemma FreeSound(bs: seq<Block>, i: nat, start: int)
    requires Contiguous(bs, start) && NoAdjacentFree(bs) && i < |bs| && bs[i].alloc
    ensures var r := FreeAt(bs, i);
      Contiguous(r, start) && End(r, start) == End(bs, start) && NoAdjacentFree(r) &&
      (exists k :: 0 <= k < |r| && !r[k].alloc &&
         r[k].bp <= bs[i].bp && bs[i].bp + bs[i].size <= r[k].bp + r[k].size) &&
      (forall b :: b in bs && b.alloc && b != bs[i] ==> b in r)
  {
    MarkFree(bs, i, start);
    CoalesceTiles(Cleared(bs, i), i, start);
    FreeCovers(bs, i, start);
    FreeKeepsOthers(bs, i);
  }

  /** After mm_free, some free block of the new tiling covers the freed block. */
  lemma FreeCovers(bs: seq<Block>, i: nat, start: int)
    requires Contiguous(bs, start) && NoAdjacentFree(bs) && i < |bs| && bs[i].alloc
    ensures var r := FreeAt(bs, i);
      exists k :: 0 <= k < |r| && !r[k].alloc &&
        r[k].bp <= bs[i].bp && bs[i].bp + bs[i].size <= r[k].bp + r[k].size
  {
    var marked := Cleared(bs, i);
    MarkFree(bs, i, start);
    CoalesceMerged(marked, i, start);
    var r := FreeAt(bs, i);
    var lo := MergeStart(marked, i);
    assert !r[lo].alloc && r[lo].bp <= bs[i].bp && bs[i].bp + bs[i].size <= r[lo].bp + r[lo].size;
  }

  /** mm_free leaves every other allocated block in the tiling. */
  lemma FreeKeepsOthers(bs: seq<Block>, i: nat)
    requires i < |bs|
    ensures forall b :: b in bs && b.alloc && b != bs[i] ==> b in FreeAt(bs, i)
  {
    var marked := Cleared(bs, i);
    CoalesceKeeps(marked, i);
    forall b | b in bs && b.alloc && b != bs[i] ensures b in FreeAt(bs, i) {
      var k :| 0 <= k < |bs| && bs[k] == b;
      assert marked[k] == b;
    }
  }

  // ---------------------------------------------------------------------
  // Looking up a block by its payload pointer

  /** The index of the block whose payload starts at p, if any. */
  function {:induction false} IndexOf(bs: seq<Block>, p: int): (r: Option<nat>)
    ensures r.Some? ==> r.value < |bs| && bs[r.value].bp == p
    ensures r.None? ==> forall k :: 0 <= k < |bs| ==> bs[k].bp != p
    decreases |bs|
  {
    if bs == [] then None
    else if bs[0].bp == p then Some(0)
    else match IndexOf(bs[1..], p)
      case None => None
      case Some(j) => Some(j + 1)
  }

  /** p is the payload pointer of an allocated block: what mm_free and mm_realloc expect. */
  predicate IsAllocated(bs: seq<Block>, p: int)
  {
    IndexOf(bs, p).Some? && bs[IndexOf(bs, p).value].alloc
  }

  /** In a tiling, a block's payload pointer identifies it. */
  lemma IndexOfTiling(bs: seq<Block>, start: int, k: nat)
    requires Contiguous(bs, start) && k < |bs|
    ensures IndexOf(bs, bs[k].bp) == Some(k)
  {
    ContiguousLayout(bs, start);
  }

  // ---------------------------------------------------------------------
  // mm_malloc

  /**
   * mm_malloc's adjusted block size: 16 for requests of at most 8 bytes,
   * otherwise the request plus 8 bytes of tags, rounded up to a multiple of 8.
   * It is the least multiple of 8 that holds the request and both tags, and
   * never below the minimum block size.
   */
  function AdjustSize(size: nat): (asize: int)
    ensures asize % DSIZE == 0 && asize >= 2 * DSIZE && asize >= size + DSIZE
    ensures asize == 2 * DSIZE || asize < size + DSIZE + ALIGNMENT
  {
    if size <= DSIZE then 2 * DSIZE
    else DSIZE * ((size + DSIZE + (DSIZE - 1)) / DSIZE)
  }

  /** The adjusted size is ALIGN applied to the request plus the tag overhead. */
  lemma AdjustIsAlign(size: nat)
    requires size > 0
    ensures AdjustSize(size) == Align(size + DSIZE)
  {
  }

  /** size_t on the lab's 64-bit target: arithmetic on sizes wraps modulo this. */
  const SIZE_LIMIT: int := 0x1_0000_0000_0000_0000

  /**
   * mm_malloc's adjusted size as the C code computes it, in size_t
   * arithmetic: for the largest requests size + 15 wraps around.
   */
  function AdjustSizeWrapped(size: nat): (asize: nat)
    requires size < SIZE_LIMIT
    ensures asize % DSIZE == 0 && asize < SIZE_LIMIT
  {
    if size <= DSIZE then 2 * DSIZE
    else DSIZE * (((size + DSIZE + (DSIZE - 1)) % SIZE_LIMIT) / DSIZE)
  }

  /** Below the wrap, the size_t computation is AdjustSize. */
  lemma AdjustSizeWrappedAgrees(size: nat)
    requires size + DSIZE + (DSIZE - 1) < SIZE_LIMIT
    ensures AdjustSizeWrapped(size) == AdjustSize(size)
  {
  }

  /**
   * The wrap: malloc(SIZE_MAX) adjusts to an 8-byte block, smaller than
   * the request, than the tags plus the request, and than the 16-byte
   * minimum block, so first fit can hand out a small block for it.
   */
  lemma AdjustSizeWraps()
    ensures var asize := AdjustSizeWrapped(SIZE_LIMIT - 1);
      asize == DSIZE && asize < 2 * DSIZE && asize < (SIZE_LIMIT - 1) + DSIZE
  {
  }

  /**
   * With unbounded sizes, a request that cannot fit in the arena together
   * with its tags gets NULL and leaves the heap alone, however large it is.
   */
  lemma MallocTooLarge(bs: seq<Block>, start: int, limit: int, size: nat)
    requires Contiguous(bs, start) && End(bs, start) <= limit && size + DSIZE > limit - start
    ensures Malloc(bs, start, limit, size) == Outcome(bs, None)
  {
    if size > 0 {
      var asize := AdjustSize(size);
      ContiguousLayout(bs, start);
      forall k | 0 <= k < |bs| ensures !Fits(bs[k], asize) {
        assert bs[k].size <= limit - start;
      }
      assert FirstFit(bs, asize).None?;
      MallocGrowNull(bs, start, limit, size);
    }
  }

  /** extend_heap(words): the byte count asked of the arena, words rounded up to even. */
  function ExtendBytes(words: nat): (size: nat)
    ensures size % DSIZE == 0 && words * WSIZE <= size <= words * WSIZE + WSIZE
  {
    (if words % 2 == 1 then words + 1 else words) * WSIZE
  }

  /**
   * The growth mm_malloc asks for on a miss, extend_heap(MAX(asize, CHUNKSIZE) / WSIZE):
   * for an adjusted size this is exactly MAX(asize, CHUNKSIZE) bytes.
   */
  function GrowBytes(asize: int): (grow: nat)
    requires asize % DSIZE == 0
    ensures grow == Max(asize, CHUNKSIZE) && grow >= asize && grow >= CHUNKSIZE
  {
    ExtendBytes(Max(asize, CHUNKSIZE) / WSIZE)
  }

  /** The heap after a call and the pointer it returned. */
  datatype Outcome = Outcome(blocks: seq<Block>, ptr: Option<int>)

  /**
   * mm_malloc(size) on a heap whose blocks tile from start, in an arena that
   * can grow to limit bytes: NULL for size 0; otherwise place the request in
   * the first fit, or else grow the heap by MAX(asize, CHUNKSIZE) and place it
   * in the last block; NULL when the arena cannot grow.
   */
  function Malloc(bs: seq<Block>, start: int, limit: int, size: nat): Outcome
  {
    if size == 0 then Outcome(bs, None)
    else
      var asize := AdjustSize(size);
      match FirstFit(bs, asize)
      case Some(i) => Outcome(Place(bs, i, asize), Some(bs[i].bp))
      case None =>
        var grow := GrowBytes(asize);
        if End(bs, start) + grow > limit then Outcome(bs, None)
        else
          var ext := Extend(bs, start, grow);
          Outcome(Place(ext, |ext| - 1, asize), Some(ext[|ext| - 1].bp))
  }

  /** mm_malloc when block i is the first fit: place there and return its payload. */
  lemma MallocFitOutcome(bs: seq<Block>, start: int, limit: int, size: nat, i: nat)
    requires size > 0 && FirstFit(bs, AdjustSize(size)) == Some(i)
    ensures Malloc(bs, start, limit, size) == Outcome(Place(bs, i, AdjustSize(size)), Some(bs[i].bp))
  {
    var asize := AdjustSize(size);
    assert FirstFit(bs, asize).Some?;
  }

  /**
   * mm_malloc when nothing fits: NULL with the heap unchanged when the
   * arena cannot grow by MAX(asize, CHUNKSIZE), else extend and place in
   * the last block.
   */
  lemma MallocGrowOutcome(bs: seq<Block>, start: int, limit: int, size: nat)
    requires size > 0 && FirstFit(bs, AdjustSize(size)).None?
    ensures var asize := AdjustSize(size);
      var grow := Max(asize, CHUNKSIZE);
      var ext := Extend(bs, start, grow);
      Malloc(bs, start, limit, size) ==
        if End(bs, start) + grow > limit then Outcome(bs, None)
        else Outcome(Place(ext, |ext| - 1, asize), Some(ext[|ext| - 1].bp))
  {
    var asize := AdjustSize(size);
    assert GrowBytes(asize) == Max(asize, CHUNKSIZE);
  }

  /** mm_malloc returns NULL and leaves the heap alone when nothing fits and the arena cannot grow. */
  lemma MallocGrowNull(bs: seq<Block>, start: int, limit: int, size: nat)
    requires size > 0 && FirstFit(bs, AdjustSize(size)).None?
    requires End(bs, start) + Max(AdjustSize(size), CHUNKSIZE) > limit
    ensures Malloc(bs, start, limit, size) == Outcome(bs, None)
  {
    MallocGrowOutcome(bs, start, limit, size);
  }

  /** The heap and pointer mm_malloc leaves after extending the heap and placing in its last block. */
  lemma MallocGrowFinish(bs: seq<Block>, start: int, limit: int, size: nat,
                         ext: seq<Block>, r: seq<Block>, bp: Option<int>)
    requires size > 0 && FirstFit(bs, AdjustSize(size)).None?
    requires End(bs, start) + Max(AdjustSize(size), CHUNKSIZE) <= limit
    requires ext == Extend(bs, start, Max(AdjustSize(size), CHUNKSIZE))
    requires bp == Some(ext[|ext| - 1].bp) && r == Place(ext, |ext| - 1, AdjustSize(size))
    ensures Outcome(r, bp) == Malloc(bs, start, limit, size)
  {
    MallocGrowOutcome(bs, start, limit, size);
  }

  /** mm_malloc leaves every allocated block in place. */
  lemma MallocKeeps(bs: seq<Block>, start: int, limit: int, size: nat)
    ensures forall b :: b in bs && b.alloc ==> b in Malloc(bs, start, limit, size).blocks
  {
    if size > 0 {
      var asize := AdjustSize(size);
      match FirstFit(bs, asize)
      case Some(i) =>
        MallocFitOutcome(bs, start, limit, size, i);
        PlaceKeeps(bs, i, asize);
      case None =>
        MallocGrowOutcome(bs, start, limit, size);
        var grow := GrowBytes(asize);
        if End(bs, start) + grow <= limit {
          var grown := bs + [Block(End(bs, start), grow, false)];
          var ext := Extend(bs, start, grow);
          assert grown[|bs|] == Block(End(bs, start), grow, false);
          CoalesceKeeps(grown, |bs|);
          PlaceKeeps(ext, |ext| - 1, asize);
          forall b | b in bs && b.alloc ensures b in Malloc(bs, start, limit, size).blocks {
            assert b in grown;
            assert b in ext;
          }
        }
    }
  }

  /**
   * mm_malloc keeps the tiling and the coalescing invariant. The heap grows
   * only when no free block fits the adjusted size and the arena has room,
   * and then by exactly MAX(asize, CHUNKSIZE) bytes; otherwise its span is
   * unchanged.
   */
  lemma MallocInvariant(bs: seq<Block>, start: int, limit: int, size: nat)
    requires Contiguous(bs, start) && NoAdjacentFree(bs)
    ensures var o := Malloc(bs, start, limit, size);
      Contiguous(o.blocks, start) && NoAdjacentFree(o.blocks)
    ensures var o, asize := Malloc(bs, start, limit, size), AdjustSize(size);
      var grows := size > 0 && (forall k :: 0 <= k < |bs| ==> !Fits(bs[k], asize)) &&
                   End(bs, start) + Max(asize, CHUNKSIZE) <= limit;
      End(o.blocks, start) == if grows then End(bs, start) + Max(asize, CHUNKSIZE) else End(bs, start)
  {
    if size > 0 {
      var asize := AdjustSize(size);
      match FirstFit(bs, asize)
      case Some(i) =>
        assert Fits(bs[i], asize);
        MallocFitTiles(bs, start, limit, size, i);
      case None =>
        if End(bs, start) + Max(asize, CHUNKSIZE) <= limit {
          MallocGrowTiles(bs, start, limit, size);
        }
    }
  }

  /** mm_malloc placing in a fit keeps the tiling, its end and the coalescing invariant. */
  lemma MallocFitTiles(bs: seq<Block>, start: int, limit: int, size: nat, i: nat)
    requires Contiguous(bs, start) && NoAdjacentFree(bs)
    requires size > 0 && FirstFit(bs, AdjustSize(size)) == Some(i)
    ensures var o := Malloc(bs, start, limit, size);
      Contiguous(o.blocks, start) && NoAdjacentFree(o.blocks) && End(o.blocks, start) == End(bs, start)
  {
    var asize := AdjustSize(size);
    assert Malloc(bs, start, limit, size).blocks == Place(bs, i, asize);
    PlaceTiles(bs, i, asize, start);
  }

  /**
   * mm_malloc extending the heap keeps the tiling and the coalescing
   * invariant, and moves the end up by MAX(asize, CHUNKSIZE).
   */
  lemma MallocGrowTiles(bs: seq<Block>, start: int, limit: int, size: nat)
    requires Contiguous(bs, start) && NoAdjacentFree(bs)
    requires size > 0 && FirstFit(bs, AdjustSize(size)).None?
    requires End(bs, start) + Max(AdjustSize(size), CHUNKSIZE) <= limit
    ensures var o := Malloc(bs, start, limit, size);
      Contiguous(o.blocks, start) && NoAdjacentFree(o.blocks) &&
      End(o.blocks, start) == End(bs, start) + Max(AdjustSize(size), CHUNKSIZE)
  {
    var asize := AdjustSize(size);
    var grow := GrowBytes(asize);
    var ext := Extend(bs, start, grow);
    assert Malloc(bs, start, limit, size).blocks == Place(ext, |ext| - 1, asize);
    ExtendSound(bs, start, grow);
    PlaceTiles(ext, |ext| - 1, asize, start);
  }

  /**
   * When mm_malloc returns NULL: exactly for size 0, or when no free block
   * fits the adjusted size and the arena cannot grow by MAX(asize,
   * CHUNKSIZE); the heap is then unchanged.
   */
  lemma MallocNull(bs: seq<Block>, start: int, limit: int, size: nat)
    ensures var o, asize := Malloc(bs, start, limit, size), AdjustSize(size);
      (o.ptr.None? <==>
         (size == 0 ||
          ((forall k :: 0 <= k < |bs| ==> !Fits(bs[k], asize)) &&
           End(bs, start) + Max(asize, CHUNKSIZE) > limit))) &&
      (o.ptr.None? ==> o.blocks == bs)
  {
  }

  /**
   * A non-NULL result of mm_malloc is the payload pointer of an allocated
   * block with room for size bytes between its tags, 8-aligned when the
   * heap starts 8-aligned, and not the pointer of any block that was
   * allocated before.
   */
  lemma MallocBlock(bs: seq<Block>, start: int, limit: int, size: nat)
    requires Contiguous(bs, start) && NoAdjacentFree(bs)
    ensures var o := Malloc(bs, start, limit, size);
      o.ptr.Some? ==>
        IsAllocated(o.blocks, o.ptr.value) &&
        o.blocks[IndexOf(o.blocks, o.ptr.value).value].size >= size + DSIZE &&
        (start % ALIGNMENT == 0 ==> o.ptr.value % ALIGNMENT == 0) &&
        (forall b :: b in bs && b.alloc ==> b.bp != o.ptr.value)
  {
    if size > 0 {
      var asize := AdjustSize(size);
      match FirstFit(bs, asize)
      case Some(i) =>
        MallocFitOutcome(bs, start, limit, size, i);
        PlacedFresh(bs, start, i, asize);
        var o := Malloc(bs, start, limit, size);
        assert o.blocks == Place(bs, i, asize) && o.ptr.value == bs[i].bp;
      case None =>
        MallocGrowOutcome(bs, start, limit, size);
        var grow := Max(asize, CHUNKSIZE);
        if End(bs, start) + grow <= limit {
          MallocGrowBlock(bs, start, limit, size);
        }
    }
  }

  /** MallocBlock on the miss path, when the heap grows. */
  lemma MallocGrowBlock(bs: seq<Block>, start: int, limit: int, size: nat)
    requires Contiguous(bs, start) && NoAdjacentFree(bs)
    requires size > 0 && FirstFit(bs, AdjustSize(size)).None?
    requires End(bs, start) + Max(AdjustSize(size), CHUNKSIZE) <= limit
    ensures var o := Malloc(bs, start, limit, size);
      o.ptr.Some? &&
      IsAllocated(o.blocks, o.ptr.value) &&
      o.blocks[IndexOf(o.blocks, o.ptr.value).value].size >= size + DSIZE &&
      (start % ALIGNMENT == 0 ==> o.ptr.value % ALIGNMENT == 0) &&
      (forall b :: b in bs && b.alloc ==> b.bp != o.ptr.value)
  {
    var asize := AdjustSize(size);
    var grow := Max(asize, CHUNKSIZE);
    MallocGrowOutcome(bs, start, limit, size);
    var ext := Extend(bs, start, grow);
    ExtendSound(bs, start, grow);
    PlacedFresh(ext, start, |ext| - 1, asize);
    ExtendFresh(bs, start, grow);
  }

  /** The last block after extend_heap is not at the payload pointer of any block allocated before. */
  lemma ExtendFresh(bs: seq<Block>, start: int, grow: int)
    requires Contiguous(bs, start) && NoAdjacentFree(bs) && grow >= DSIZE && grow % DSIZE == 0
    ensures var ext := Extend(bs, start, grow);
      forall b :: b in bs && b.alloc ==> b.bp != ext[|ext| - 1].bp
  {
    ExtendSound(bs, start, grow);
    var ext := Extend(bs, start, grow);
    ContiguousLayout(bs, start);
    forall b | b in bs && b.alloc ensures b.bp != ext[|ext| - 1].bp {
      var k :| 0 <= k < |bs| && bs[k] == b;
      if k < |bs| - 1 {
        assert bs[k].bp + bs[k].size <= bs[|bs| - 1].bp;
      }
    }
  }

  /**
   * place on a fitting free block k gives an allocated block at the same
   * payload pointer with room for asize - 8 bytes, found again by IndexOf,
   * 8-aligned when the tiling starts 8-aligned; no allocated block of the
   * input had that pointer.
   */
  lemma PlacedFresh(bs: seq<Block>, start: int, k: nat, asize: int)
    requires Contiguous(bs, start) && NoAdjacentFree(bs) && k < |bs| && Fits(bs[k], asize)
    requires asize >= DSIZE && asize % DSIZE == 0
    ensures var r := Place(bs, k, asize);
      IsAllocated(r, bs[k].bp) && r[IndexOf(r, bs[k].bp).value].size >= asize &&
      (start % ALIGNMENT == 0 ==> bs[k].bp % ALIGNMENT == 0) &&
      (forall b :: b in bs && b.alloc ==> b.bp != bs[k].bp)
  {
    var r := Place(bs, k, asize);
    PlaceTiles(bs, k, asize, start);
    PlaceBlock(bs, k, asize);
    IndexOfTiling(r, start, k);
    if start % ALIGNMENT == 0 {
      ContiguousAligned(bs, start);
    }
    ContiguousLayout(bs, start);
    forall b | b in bs && b.alloc ensures b.bp != bs[k].bp {
      var j :| 0 <= j < |bs| && bs[j] == b;
      assert j != k;
    }
  }

  /**
   * First fit: when some free block already fits the adjusted size,
   * mm_malloc returns the lowest-addressed block that does.
   */
  lemma MallocFirstFit(bs: seq<Block>, start: int, limit: int, size: nat, k: nat)
    requires Contiguous(bs, start)
    requires size > 0 && k < |bs| && Fits(bs[k], AdjustSize(size))
    ensures var o := Malloc(bs, start, limit, size);
      o.ptr.Some? && o.ptr.value <= bs[k].bp &&
      exists j :: 0 <= j < |bs| && Fits(bs[j], AdjustSize(size)) && o.ptr.value == bs[j].bp
  {
    var i := FirstFit(bs, AdjustSize(size)).value;
    MallocFitOutcome(bs, start, limit, size, i);
    ContiguousLayout(bs, start);
    if i < k {
      assert bs[i].bp + bs[i].size <= bs[k].bp;
    }
  }

  // ---------------------------------------------------------------------
  // mm_realloc

  /**
   * mm_realloc(ptr, size): malloc for a NULL ptr; free and NULL for size 0;
   * otherwise malloc a new block, NULL with the heap unchanged if that
   * fails, else free the old block and return the new one.
   */
  function Realloc(bs: seq<Block>, start: int, limit: int, ptr: Option<int>, size: nat): Outcome
    requires ptr.Some? ==> IsAllocated(bs, ptr.value)
  {
    if ptr.None? then Malloc(bs, start, limit, size)
    else if size == 0 then Outcome(FreeAt(bs, IndexOf(bs, ptr.value).value), None)
    else
      var o := Malloc(bs, start, limit, size);
      if o.ptr.None? then Outcome(bs, None)
      else
        MallocKeeps(bs, start, limit, size);
        assert bs[IndexOf(bs, ptr.value).value] in o.blocks;
        Outcome(FreeAt(o.blocks, IndexOf(o.blocks, ptr.value).value), o.ptr)
  }

  /**
   * mm_realloc's copy length for an old block of blockSize bytes: its
   * payload (the block less 8 bytes of tags), cut to the new request.
   */
  function CopySize(blockSize: int, size: nat): (n: int)
    ensures n <= size && n <= blockSize - DSIZE
    ensures n == size || n == blockSize - DSIZE
  {
    if size < blockSize - DSIZE then size else blockSize - DSIZE
  }

  /** An allocated block keeps its index lookup across mm_malloc. */
  lemma KeptIndex(bs: seq<Block>, start: int, limit: int, size: nat, i: nat) returns (j: nat)
    requires Contiguous(bs, start) && NoAdjacentFree(bs) && i < |bs| && bs[i].alloc
    ensures var m := Malloc(bs, start, limit, size).blocks;
      j < |m| && m[j] == bs[i] && IndexOf(m, bs[i].bp) == Some(j)
  {
    var m := Malloc(bs, start, limit, size).blocks;
    MallocKeeps(bs, start, limit, size);
    MallocInvariant(bs, start, limit, size);
    assert bs[i] in m;
    j :| 0 <= j < |m| && m[j] == bs[i];
    IndexOfTiling(m, start, j);
  }

  /** mm_realloc keeps the tiling and the coalescing invariant. */
  lemma ReallocInvariant(bs: seq<Block>, start: int, limit: int, ptr: Option<int>, size: nat)
    requires Contiguous(bs, start) && NoAdjacentFree(bs)
    requires ptr.Some? ==> IsAllocated(bs, ptr.value)
    ensures var o := Realloc(bs, start, limit, ptr, size);
      Contiguous(o.blocks, start) && NoAdjacentFree(o.blocks)
  {
    MallocInvariant(bs, start, limit, size);
    if ptr.Some? {
      var i := IndexOf(bs, ptr.value).value;
      if size == 0 {
        FreeSound(bs, i, start);
      } else {
        var m := Malloc(bs, start, limit, size);
        if m.ptr.Some? {
          var j := KeptIndex(bs, start, limit, size, i);
          FreeSound(m.blocks, j, start);
        }
      }
    }
  }

  /**
   * mm_realloc(ptr, 0) frees ptr and returns NULL; when the new block
   * cannot be had, mm_realloc returns NULL and leaves the heap, and so the
   * old block, untouched.
   */
  lemma ReallocNull(bs: seq<Block>, start: int, limit: int, ptr: Option<int>, size: nat)
    requires Contiguous(bs, start) && NoAdjacentFree(bs)
    requires ptr.Some? && IsAllocated(bs, ptr.value)
    ensures var o := Realloc(bs, start, limit, ptr, size);
      (size == 0 ==> o.ptr.None? && !IsAllocated(o.blocks, ptr.value)) &&
      (size > 0 && o.ptr.None? ==> o.blocks == bs && IsAllocated(o.blocks, ptr.value))
  {
    if size == 0 {
      FreedNotAllocated(bs, IndexOf(bs, ptr.value).value, start);
    }
  }

  /**
   * A successful mm_realloc(ptr, size) returns a different pointer, to an
   * allocated block with room for size bytes, and ptr no longer names an
   * allocated block.
   */
  lemma ReallocMoves(bs: seq<Block>, start: int, limit: int, ptr: Option<int>, size: nat)
    requires Contiguous(bs, start) && NoAdjacentFree(bs)
    requires ptr.Some? && IsAllocated(bs, ptr.value)
    ensures var o := Realloc(bs, start, limit, ptr, size);
      o.ptr.Some? ==>
        o.ptr.value != ptr.value &&
        IsAllocated(o.blocks, o.ptr.value) &&
        o.blocks[IndexOf(o.blocks, o.ptr.value).value].size >= size + DSIZE &&
        !IsAllocated(o.blocks, ptr.value)
  {
    var p := ptr.value;
    var i := IndexOf(bs, p).value;
    var m := Malloc(bs, start, limit, size);
    if size > 0 && m.ptr.Some? {
      MallocInvariant(bs, start, limit, size);
      MallocBlock(bs, start, limit, size);
      var j := KeptIndex(bs, start, limit, size, i);
      var q := m.ptr.value;
      var jq := IndexOf(m.blocks, q).value;
      assert q != p;
      assert jq != j;
      FreeSound(m.blocks, j, start);
      FreedNotAllocated(m.blocks, j, start);
      var r := FreeAt(m.blocks, j);
      assert m.blocks[jq] in r;
      var t :| 0 <= t < |r| && r[t] == m.blocks[jq];
      IndexOfTiling(r, start, t);
    }
  }

  /** After mm_free, the freed pointer no longer names an allocated block. */
  lemma FreedNotAllocated(bs: seq<Block>, i: nat, start: int)
    requires Contiguous(bs, start) && NoAdjacentFree(bs) && i < |bs| && bs[i].alloc
    ensures !IsAllocated(FreeAt(bs, i), bs[i].bp)
  {
    MarkFree(bs, i, start);
    CoalesceTiles(Cleared(bs, i), i, start);
    FreeCovers(bs, i, start);
    var r := FreeAt(bs, i);
    var k :| 0 <= k < |r| && !r[k].alloc &&
      r[k].bp <= bs[i].bp && bs[i].bp + bs[i].size <= r[k].bp + r[k].size;
    OnlyBlockAt(r, start, k, bs[i].bp);
    var idx := IndexOf(r, bs[i].bp);
    if idx.Some? {
      assert idx.value == k;
    }
  }

  /** In a tiling, only the block containing address p can have its payload at p. */
  lemma OnlyBlockAt(r: seq<Block>, start: int, k: nat, p: int)
    requires Contiguous(r, start) && k < |r| && r[k].bp <= p < r[k].bp + r[k].size
    ensures forall j :: 0 <= j < |r| && j != k ==> r[j].bp != p
  {
    ContiguousLayout(r, start);
    forall j | 0 <= j < |r| && j != k ensures r[j].bp != p {
      if j < k {
        assert r[j].bp + r[j].size <= r[k].bp;
      } else {
        assert r[k].bp + r[k].size <= r[j].bp;
      }
    }
  }
}
