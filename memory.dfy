/**
 * The arena as bytes, the word accessors GET/PUT and the block address
 * macros HDRP, FTRP, NEXT_BLKP and PREV_BLKP of mm.c.
 *
 * Addresses are byte offsets from the arena base, which is taken to be
 * 8-aligned. Words are stored little-endian (the byte order of the x86
 * targets the allocator is built for); only the tag words depend on it.
 */
module Memory {
  import opened Tags

  type Byte = b: int | 0 <= b < 256

  /** Offset p can hold a whole word. */
  predicate WordAt(m: seq<Byte>, p: int)
  {
    0 <= p && p + WSIZE <= |m|
  }

  /** GET(p): the unsigned 4-byte word at p. */
  function Get(m: seq<Byte>, p: int): Word
    requires WordAt(m, p)
  {
    (m[p] as int) + 256 * (m[p + 1] as int) + 65536 * (m[p + 2] as int)
      + 16777216 * (m[p + 3] as int)
  }

  /** PUT(p, val): store val at p; every other byte is left alone. */
  function Put(m: seq<Byte>, p: int, v: Word): (r: seq<Byte>)
    requires WordAt(m, p)
    ensures |r| == |m|
    ensures Get(r, p) == v
    ensures forall k {:trigger r[k]} :: 0 <= k < |m| && (k < p || p + WSIZE <= k) ==> r[k] == m[k]
  {
    var b3, low3 := v / 16777216, v % 16777216;
    var b2, low2 := low3 / 65536, low3 % 65536;
    var b1, b0 := low2 / 256, low2 % 256;
    m[p := b0][p + 1 := b1][p + 2 := b2][p + 3 := b3]
  }

  /** Two arenas agree on the bytes [lo, hi). */
  predicate Agree(m1: seq<Byte>, m2: seq<Byte>, lo: int, hi: int)
  {
    0 <= lo <= hi <= |m1| && hi <= |m2| &&
    forall k :: lo <= k < hi ==> m1[k] == m2[k]
  }

  /** GET_SIZE(p) */
  function GetSize(m: seq<Byte>, p: int): (r: Word)
    requires WordAt(m, p)
    ensures r % 8 == 0
  {
    SizeBits(Get(m, p))
  }

  /** GET_ALLOC(p) */
  function GetAlloc(m: seq<Byte>, p: int): Bit
    requires WordAt(m, p)
  {
    AllocBit(Get(m, p))
  }

  /** HDRP(bp): the header sits one word before the payload. */
  function Hdrp(bp: int): (r: int)
    ensures r + WSIZE == bp
  {
    bp - WSIZE
  }

  /** FTRP(bp): the footer is the last word of the block, read from its header. */
  function Ftrp(m: seq<Byte>, bp: int): int
    requires WordAt(m, Hdrp(bp))
  {
    bp + GetSize(m, Hdrp(bp)) - DSIZE
  }

  /** NEXT_BLKP(bp): the payload after this block, found from its own header. */
  function NextBlkp(m: seq<Byte>, bp: int): int
    requires WordAt(m, bp - WSIZE)
  {
    bp + GetSize(m, bp - WSIZE)
  }

  /** PREV_BLKP(bp): the payload before this block, found from the previous footer. */
  function PrevBlkp(m: seq<Byte>, bp: int): int
    requires WordAt(m, bp - DSIZE)
  {
    bp - GetSize(m, bp - DSIZE)
  }

  /** memcpy(dst, src, n) on the arena, for non-overlapping ranges. */
  function Memcpy(m: seq<Byte>, dst: int, src: int, n: nat): (r: seq<Byte>)
    requires 0 <= dst && dst + n <= |m| && 0 <= src && src + n <= |m|
    requires dst + n <= src || src + n <= dst
    ensures |r| == |m|
    ensures forall k :: dst <= k < dst + n ==> r[k] == m[src + (k - dst)]
    ensures forall k :: 0 <= k < |m| && (k < dst || dst + n <= k) ==> r[k] == m[k]
  {
    m[..dst] + m[src..src + n] + m[dst + n..]
  }

  /** The n bytes at dst in m1 are the n bytes at src in m0. */
  predicate Copied(m0: seq<Byte>, m1: seq<Byte>, src: int, dst: int, n: int)
  {
    0 <= n && 0 <= src && src + n <= |m0| && 0 <= dst && dst + n <= |m1| &&
    m1[dst..dst + n] == m0[src..src + n]
  }

  /** A word whose four bytes agree between two arenas reads the same in both. */
  lemma GetAgree(m1: seq<Byte>, m2: seq<Byte>, p: int, lo: int, hi: int)
    requires Agree(m1, m2, lo, hi) && lo <= p && p + WSIZE <= hi
    ensures Get(m1, p) == Get(m2, p)
  {
  }
}
