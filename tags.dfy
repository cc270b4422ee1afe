/**
 * Boundary-tag encoding of the implicit-free-list allocator (mm.c).
 *
 * A tag is one 4-byte unsigned word holding a block's size (a multiple of
 * 8, so its low three bits are free) with the allocated flag in bit 0.
 * Words are modelled as integers in [0, 2^32); the bit operations of the
 * macros are written out arithmetically.
 */
module Tags {

  const WSIZE: int := 4         // word size: one header or footer
  const DSIZE: int := 8         // double word: alignment and tag overhead
  const CHUNKSIZE: int := 4096  // default heap growth, 1 << 12
  const ALIGNMENT: int := 8

  const WORD_LIMIT: int := 0x1_0000_0000

  /** An unsigned 32-bit tag word. */
  type Word = w: int | 0 <= w < WORD_LIMIT

  /** The allocated flag as the source passes it to PACK: 0 or 1. */
  type Bit = b: int | 0 <= b <= 1

  /** PACK(size, alloc): size | alloc. OR with a one-bit value sets bit 0. */
  function Pack(size: Word, alloc: Bit): Word
  {
    if size % 2 == 1 then size else size + alloc
  }

  /** GET_SIZE on a tag value: w & ~0x7 clears the low three bits. */
  function SizeBits(w: Word): (r: Word)
    ensures r % 8 == 0 && r <= w < r + 8
  {
    w - w % 8
  }

  /** GET_ALLOC on a tag value: w & 0x1. */
  function AllocBit(w: Word): Bit
  {
    w % 2
  }

  /** The tag bit for a block state. */
  function BitOf(alloc: bool): Bit
  {
    if alloc then 1 else 0
  }

  /**
   * Tag round-trip: a size survives PACK/GET_SIZE exactly when it is a
   * multiple of 8, and the flag survives PACK/GET_ALLOC for such sizes.
   */
  lemma TagRoundTrip(size: Word, alloc: Bit)
    ensures SizeBits(Pack(size, alloc)) == size <==> size % 8 == 0
    ensures size % 8 == 0 ==> AllocBit(Pack(size, alloc)) == alloc
  {
    var q, r := size / 8, size % 8;
    DivMod2(size, 4 * q + r / 2, r % 2);
    if r % 2 == 0 {
      DivMod8(size + alloc, q, r + alloc);
      DivMod2(size + alloc, 4 * q + r / 2, alloc);
    }
  }

  /** x % 8 and x / 8 are read off a decomposition x == 8 * q + t with 0 <= t < 8. */
  lemma DivMod8(x: int, q: int, t: int)
    requires x == 8 * q + t && 0 <= t < 8
    ensures x / 8 == q && x % 8 == t
  {
  }

  /** x % 2 and x / 2 are read off a decomposition x == 2 * q + t with 0 <= t < 2. */
  lemma DivMod2(x: int, q: int, t: int)
    requires x == 2 * q + t && 0 <= t < 2
    ensures x / 2 == q && x % 2 == t
  {
  }

  /** Two tags built from 8-aligned sizes are equal exactly when size and flag are. */
  lemma PackInjective(s1: Word, a1: Bit, s2: Word, a2: Bit)
    requires s1 % 8 == 0 && s2 % 8 == 0
    ensures Pack(s1, a1) == Pack(s2, a2) <==> s1 == s2 && a1 == a2
  {
    TagRoundTrip(s1, a1);
    TagRoundTrip(s2, a2);
  }

  /** ALIGN(size): (size + 7) & ~0x7, the least multiple of 8 that is >= size. */
  function Align(size: nat): (r: nat)
    ensures r % ALIGNMENT == 0 && size <= r < size + ALIGNMENT
  {
    (size + (ALIGNMENT - 1)) - (size + (ALIGNMENT - 1)) % 8
  }

  /** MAX(x, y). */
  function Max(x: int, y: int): (r: int)
    ensures r >= x && r >= y && (r == x || r == y)
  {
    if x > y then x else y
  }
}
