/** The size macros of the allocator in the release layout: 64-bit words, alignment 8,
    no debug header, no cookies, no end magic. Arithmetic is modulo 2^64. */
module Sizes {
  import opened Bits

  const NUM_BUCKETS: nat := 64
  const ALIGNMENT: nat := 8
  const HEADER: nat := 16         // ZEND_MM_ALIGNED_HEADER_SIZE
  const MIN_BLOCK: nat := 32      // ZEND_MM_ALIGNED_MIN_HEADER_SIZE
  const SEGMENT_HEADER: nat := 16 // ZEND_MM_ALIGNED_SEGMENT_SIZE
  const MIN_SIZE: nat := 16       // ZEND_MM_MIN_SIZE
  const MAX_SMALL: nat := 544     // ZEND_MM_MAX_SMALL_SIZE
  const CACHE_SIZE: nat := 262144 // ZEND_MM_CACHE_SIZE
  const MAX_REST_BLOCKS: nat := 16

  function Wrap(x: int): nat {
    x % WORD
  }

  /** ZEND_MM_ALIGNED_SIZE: add, then mask the low bits. */
  function AlignedSize(x: nat): nat {
    var y := Wrap(x + ALIGNMENT - 1);
    y - y % ALIGNMENT
  }

  function TrueSize(size: nat): nat {
    if size < MIN_SIZE then MIN_BLOCK else AlignedSize(Wrap(size + HEADER))
  }

  predicate SmallSize(trueSize: nat) {
    trueSize < MAX_SMALL
  }

  function BucketIndex(trueSize: nat): int {
    trueSize / ALIGNMENT - MIN_BLOCK / ALIGNMENT
  }

  /** What a block of a small bucket measures. */
  function ClassSize(index: nat): nat {
    ALIGNMENT * index + MIN_BLOCK
  }

  predicate ValidBlockSize(n: nat) {
    n >= MIN_BLOCK && n % ALIGNMENT == 0
  }

  predicate ValidSegmentBlock(blockSize: nat) {
    MIN_BLOCK <= blockSize && exists k: nat :: k <= 62 && blockSize == Pow2(k)
  }

  /** The segment a request needs: the rounding of zend_alloc.c:1945-1954. */
  function SegmentSize(blockSize: nat, trueSize: nat): nat
    requires blockSize >= SEGMENT_HEADER + HEADER
  {
    if trueSize > blockSize - (SEGMENT_HEADER + HEADER) then
      var s := Wrap(Wrap(trueSize + SEGMENT_HEADER + HEADER) + (blockSize - 1));
      s - s % blockSize
    else
      blockSize
  }

  /** `(int)` of a size: the low 32 bits, read as a signed number. */
  function IntCast(size: nat): int {
    var low := size % 0x1_0000_0000;
    if low < 0x8000_0000 then low else low - 0x1_0000_0000
  }

  /** Either the block covers the request and its header, or the wrap-around
      shows as a block smaller than the request. */
  lemma TrueSizeCovers(size: nat)
    requires size < WORD
    ensures TrueSize(size) < WORD
    ensures TrueSize(size) >= size <==> size + HEADER + ALIGNMENT - 1 < WORD
    ensures TrueSize(size) >= size ==>
      ValidBlockSize(TrueSize(size)) && size + HEADER <= TrueSize(size)
    ensures TrueSize(size) < size ==> SmallSize(TrueSize(size))
  {
  }

  /** No smaller valid block would cover the request. */
  lemma TrueSizeIsLeast(size: nat, n: nat)
    requires size < WORD && TrueSize(size) >= size
    requires ValidBlockSize(n) && n >= size + HEADER
    ensures TrueSize(size) <= n
  {
  }

  /** Small sizes and buckets correspond one to one. */
  lemma SmallSizesAreClasses(n: nat)
    requires ValidBlockSize(n)
    ensures SmallSize(n) <==> BucketIndex(n) < NUM_BUCKETS
    ensures SmallSize(n) ==> 0 <= BucketIndex(n) && ClassSize(BucketIndex(n)) == n
  {
  }

  lemma ClassesAreSmallSizes(i: nat)
    requires i < NUM_BUCKETS
    ensures ValidBlockSize(ClassSize(i)) && SmallSize(ClassSize(i)) && BucketIndex(ClassSize(i)) == i
  {
  }

  lemma Quotient(x: nat, d: nat) returns (q: nat)
    requires d > 0
    ensures x - x % d == q * d
    ensures q * d <= x < q * d + d
  {
    q := x / d;
  }

  lemma MultipleOf8(q: nat)
    ensures (8 * q) % 8 == 0
  {
  }

  lemma SegmentBlockAligned(blockSize: nat, k: nat)
    requires blockSize == Pow2(k) && blockSize >= 32
    ensures blockSize % 8 == 0
  {
    if k >= 3 {
      assert Pow2(k) == 2 * Pow2(k - 1) && Pow2(k - 1) == 2 * Pow2(k - 2) && Pow2(k - 2) == 2 * Pow2(k - 3);
      MultipleOf8(Pow2(k - 3));
    }
  }

  lemma SegmentBlockBounds(blockSize: nat)
    requires ValidSegmentBlock(blockSize)
    ensures blockSize % 8 == 0 && 2 * blockSize <= Pow2(63) == WORD / 2
  {
    var k: nat :| k <= 62 && blockSize == Pow2(k);
    SegmentBlockAligned(blockSize, k);
    Pow2Monotone(k, 62);
    Pow2Of64();
  }

  lemma RoundedAligned(s: nat, blockSize: nat)
    requires blockSize > 0 && blockSize % 8 == 0
    ensures (s - s % blockSize) % 8 == 0
    ensures s - blockSize < s - s % blockSize <= s
  {
    var m := blockSize / 8;
    var q := Quotient(s, blockSize);
    assert q * (8 * m) == 8 * (q * m);
    MultipleOf8(q * m);
  }

  /** Either the segment holds the block, its own header and the guard, or the
      wrap-around shows as a segment smaller than the block. */
  lemma SegmentCovers(blockSize: nat, trueSize: nat)
    requires ValidSegmentBlock(blockSize)
    requires ValidBlockSize(trueSize) && trueSize < WORD
    ensures SegmentSize(blockSize, trueSize) < WORD
    ensures SegmentSize(blockSize, trueSize) >= trueSize ==>
      SegmentSize(blockSize, trueSize) >= trueSize + SEGMENT_HEADER + HEADER
    ensures SegmentSize(blockSize, trueSize) < trueSize <==>
      trueSize + SEGMENT_HEADER + HEADER + blockSize - 1 >= WORD
    ensures SegmentSize(blockSize, trueSize) % 8 == 0
  {
    hide Wrap;
    SegmentBlockBounds(blockSize);
    if trueSize > blockSize - (SEGMENT_HEADER + HEADER) {
      var s := Wrap(Wrap(trueSize + SEGMENT_HEADER + HEADER) + (blockSize - 1));
      WrapSum(trueSize + SEGMENT_HEADER + HEADER, blockSize - 1);
      RoundedAligned(s, blockSize);
    }
  }

  /** A segment is a multiple of the segment block, and the least that covers. */
  lemma SegmentIsLeast(blockSize: nat, trueSize: nat, n: nat)
    requires ValidSegmentBlock(blockSize) && ValidBlockSize(trueSize) && trueSize < WORD
    requires SegmentSize(blockSize, trueSize) >= trueSize
    ensures exists k: nat :: SegmentSize(blockSize, trueSize) == k * blockSize
    ensures n % blockSize == 0 && n >= trueSize + SEGMENT_HEADER + HEADER ==> SegmentSize(blockSize, trueSize) <= n
  {
    hide Wrap;
    SegmentBlockBounds(blockSize);
    SegmentCovers(blockSize, trueSize);
    var need := trueSize + SEGMENT_HEADER + HEADER;
    if trueSize > blockSize - (SEGMENT_HEADER + HEADER) {
      var s := Wrap(Wrap(need) + (blockSize - 1));
      WrapSum(need, blockSize - 1);
      RoundedAligned(s, blockSize);
      var q := Quotient(s, blockSize);
      if n % blockSize == 0 && n >= need {
        var q' := Quotient(n, blockSize);
        LeastMultiple(q, q', blockSize, s);
      }
    } else {
      assert blockSize == 1 * blockSize;
      if n % blockSize == 0 && n > 0 {
        var q' := Quotient(n, blockSize);
        LeastMultiple(1, q', blockSize, blockSize);
      }
    }
  }

  lemma LeastMultiple(q: nat, q': nat, d: nat, s: nat)
    requires d > 0 && q * d <= s && q' * d > s - d
    ensures q * d <= q' * d
  {
    assert (q' + 1 - q) * d > 0;
    assert q' >= q;
  }

  lemma WrapSum(a: nat, b: nat)
    requires a + b < 2 * WORD
    ensures Wrap(Wrap(a) + b) == if a + b < WORD then a + b else a + b - WORD
  {
  }

  /** The pointer arithmetic of ZEND_MM_PREV_BLOCK goes back by exactly the stored
      size when, and only when, that size fits a signed 32-bit integer. */
  lemma PrevOffsetExact(n: nat)
    requires n < WORD
    ensures IntCast(n) == n <==> n < 0x8000_0000
  {
  }
}
