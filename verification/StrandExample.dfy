/** A run after which a free block is in no list: storage fails to resize a segment. */
module StrandExample {
  import opened Sizes
  import opened Tags
  import opened Bits
  import opened Memory
  import opened FreeBlocks
  import opened Tiling
  import opened HeapSpec
  import opened HeapSteps
  import opened HeapManager

  /** The sizes of the run. */
  lemma RunSizes()
    ensures TrueSize(4000) == 4016 && TrueSize(10000) == 10016 && !SmallSize(4016) && !SmallSize(10016)
    ensures ValidBlockSize(4016) && ValidSegmentBlock(8192) && SegmentSize(8192, 4016) == 8192 && SegmentSize(8192, 10016) == 16384
    ensures 16384 < WORD
  {
    hide SegmentSize; hide ValidSegmentBlock;
    Pow2Of64();
    RunSegments();
  }

  lemma RunSegments()
    ensures ValidSegmentBlock(8192) && SegmentSize(8192, 4016) == 8192 && SegmentSize(8192, 10016) == 16384
  {
    hide TrueSize;
    Pow2Of64();
    assert Pow2(13) == 8192;
  }

  /** On a new heap 4000 bytes are allocated, at the front of a segment of 8192 bytes. */
  method FirstRequest(base: Addr) returns (h: ZendHeap, p: Addr)
    requires NewSegment([], Segment(base, 8192))
    ensures fresh(h) && fresh(h.lists) && h.Valid() && h.reserve == 0 && h.blockSize == 8192
    ensures p != 0 && p - HEADER in h.books.live && h.Strands(p - HEADER, 10000, 0)
  {
    hide HeapOk; hide HeadersApart; hide FreeLists.Valid; hide LiveTotal; hide SegmentTotal; hide CacheTotal; hide ZendHeap.NoFit;
    hide ZendHeap.Picked; hide ZendHeap.AllocShows; hide ZendHeap.LeftServes; hide ZendHeap.LeftOfSegment; hide Tidied;
    hide ZendHeap.GotCached; hide ZendHeap.GotListed; hide ZendHeap.FillsSegment; hide ZendHeap.SpanOf; hide ZendHeap.Strands;
    RunSizes();
    assert base > 0;
    hide NewSegment; hide TrueSize; hide SegmentSize; hide SmallSize; hide ValidBlockSize; hide ValidSegmentBlock;
    h := new ZendHeap(8192, 0);
    assert h.NoFit(4016) && !h.NoSegment(4016, base);
    p := h.AllocInt(4000, base);
    WillStrand(h, p - HEADER, base);
  }

  lemma WillStrand(h: ZendHeap, b: Addr, base: Addr)
    requires h.Valid() && b in h.books.live && h.FillsSegment(b) && h.SpanOf(b) == 8192 - SEGMENT_HEADER - HEADER
    requires h.segments == [Segment(base, 8192)] && h.realSize == 8192 && h.limit >= 16384 && h.blockSize == 8192
    requires h.books.live[b].room + HEADER < 4016 + MIN_BLOCK && h.cache == NoBlocks()
    ensures h.Strands(b, 10000, 0)
  {
    RunSizes();
    hide HeapOk; hide HeadersApart; hide FreeLists.Valid; hide LiveTotal; hide SegmentTotal; hide CacheTotal;
    hide TrueSize; hide SegmentSize; hide ValidSegmentBlock; hide ValidBlockSize;
    LiveHome(h, b);
    assert h.books.home[b] == Segment(base, 8192) && !h.PastLimit(b, 10016);
  }

  /** The block is then resized to 10000 bytes, which storage refuses: what was left of the
      segment is free, and in no list. */
  method StrandRun(base: Addr) returns (h: ZendHeap, p: Addr)
    requires NewSegment([], Segment(base, 8192))
    ensures p != 0 && p - HEADER in h.books.live && h.Stranded(p + h.books.live[p - HEADER].room) && !h.Valid()
  {
    hide HeapOk; hide HeadersApart; hide FreeLists.Valid; hide LiveTotal; hide SegmentTotal; hide CacheTotal;
    hide ZendHeap.Regot; hide Tidied; hide ZendHeap.Strands; hide SegmentSize; hide TrueSize; hide ValidSegmentBlock;
    h, p := FirstRequest(base);
    var q := h.ReallocInt(p, 10000, 0, 0);
  }

  lemma LiveHome(h: ZendHeap, b: Addr)
    requires h.Valid() && b in h.books.live
    ensures b in h.books.home && h.books.home[b] in h.segments && b in h.size && h.size[b].n == h.books.live[b].room + HEADER
  {
    hide FreeLists.Valid; hide HeadersApart; hide LiveTotal; hide SegmentTotal; hide CacheTotal; hide ValidSegmentBlock;
    hide HeapOk;
    LiveInside(h.Here(), b);
    BehindLive(h.Here(), b);
  }
}
