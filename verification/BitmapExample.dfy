/** A heap in which the release of a large block clears the bit of a bucket that still holds
    a block. */
module BitmapExample {
  import opened Bits
  import opened Sizes
  import opened Tags
  import opened Rings
  import opened LargeTrie
  import opened FreeListSpec
  import opened FreeListSteps
  import opened Memory
  import opened Tiling
  import opened HeapSpec
  import opened HeapSteps
  import opened HeapManager
  import opened HeapExamples
  import opened SearchExample

  const LOW := Segment(8192, 8192)
  const HIGH := Segment(32768, 16384)

  // used 32, free 32 in its bucket, used 8096; a large block, and what was left of its
  // segment, 32 bytes in the rest ring
  const USED_A: Addr := 8208
  const IN_BUCKET: Addr := 8240
  const USED_B: Addr := 8272
  const LARGE: Addr := 32784
  const IN_REST: Addr := 49104
  const GUARD1: Addr := 49136

  ghost function BitmapLow(): Heap {
    Split(Split(WithSegment(NoHeap(), LOW), USED_A, 32), IN_BUCKET, 32)
  }

  ghost function BitmapCut(): Heap {
    Split(WithSegment(BitmapLow(), HIGH), LARGE, 16320)
  }

  ghost function BitmapFreed(): Heap {
    Freed(Freed(BitmapCut(), IN_BUCKET, SmallRing(0)), IN_REST, RestRing)
  }

  ghost function BitmapHeap(): Heap {
    BitmapFreed().(data := Rooms(BitmapFreed().live))
  }

  lemma BitmapLowIs()
    ensures var h := BitmapLow();
      && Built(h) && Neat(h) && h.owner == InitView().owner && h.segs == [LOW] && h.home.Keys == {USED_A, IN_BUCKET, USED_B, GUARD0}
      && Has(h, USED_A, Tag(32, Used), FIRST) && Has(h, IN_BUCKET, Tag(32, Used), Tag(32, Used))
      && Has(h, USED_B, Tag(8096, Used), Tag(32, Used)) && Has(h, GUARD0, GUARD, Tag(8096, Used))
      && h.live == map[USED_A := Room(32), IN_BUCKET := Room(32), USED_B := Room(8096)]
  {
    hide Built; hide Split; hide WithSegment; hide Has; hide Room; hide InitView; hide Zeros; hide Neat;
    NoHeapBuilt();
    Begin(NoHeap(), LOW);
    var h0 := WithSegment(NoHeap(), LOW);
    CutStep(h0, USED_A, 32, 8128, FIRST, GUARD, Tag(8160, Used));
    var h1 := Split(h0, USED_A, 32);
    CutStep(h1, IN_BUCKET, 32, 8096, Tag(32, Used), GUARD, Tag(8128, Used));
  }

  lemma BitmapCutIs()
    ensures var h := BitmapCut();
      && Built(h) && Neat(h) && h.owner == InitView().owner && h.segs == [HIGH, LOW]
      && Has(h, USED_A, Tag(32, Used), FIRST) && Has(h, IN_BUCKET, Tag(32, Used), Tag(32, Used))
      && Has(h, USED_B, Tag(8096, Used), Tag(32, Used))
      && Has(h, LARGE, Tag(16320, Used), FIRST) && Has(h, IN_REST, Tag(32, Used), Tag(16320, Used)) && Has(h, GUARD1, GUARD, Tag(32, Used))
      && h.live == map[USED_A := Room(32), IN_BUCKET := Room(32), USED_B := Room(8096), LARGE := Room(16320), IN_REST := Room(32)]
  {
    hide Built; hide Split; hide WithSegment; hide Has; hide Room; hide InitView; hide Neat; hide BitmapLow;
    BitmapLowIs();
    Begin(BitmapLow(), HIGH);
    CutStep(WithSegment(BitmapLow(), HIGH), LARGE, 16320, 32, FIRST, GUARD, Tag(16352, Used));
  }

  lemma BitmapFreedIs()
    ensures var h := BitmapFreed();
      && Built(h) && Neat(h) && h.owner == InitView().owner[Block(IN_BUCKET) := SmallRing(0)][Block(IN_REST) := RestRing]
      && Has(h, IN_BUCKET, Tag(32, Free), Tag(32, Used)) && Has(h, USED_B, Tag(8096, Used), Tag(32, Free))
      && Has(h, LARGE, Tag(16320, Used), FIRST) && Has(h, IN_REST, Tag(32, Free), Tag(16320, Used)) && Has(h, GUARD1, GUARD, Tag(32, Free))
      && h.live == map[USED_A := Room(32), USED_B := Room(8096), LARGE := Room(16320)]
  {
    hide Built; hide Freed; hide Has; hide Room; hide InitView; hide Neat; hide BitmapCut;
    BitmapCutIs();
    FreeStep(BitmapCut(), IN_BUCKET, SmallRing(0), 32, Tag(32, Used), Tag(8096, Used), Tag(32, Used));
    FreeStep(Freed(BitmapCut(), IN_BUCKET, SmallRing(0)), IN_REST, RestRing, 32, Tag(16320, Used), GUARD, Tag(32, Used));
  }

  lemma InitHasRings()
    ensures SmallRing(0) in InitView().rings && InitView().rings[SmallRing(0)] == [SmallHead(0)]
    ensures RestRing in InitView().rings && InitView().rings[RestRing] == [RestHead]
  {
  }

  ghost function BitmapView(): View {
    InitHasRings();
    PutAt(PutAt(InitView(), SmallRing(0), 0, Block(IN_BUCKET)), RestRing, 0, Block(IN_REST))
  }

  /** What the release of the large block looks at. */
  lemma BitmapTags()
    ensures var h := BitmapHeap();
      && h.owner == BitmapView().owner && LARGE in h.live && h.live[LARGE].room == 16304 && h.lost == {}
      && LARGE in h.size && h.size[LARGE] == Tag(16320, Used) && LARGE in h.prev && h.prev[LARGE] == FIRST
      && InRest(h.owner, IN_REST) && IN_REST in h.size && h.size[IN_REST] == Tag(32, Free)
      && IN_BUCKET in h.size && h.size[IN_BUCKET] == Tag(32, Free)
  {
    hide HeapOk; hide Room; hide InitView; hide Neat; hide BitmapFreed;
    BitmapFreedIs();
    RoomIs(16320);
    InitHasRings();
  }

  lemma BitmapHeapOk()
    ensures HeapOk(BitmapHeap(), {}) && BitmapHeap().owner == BitmapView().owner
    ensures HeadersApart(BitmapHeap().size, BitmapHeap().prev, BitmapHeap().data)
  {
    hide Built; hide HeapOk; hide Room; hide BitmapFreed; hide BitmapView; hide Has; hide Neat; hide Rooms; hide HeadersApart;
    BitmapTags();
    BitmapFreedIs();
    RoomIs(32);
    RoomIs(8096);
    RoomIs(16320);
    KnownBuilt(BitmapFreed());
    KnownApart(BitmapFreed());
  }

  lemma BitmapWords() returns (next: Words, prev: Words, cell: map<Slot, Ptr>)
    ensures ViewOk(next, prev, map[], cell, 1, 0, BitmapView(), BitmapHeap().size)
  {
    hide ViewOk; hide InitRings; hide MayWrite; hide InitView; hide BitmapHeap;
    hide InitHeads; hide InitRoots;
    BitmapTags();
    InitHasRings();
    InitOwners();
    var size := BitmapHeap().size;
    var heads := InitHeads(NUM_BUCKETS);
    cell := InitRoots(NUM_BUCKETS);
    InitOk(heads, heads, map[], cell, size);
    var v0, e, f := InitView(), Block(IN_BUCKET), Block(IN_REST);
    AddSmallStep(heads, heads, map[], cell, 0, 0, v0, size, 0, IN_BUCKET, true);
    var h := SmallHead(0);
    next, prev := heads[e := heads[h]][h := e], heads[e := h][heads[h] := e];
    assert SetBit(0, 0) == 1;
    AddRestStep(next, prev, map[], cell, 1, 0, PutAt(v0, SmallRing(0), 0, e), size, IN_REST, map[]);
    var r := prev[RestHead];
    next, prev := next[f := RestHead][r := f], prev[f := r][RestHead := f];
  }

  /** The heap satisfies the invariant, there are words of the free lists that mean its
      lists, and its small bitmap is exact. */
  lemma BitmapIsReal() returns (next: Words, prev: Words, cell: map<Slot, Ptr>)
    ensures HeapOk(BitmapHeap(), {}) && BitmapHeap().owner == BitmapView().owner
    ensures HeadersApart(BitmapHeap().size, BitmapHeap().prev, BitmapHeap().data)
    ensures ViewOk(next, prev, map[], cell, 1, 0, BitmapView(), BitmapHeap().size) && BitsExact(1, BitmapView().rings)
  {
    hide HeapOk; hide ViewOk; hide BitmapHeap; hide HeadersApart; hide BitmapView;
    BitmapHeapOk();
    next, prev, cell := BitmapWords();
    BitmapRings();
  }

  lemma BitmapRings()
    ensures SmallRing(0) in BitmapView().rings && BitmapView().rings[SmallRing(0)] == [SmallHead(0), Block(IN_BUCKET)]
    ensures RestRing in BitmapView().rings && BitmapView().rings[RestRing] == [RestHead, Block(IN_REST)]
    ensures BitsExact(1, BitmapView().rings)
  {
    InitHasRings();
    var r := BitmapView().rings;
    forall i: nat
      ensures Shows(1, r, i)
    {
      if i > 0 {
        ZeroHasNoBit(i - 1);
      }
    }
    hide Shows;
  }

  lemma LargeHides(h: ZendHeap)
    requires h.Here() == BitmapHeap() && h.lists.view == BitmapView() && h.lists.freeBitmap == 1
    ensures h.Shown(0) && h.HidesBehind(LARGE, 0)
  {
    hide BitmapHeap; hide BitmapView;
    BitmapTags();
    BitmapRings();
    assert BucketIndex(32) == 0 && SmallSize(32);
    assert Shows(1, h.lists.view.rings, 0);
    assert Hides(h.lists.view.rings, RestRing, 32, 0);
  }

  /** The release of the large block unlinks the block behind it, which is alone in the rest
      ring, and clears the bit of its bucket, although there is a block in that bucket. */
  method LoseBit(h: ZendHeap)
    requires h.Valid() && h.Here() == BitmapHeap() && h.lists.view == BitmapView() && h.lists.freeBitmap == 1
    modifies h, h.lists
    ensures h.Counted() && !Bit(h.lists.freeBitmap, 0)
    ensures SmallRing(0) in h.lists.view.rings && |h.lists.view.rings[SmallRing(0)]| >= 2
  {
    BitmapTags();
    LargeHides(h);
    hide BitmapHeap; hide BitmapView; hide ZendHeap.HidesBehind; hide HeapOk; hide HeadersApart; hide ViewOk; hide LiveTotal; hide CacheTotal;
    hide SegmentTotal; hide ValidSegmentBlock;
    assert BeforeNoLost({}, h.prev, LARGE) by {
      NoneLost(h.prev, LARGE);
    }
    h.FreeInt(LARGE + HEADER);
    h.lists.ShownHold(h.size, 0);
  }
}
