/** A heap in which the search for a large block passes over the best fit. */
module SearchExample {
  import opened Bits
  import opened Sizes
  import opened Tags
  import opened Rings
  import opened LargeTrie
  import opened FreeListSpec
  import opened FreeListSteps
  import opened LargeSearch
  import opened Memory
  import opened Tiling
  import opened HeapSpec
  import opened HeapExamples

  const SEGMENT := Segment(8192, 8192)

  // three large free blocks and the used blocks between them
  const ROOT: Addr := 8208
  const USED0: Addr := 10248
  const LEFT: Addr := 10280
  const USED1: Addr := 11304
  const RIGHT: Addr := 11336
  const USED2: Addr := 13136
  const GUARD0: Addr := 16368

  /** The segment, cut into used blocks. */
  ghost function ExampleFront(): Heap {
    Split(Split(WithSegment(NoHeap(), SEGMENT), ROOT, 2040), USED0, 32)
  }

  ghost function ExampleCut(): Heap {
    Split(Split(Split(ExampleFront(), LEFT, 1024), USED1, 32), RIGHT, 1800)
  }

  /** And three of them free. */
  ghost function ExampleFreed(): Heap {
    Freed(ExampleLeft(), RIGHT, LargeRing(1800))
  }

  ghost function ExampleHeap(): Heap {
    ExampleFreed().(data := Rooms(ExampleFreed().live))
  }

  lemma ExampleFrontIs()
    ensures var h := ExampleFront();
      && Built(h) && Neat(h) && h.owner == InitView().owner && h.segs == [SEGMENT] && h.home.Keys == {ROOT, USED0, LEFT, GUARD0}
      && Has(h, ROOT, Tag(2040, Used), FIRST) && Has(h, USED0, Tag(32, Used), Tag(2040, Used))
      && Has(h, LEFT, Tag(6088, Used), Tag(32, Used)) && Has(h, GUARD0, GUARD, Tag(6088, Used))
      && h.live == map[ROOT := Room(2040), USED0 := Room(32), LEFT := Room(6088)]
  {
    hide Built; hide Split; hide WithSegment; hide Has; hide Room; hide InitView; hide Zeros; hide Neat;
    NoHeapBuilt();
    Begin(NoHeap(), SEGMENT);
    var h0 := WithSegment(NoHeap(), SEGMENT);
    CutStep(h0, ROOT, 2040, 6120, FIRST, GUARD, Tag(8160, Used));
    var h1 := Split(h0, ROOT, 2040);
    CutStep(h1, USED0, 32, 6088, Tag(2040, Used), GUARD, Tag(6120, Used));
  }

  lemma ExampleCutIs()
    ensures var h := ExampleCut();
      && Built(h) && Neat(h) && h.owner == InitView().owner && h.segs == [SEGMENT]
      && Has(h, ROOT, Tag(2040, Used), FIRST) && Has(h, USED0, Tag(32, Used), Tag(2040, Used))
      && Has(h, LEFT, Tag(1024, Used), Tag(32, Used)) && Has(h, USED1, Tag(32, Used), Tag(1024, Used))
      && Has(h, RIGHT, Tag(1800, Used), Tag(32, Used)) && Has(h, USED2, Tag(3232, Used), Tag(1800, Used))
      && Has(h, GUARD0, GUARD, Tag(3232, Used))
      && h.live == map[ROOT := Room(2040), USED0 := Room(32), LEFT := Room(1024), USED1 := Room(32), RIGHT := Room(1800), USED2 := Room(3232)]
  {
    hide Built; hide Split; hide ExampleFront; hide Has; hide Room; hide InitView; hide Zeros; hide Neat;
    ExampleFrontIs();
    var h2 := ExampleFront();
    CutStep(h2, LEFT, 1024, 5064, Tag(32, Used), GUARD, Tag(6088, Used));
    var h3 := Split(h2, LEFT, 1024);
    CutStep(h3, USED1, 32, 5032, Tag(1024, Used), GUARD, Tag(5064, Used));
    var h4 := Split(h3, USED1, 32);
    CutStep(h4, RIGHT, 1800, 3232, Tag(32, Used), GUARD, Tag(5032, Used));
  }

  ghost function ExampleLeft(): Heap {
    Freed(Freed(ExampleCut(), ROOT, LargeRing(2040)), LEFT, LargeRing(1024))
  }

  lemma ExampleLeftIs()
    ensures var h := ExampleLeft();
      && Built(h) && Neat(h) && h.segs == [SEGMENT]
      && Has(h, ROOT, Tag(2040, Free), FIRST) && Has(h, USED0, Tag(32, Used), Tag(2040, Free))
      && Has(h, LEFT, Tag(1024, Free), Tag(32, Used)) && Has(h, USED1, Tag(32, Used), Tag(1024, Free))
      && Has(h, RIGHT, Tag(1800, Used), Tag(32, Used)) && Has(h, USED2, Tag(3232, Used), Tag(1800, Used))
      && Has(h, GUARD0, GUARD, Tag(3232, Used))
      && h.live == map[USED0 := Room(32), USED1 := Room(32), RIGHT := Room(1800), USED2 := Room(3232)]
      && h.owner == InitView().owner[Block(ROOT) := LargeRing(2040)][Block(LEFT) := LargeRing(1024)]
  {
    hide Built; hide ExampleCut; hide Freed; hide Has; hide Room; hide InitView; hide Neat;
    ExampleCutIs();
    var h := ExampleCut();
    FreeStep(h, ROOT, LargeRing(2040), 2040, FIRST, Tag(32, Used), Tag(2040, Used));
    var h1 := Freed(h, ROOT, LargeRing(2040));
    FreeStep(h1, LEFT, LargeRing(1024), 1024, Tag(32, Used), Tag(32, Used), Tag(1024, Used));
  }

  lemma ExampleFreedIs()
    ensures var h := ExampleFreed();
      && Built(h) && Neat(h) && h.owner == ExampleView().owner && h.segs == [SEGMENT]
      && Has(h, ROOT, Tag(2040, Free), FIRST) && Has(h, USED0, Tag(32, Used), Tag(2040, Free))
      && Has(h, LEFT, Tag(1024, Free), Tag(32, Used)) && Has(h, USED1, Tag(32, Used), Tag(1024, Free))
      && Has(h, RIGHT, Tag(1800, Free), Tag(32, Used)) && Has(h, USED2, Tag(3232, Used), Tag(1800, Free))
      && Has(h, GUARD0, GUARD, Tag(3232, Used))
      && h.live == map[USED0 := Room(32), USED1 := Room(32), USED2 := Room(3232)]
  {
    hide Built; hide ExampleLeft; hide Freed; hide Has; hide Room; hide InitView; hide Neat;
    ExampleLeftIs();
    FreeStep(ExampleLeft(), RIGHT, LargeRing(1800), 1800, Tag(32, Used), Tag(3232, Used), Tag(1800, Used));
  }

  /** The example satisfies the invariant of the heap. */
  lemma ExampleHeapOk()
    ensures HeapOk(ExampleHeap(), {}) && ExampleHeap().owner == ExampleView().owner
    ensures HeadersApart(ExampleHeap().size, ExampleHeap().prev, ExampleHeap().data)
  {
    hide Built; hide HeapOk; hide Room; hide ExampleFreed; hide ExampleView; hide Has; hide Neat; hide Rooms; hide HeadersApart;
    ExampleFreedIs();
    RoomIs(32);
    RoomIs(3232);
    KnownBuilt(ExampleFreed());
    KnownApart(ExampleFreed());
  }

  /** The view after freeing blocks of 2040, 1024 and 1800 bytes, in this order. */
  ghost function ExampleView(): View {
    PutLeaf(PutLeaf(PutLeaf(InitView(), 2040, Pos(10, 1), ROOT), 1024, Pos(10, 2), LEFT), 1800, Pos(10, 3), RIGHT)
  }

  lemma ExampleBits()
    ensures HighBit(2040) == 10 && HighBit(1024) == 10 && HighBit(1800) == 10 && HighBit(600) == 9
  {
    assert Pow2(9) == 512 && Pow2(10) == 1024 && Pow2(11) == 2048;
    hide Pow2; hide HighBit;
    HighBitIs(2040, 10);
    HighBitIs(1024, 10);
    HighBitIs(1800, 10);
    HighBitIs(600, 9);
  }

  lemma ExamplePrefixes()
    ensures Prefix(1, 2040) && Prefix(2, 1024) && Prefix(3, 1800) && Prefix(1, 2)
  {
    RootPrefix(2040);
    RootPrefix(2);
    assert Prefix(2, 64);
    assert Prefix(3, 112);
  }

  function InitHeads(n: nat): (r: Words)
    ensures RestHead in r && r[RestHead] == RestHead && forall i :: 0 <= i < n ==> SmallHead(i) in r && r[SmallHead(i)] == SmallHead(i)
  {
    if n == 0 then map[RestHead := RestHead] else InitHeads(n - 1)[SmallHead(n - 1) := SmallHead(n - 1)]
  }

  function InitRoots(n: nat): (r: map<Slot, Ptr>)
    ensures forall i :: 0 <= i < n ==> Bucket(i) in r && r[Bucket(i)] == Null
  {
    if n == 0 then map[] else InitRoots(n - 1)[Bucket(n - 1) := Null]
  }

  lemma SizesAre()
    ensures var size := ExampleHeap().size;
      && ROOT in size && size[ROOT].n == 2040 && LEFT in size && size[LEFT].n == 1024 && RIGHT in size && size[RIGHT].n == 1800
  {
    hide ExampleFreed; hide Built; hide Neat; hide Room; hide ExampleView;
    ExampleFreedIs();
  }

  /** The example is a heap, and there are words of the free lists that mean its view. */
  lemma ExampleIsReal() returns (next: Words, prev: Words, parent: map<Addr, Parent>, cell: map<Slot, Ptr>, largeBitmap: nat)
    ensures ViewOk(next, prev, parent, cell, 0, largeBitmap, ExampleView(), ExampleHeap().size)
    ensures HeapOk(ExampleHeap(), {}) && ExampleHeap().owner == ExampleView().owner
    ensures HeadersApart(ExampleHeap().size, ExampleHeap().prev, ExampleHeap().data)
  {
    hide ExampleView; hide ExampleHeap; hide HeapOk; hide ViewOk;
    next, prev, parent, cell, largeBitmap := ExampleWords();
    ExampleHeapOk();
  }

  lemma ExampleWords() returns (next: Words, prev: Words, parent: map<Addr, Parent>, cell: map<Slot, Ptr>, largeBitmap: nat)
    ensures ViewOk(next, prev, parent, cell, 0, largeBitmap, ExampleView(), ExampleHeap().size)
  {
    hide ViewOk; hide HighBit; hide Prefix; hide SetBit; hide InitRings; hide ExampleHeap; hide MayWrite;
    hide InitHeads; hide InitRoots;
    ExampleBits();
    ExamplePrefixes();
    SizesAre();
    var size := ExampleHeap().size;
    var heads, roots := InitHeads(NUM_BUCKETS), InitRoots(NUM_BUCKETS);
    InitOk(heads, heads, map[], roots, size);
    InitRingKeys();
    var v0 := InitView();
    var v1 := PutLeaf(v0, 2040, Pos(10, 1), ROOT);
    var v2 := PutLeaf(v1, 1024, Pos(10, 2), LEFT);
    AddLeafStep(heads, heads, map[], roots, 0, 0, v0, size, ROOT, Pos(10, 1));
    var e0, e1, e2 := Block(ROOT), Block(LEFT), Block(RIGHT);
    var n1, par1, c1 := heads[e0 := e0], map[ROOT := At(Bucket(10))], roots[Child(ROOT, 0) := Null][Child(ROOT, 1) := Null][Bucket(10) := e0];
    largeBitmap := SetBit(0, 10);
    AddLeafStep(n1, n1, par1, c1, 0, largeBitmap, v1, size, LEFT, Pos(10, 2));
    var n2, par2, c2 := n1[e1 := e1], par1[LEFT := At(Child(ROOT, 0))], c1[Child(LEFT, 0) := Null][Child(LEFT, 1) := Null][Child(ROOT, 0) := e1];
    AddLeafStep(n2, n2, par2, c2, 0, largeBitmap, v2, size, RIGHT, Pos(10, 3));
    next, prev := n2[e2 := e2], n2[e2 := e2];
    parent := par2[RIGHT := At(Child(ROOT, 1))];
    cell := c2[Child(RIGHT, 0) := Null][Child(RIGHT, 1) := Null][Child(ROOT, 1) := e2];
  }

  lemma InitRingKeys()
    ensures forall n: nat :: LargeRing(n) !in InitView().rings
    ensures forall a: Addr :: Block(a) !in InitView().owner
    ensures InitView().at == map[]
  {
  }

  /** A request for 600 bytes is not given the best fit, the block of 1024. */
  lemma SearchCanMissTheBestFit()
    ensures LeastFit(ExampleView(), 600, 1024)
    ensures !FindsLeast(ExampleView(), ExampleHeap().size, 600)
  {
    hide InitView; hide HighBit; hide Prefix; hide ExampleHeap;
    ExampleBits();
    ExamplePrefixes();
    InitRingKeys();
    SizesAre();
    var v, size := ExampleView(), ExampleHeap().size;
    RootPrefix(600);
    assert Pos(9, 1) !in v.at;
    assert FirstBucket(v, 9, 10);
    assert Below(v, Pos(10, 1), Pos(10, 2)) && SizeOf(v, size, Pos(10, 2)) == 1024 && SizeOf(v, size, Pos(10, 1)) == 2040;
    assert !LeastBelow(v, size, Pos(10, 1));
  }
}
