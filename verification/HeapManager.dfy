/** The heap manager: zend_alloc.c:907-969, 1047-1083, 1700-1742, 1873-2352, 2592-2622. */
module HeapManager {
  import opened Bits
  import opened Sequences
  import opened Sizes
  import opened Tags
  import opened Rings
  import opened Memory
  import opened FreeListSpec
  import opened FreeListSteps
  import opened LargeSearch
  import opened FreeBlocks
  import opened Tiling
  import opened HeapSpec
  import opened HeapSteps

  /** What storage may answer when asked for `n` bytes: NULL or a new segment. */
  ghost predicate StorageGives(segs: seq<Segment>, base: Addr, n: nat) {
    base == 0 || (NewSegment(segs, Segment(base, n)) && SegmentTotal(segs) + n < WORD)
  }

  type BlockSize = n: nat | n >= MIN_BLOCK witness MIN_BLOCK

  /** An empty block cache. */
  function NoBlocks(): (r: seq<Ptr>)
    ensures |r| == NUM_BUCKETS && forall i :: 0 <= i < NUM_BUCKETS ==> r[i] == Null
  {
    seq(NUM_BUCKETS, _ => Null)
  }

  class ZendHeap {
    var segments: seq<Segment>
    // the header words of blocks, by address
    var size: map<Addr, Tag>
    var prev: map<Addr, Tag>
    const lists: FreeLists
    var cache: seq<Ptr>
    var cached: nat
    var realSize: nat
    var realPeak: nat
    var limit: nat
    var used: nat       // heap->size
    var peak: nat
    var reserve: Addr   // the data pointer of the reserve, 0 for none
    const blockSize: BlockSize
    const reserveSize: nat
    ghost var books: Books

    ghost function Here(): Heap
      reads this, lists
    {
      Heap(segments, books.home, size, prev, lists.view.owner, books.live, lists.data, books.lost)
    }

    ghost function Now(): Past
      reads this`segments, this`books, this`size, this`prev, this`cache, this`cached, this`realPeak, this`used, this`peak, lists
    {
      Past(segments, books.home, size, prev, cache, cached, realPeak, used, peak, lists.restCount, lists.freeBitmap, lists.view)
    }

    ghost predicate Base()
      reads this, lists
    {
      && lists.Valid(size) && lists.restCount <= MAX_REST_BLOCKS
      && realSize == SegmentTotal(segments) && ValidSegmentBlock(blockSize)
      && HeadersApart(size, prev, lists.data)
    }

    /** Between the steps of an operation that has the blocks `hand` in work. */
    ghost predicate Core(hand: set<Addr>)
      reads this, lists
    {
      HeapOk(Here(), hand) && Base()
    }

    /** Block `b`, in hand, seen as a block of `n` bytes of some kind. */
    ghost predicate InHand(b: Addr, n: nat, kind: Kind)
      reads this, lists
    {
      && HeapOk(Tagged(Here(), b, Tag(n, kind)), {b}) && b in books.home && Block(b) !in lists.view.owner && Base() && books.lost == {}
      && (kind == Used ==> n > 0 && b + n in size && size[b + n].kind != Free)
    }

    ghost predicate CacheOk()
      reads this, lists
    {
      && |cache| == NUM_BUCKETS && lists.view.heads == cache
      && cached == CacheTotal(lists.view.rings, NUM_BUCKETS) && cached < CACHE_SIZE + MAX_SMALL
    }

    /** Between operations, whatever the reserve is. */
    ghost predicate Counted()
      reads this, lists
    {
      Core({}) && CacheOk() && Counters()
    }

    /** What the counters count. */
    ghost predicate Counters()
      reads this
    {
      used == LiveTotal(books.live) + cached + books.flushed && used <= peak && realSize <= realPeak
    }

    /** The small bitmap shows all buckets right. */
    ghost predicate Exact()
      reads lists
    {
      BitsExact(lists.freeBitmap, lists.view.rings)
    }

    /** And every free block is in a list. */
    ghost predicate Sound()
      reads this, lists
    {
      Counted() && books.lost == {}
    }

    /** Between calls: everything but that the way back to a block is exact. */
    ghost predicate Intact()
      reads this, lists
    {
      Sound() && (reserve == 0 || reserve - HEADER in books.live)
    }

    /** All segments are below 2 GiB. */
    ghost predicate Near()
      reads this`segments
    {
      NearSegments(segments)
    }

    /** The invariant of the heap. */
    ghost predicate Valid()
      reads this, lists
    {
      Intact() && Near()
    }

    constructor (blockSize: BlockSize, reserveSize: nat)
      requires ValidSegmentBlock(blockSize)
      ensures this.blockSize == blockSize && this.reserveSize == reserveSize
      ensures fresh(lists)
      ensures Valid() && books == Books(map[], map[], 0, {}) && reserve == 0 && realSize == 0 && used == peak == realPeak == 0
      ensures segments == [] && cache == NoBlocks() && limit == 0x4000_0000_0000_0000
      ensures ServesWhole() && Exact()
    {
      hide FreeLists.Valid; hide HeapOk; hide BitsExact; hide FreeAddrs; hide CachedAddrs; hide NoFit; hide ServesWhole; hide WholeIsFree;
      hide CacheTotal; hide LiveTotal; hide SegmentTotal; hide ValidSegmentBlock; hide InitView;
      segments, size, prev := [], map[], map[];
      lists := new FreeLists();
      cache := NoBlocks();
      cached, realSize, realPeak, limit, used, peak, reserve := 0, 0, 0, 0x4000_0000_0000_0000, 0, 0, 0;
      this.blockSize, this.reserveSize := blockSize, reserveSize;
      books := Books(map[], map[], 0, {});
      new;
      EmptyHeapOk(lists.view.owner, map[], map[], lists.data);
      EmptyCache();
      NoLiveTotal();
      OneSegment([]);
      WholeServes();
    }

    // ---- steps ----

    lemma NearIn(hand: set<Addr>, b: Addr)
      requires HeapOk(Here(), hand) && Near()
      ensures NearHome(books.home, b)
    {
      HomeNear(Here(), hand, b);
    }

    /** ZEND_MM_BLOCK: two header words, and nothing else in memory. */
    method SetBlock(b: Addr, kind: Kind, n: nat)
      requires Base() && Block(b) !in lists.view.owner
      modifies this`size, this`prev, lists`data
      ensures Base() && Here() == Tagged(old(Here()), b, Tag(n, kind)).(data := lists.data)
      ensures ButHeaders(old(lists.data), lists.data, b, b + n)
    {
      hide FreeLists.Valid; hide SameSizes; hide NotHeaders;
      var t := Tag(n, kind);
      HeadersStored(size, prev, lists.data, b, b + n, t, t);
      TaggedSame(lists.view.owner, size, b, t);
      lists.ValidFrame(size, size[b := t]);
      size := size[b := t];
      prev := prev[b + n := t];
      lists.Cover(size, prev, size);
    }

    /** ZEND_MM_CHECK_BLOCK_LINKAGE never fails on a block of the layout. */
    method CheckLinkage(b: Addr, ghost hand: set<Addr>)
      requires HeapOk(Here(), hand) && NearHome(books.home, b)
      requires b in books.home && b in size && size[b].kind != Guard
    {
      hide HeapOk; hide HeadersApart;
      LinkageOk(Here(), hand, b);
      if size[b] != prev[b + size[b].n] || (prev[b] != FIRST && size[b - IntCast(prev[b].n)] != prev[b]) {
        assert false; // zend_mm_panic
      }
    }

    /** A free block leaves its list. */
    method TakeFree(b: Addr, ghost hand: set<Addr>)
      requires Core(hand) && lists.IsFree(b)
      modifies lists
      ensures Core(hand + {b}) && Block(b) !in lists.view.owner && SameCache(old(lists.view), lists.view)
      ensures FreeBlock(books.home, size, b)
      ensures OthersKept(old(Here()), b, lists.data)
      ensures Absorbed(size, true, b, size[b].n, old(lists.freeBitmap), old(lists.view), lists.freeBitmap, lists.view)
    {
      hide HeapOk; hide HeadersApart; hide FreeLists.Valid; hide Untouched;
      hide OthersKept; hide SameCache; hide RestWithout; hide TookBits; hide TakenOut;
      ghost var h, s := Here(), lists.Stored();
      ListedFree(h, hand, b);
      lists.RemoveFromFreeList(size, b);
      StoresKeep(h, hand, b, s, lists.Stored(), size);
      NoMoreBytes(s, lists.Stored(), h.owner, size, b);
      HeadersApartLess(size, prev, s.data, lists.data);
      TakeFreeOk(h, hand, b, lists.view.owner, lists.data);
      assert Here() == h.(owner := lists.view.owner, data := lists.data);
    }

    ghost predicate ListedAs(b: Addr, k: Key)
      reads lists
    {
      Block(b) in lists.view.owner && lists.view.owner[Block(b)] == k
    }

    /** Block `c` is free, of `n` bytes, and in the list of its size. */
    ghost predicate ListedWhole(c: Addr, n: int)
      reads this`books, this`size, lists
    {
      n >= MIN_BLOCK && FreeBlock(books.home, size, c) && size[c].n == n && ListedAs(c, ListKey(n))
    }

    ghost predicate WasEmpty(v: View, i: nat) {
      SmallRing(i) in v.rings && |v.rings[SmallRing(i)]| == 1
    }

    /** A free block in hand goes to the free lists, or to the rest list. */
    method GiveFree(b: Addr, rest: bool, ghost hand: set<Addr>)
      requires Core(hand) && b in hand && Block(b) !in lists.view.owner
      requires FreeBlock(books.home, size, b) && ValidBlockSize(size[b].n) && size[b].n < WORD
      requires rest ==> LastFree(size, b)
      modifies lists
      ensures KeptBits(old(lists.freeBitmap), old(lists.view).rings, lists.freeBitmap, lists.view.rings)
      ensures Core(hand - {b}) && SameCache(old(lists.view), lists.view)
      ensures ListedAs(b, RestOrList(rest, size[b].n))
      ensures OthersKept(old(Here()), b, lists.data)
      ensures var i := BucketIndex(size[b].n); !rest && SmallSize(size[b].n) && i >= 0 && WasEmpty(old(lists.view), i) ==>
        Bit(lists.freeBitmap, i)
      ensures Entered(rest, old(lists.restCount), b, size[b].n, old(lists.freeBitmap), old(lists.view), lists.freeBitmap, lists.view)
    {
      hide HeapOk; hide HeadersApart; hide FreeLists.Valid; hide Untouched; hide OthersKept;
      hide SameCache; hide SameRest; hide Bit; hide FreeAddrs; hide CachedAddrs; hide KeptBits; hide LastFree;
      hide PutIn; hide PutInRest;
      ghost var h, s := Here(), lists.Stored();
      if rest {
        ghost var _ := lists.AddToRestList(size, b);
      } else {
        lists.AddToFreeList(size, b);
        AddrsAdd(h.owner, b, ListKey(size[b].n));
      }
      StoresKeep(h, hand, b, s, lists.Stored(), size);
      NoMoreBytes(s, lists.Stored(), h.owner, size, b);
      HeadersApartLess(size, prev, s.data, lists.data);
      GiveFreeOk(h, hand, b, lists.view.owner, lists.data);
      assert Here() == h.(owner := lists.view.owner, data := lists.data);
    }

    /** The end of allocation and of growing in place: a used block of at least `trueSize`
        bytes, and a free block when the rest is large enough for one. */
    method Carve(b: Addr, n: nat, trueSize: nat, rest: bool, ghost kind: Kind) returns (got: nat)
      requires InHand(b, n, kind) && kind != Guard && ValidBlockSize(trueSize) && trueSize <= n
      requires rest ==> b + n in size && size[b + n].kind == Guard
      modifies this`size, this`prev, this`books, lists
      ensures Core({b}) && UsedBlock(books.home, size, b) && size[b].n == got
      ensures trueSize <= got < trueSize + MIN_BLOCK
      ensures SameCache(old(lists.view), lists.view) && books == old(books).(home := books.home)
      ensures SameBytes(old(lists.data), lists.data, b + HEADER, b + got)
      ensures n >= trueSize + MIN_BLOCK ==>
        got == trueSize && ListedAs(b + got, RestOrList(rest, n - got)) && FreeBlock(books.home, size, b + got)
      ensures b + n in old(size) ==> b + n in size && size[b + n] == old(size)[b + n]
      ensures b in old(prev) ==> b in prev && prev[b] == old(prev)[b]
      ensures got < n ==> b + got in size && size[b + got] == Tag(n - got, Free)
      ensures got == if n >= trueSize + MIN_BLOCK then trueSize else n
      ensures LeftOver(b, n, trueSize, rest, old(lists.restCount), old(lists.freeBitmap), old(lists.view), lists.freeBitmap, lists.view)
    {
      hide HeapOk; hide HeadersApart; hide FreeLists.Valid; hide SameCache; hide Entered;
      if n - trueSize < MIN_BLOCK {
        CarveWhole(b, n, kind);
        SameCacheRefl(lists.view);
        return n;
      } else {
        CarveCut(b, n, trueSize, rest, kind);
        return trueSize;
      }
    }

    method CarveWhole(b: Addr, n: nat, ghost kind: Kind)
      requires InHand(b, n, kind) && kind != Guard
      modifies this`size, this`prev, lists`data
      ensures Core({b}) && UsedBlock(books.home, size, b) && size[b].n == n
      ensures SameBytes(old(lists.data), lists.data, b + HEADER, b + n)
      ensures b + n in old(size) ==> b + n in size && size[b + n] == old(size)[b + n]
      ensures b in old(prev) ==> b in prev && prev[b] == old(prev)[b]
    {
      hide HeapOk; hide HeadersApart; hide FreeLists.Valid; hide Tagged; hide ButHeaders; hide SameBytes;
      ghost var h := Here();
      ghost var h0 := Tagged(h, b, Tag(n, kind));
      TaggedAt(h, b, Tag(n, kind));
      SizeInHand(h0, b);
      UseWholeOk(h0, b);
      ghost var h' := Tagged(h0, b, Tag(n, Used));
      TaggedTwice(h, b, n, kind);
      SetBlock(b, Used, n);
      assert Here() == h'.(data := lists.data);
      BehindUsed(h', {b}, b);
      HeadersKeep(h', {b}, b, b + n, lists.data);
      WholeBytes(h.data, lists.data, b, n);
    }

    method CarveCut(b: Addr, n: nat, trueSize: nat, rest: bool, ghost kind: Kind)
      requires InHand(b, n, kind) && kind != Guard && ValidBlockSize(trueSize) && trueSize + MIN_BLOCK <= n
      requires rest ==> b + n in size && size[b + n].kind == Guard
      modifies this`size, this`prev, this`books, lists
      ensures Core({b}) && UsedBlock(books.home, size, b) && size[b].n == trueSize
      ensures SameCache(old(lists.view), lists.view) && books == old(books).(home := books.home)
      ensures SameBytes(old(lists.data), lists.data, b + HEADER, b + trueSize)
      ensures ListedAs(b + trueSize, RestOrList(rest, n - trueSize))
      ensures FreeBlock(books.home, size, b + trueSize) && size[b + trueSize].n == n - trueSize
      ensures b + n in old(size) ==> b + n in size && size[b + n] == old(size)[b + n]
      ensures b in old(prev) ==> b in prev && prev[b] == old(prev)[b]
      ensures Entered(rest, old(lists.restCount), b + trueSize, n - trueSize, old(lists.freeBitmap), old(lists.view), lists.freeBitmap, lists.view)
    {
      hide HeapOk; hide HeadersApart; hide FreeLists.Valid; hide SameCache; hide ValidBlockSize; hide CacheTotal; hide LiveTotal;
      hide SegmentTotal; hide ValidSegmentBlock; hide Cut; hide OthersKept; hide Entered;
      ghost var data0 := lists.data;
      CutBlock(b, n, trueSize, kind);
      var mid := b + trueSize;
      ghost var h := Here();
      GiveFree(mid, rest, {b, mid});
      assert {b, mid} - {mid} == {b};
      KeptAt(h, mid, lists.data, b);
    }

    /** The two headers of a cut. */
    method CutBlock(b: Addr, n: nat, trueSize: nat, ghost kind: Kind)
      requires trueSize + MIN_BLOCK <= n && kind != Guard && ValidBlockSize(trueSize)
      requires InHand(b, n, kind)
      modifies this`size, this`prev, this`books, lists`data
      ensures UsedBlock(books.home, size, b) && size[b].n == trueSize
      ensures FreeBlock(books.home, size, b + trueSize) && size[b + trueSize].n == n - trueSize
      ensures ValidBlockSize(n - trueSize) && n - trueSize < WORD
      ensures Core({b, b + trueSize}) && Block(b) !in lists.view.owner && Block(b + trueSize) !in lists.view.owner
      ensures books == old(books).(home := books.home)
      ensures SameBytes(old(lists.data), lists.data, b + HEADER, b + trueSize)
      ensures b + n in old(size) ==> b + n in size && size[b + n] == old(size)[b + n]
      ensures b in old(prev) ==> b in prev && prev[b] == old(prev)[b]
    {
      hide HeapOk; hide HeadersApart; hide FreeLists.Valid; hide ValidBlockSize; hide CacheTotal; hide LiveTotal;
      hide SegmentTotal; hide ValidSegmentBlock; hide Cut; hide ButHeaders;
      hide SameBytes; hide FreeBlock; hide UsedBlock; hide Tagged;
      ghost var h := Here();
      ghost var h0 := Tagged(h, b, Tag(n, kind));
      var mid := b + trueSize;
      TaggedAt(h, b, Tag(n, kind));
      CutOk(h0, b, trueSize);
      CutHome(h0, b, trueSize);
      SetBlock(b, Used, trueSize);
      ghost var data1 := lists.data;
      SetBlock(mid, Free, n - trueSize);
      books := books.(home := books.home[mid := books.home[b]]);
      CutIsStored(h, b, n, trueSize, kind, data1, lists.data);
      MinimalBlock(trueSize);
      CutTags(h, b, n, trueSize, kind);
      ghost var h' := Cut(h0, b, trueSize);
      assert Here() == h'.(data := lists.data);
      CutKeep(h', b, mid, b + n, data1, lists.data);
    }

    /** The block behind a run joins it when it is free. */
    method AbsorbNext(lo: Addr, n: nat, ghost hand: set<Addr>) returns (n': nat, ghost hand': set<Addr>)
      requires Core(hand) && Run(Here(), hand, lo, n)
      modifies lists
      ensures Core(hand') && Run(Here(), hand', lo, n') && size[lo + n'].kind != Free
      ensures SameCache(old(lists.view), lists.view) && hand <= hand'
      ensures forall x :: x in hand' && x !in hand ==> x in size && size[x].kind == Free
      ensures n' == if size[lo + n].kind == Free then n + size[lo + n].n else n
      ensures Absorbed(size, size[lo + n].kind == Free, lo + n, size[lo + n].n, old(lists.freeBitmap), old(lists.view), lists.freeBitmap, lists.view)
    {
      hide HeapOk; hide HeadersApart; hide Base; hide SameCache; hide TookBits; hide TakenOut;
      SameCacheRefl(lists.view);
      n', hand' := n, hand;
      var next := lo + n;
      if size[next].kind == Free {
        RunNext(Here(), hand, lo, n);
        TakeFree(next, hand);
        n', hand' := n + size[next].n, hand + {next};
      }
    }

    /** The block before a run joins it when it is free. */
    method AbsorbPrev(lo: Addr, n: nat, ghost hand: set<Addr>) returns (lo': Addr, n': nat, ghost hand': set<Addr>)
      requires Core(hand) && Run(Here(), hand, lo, n) && NearHome(books.home, lo)
      modifies lists
      ensures Core(hand') && Run(Here(), hand', lo', n') && prev[lo'].kind != Free && lo' + n' == lo + n
      ensures SameCache(old(lists.view), lists.view) && hand <= hand'
      ensures forall x :: x in hand' && x !in hand ==> x in size && size[x].kind == Free
      ensures prev[lo].kind == Free ==> lo' == lo - prev[lo].n && !InRest(old(lists.view).owner, lo')
      ensures lo' == lo - RoomBefore(prev, lo)
      ensures Absorbed(size, prev[lo].kind == Free, lo - prev[lo].n, prev[lo].n, old(lists.freeBitmap), old(lists.view), lists.freeBitmap, lists.view)
    {
      hide HeapOk; hide HeadersApart; hide Base; hide SameCache; hide TookBits; hide TakenOut;
      SameCacheRefl(lists.view);
      lo', n', hand' := lo, n, hand;
      if prev[lo].kind == Free {
        RunPrev(Here(), hand, lo, n);
        RestNotBefore(Here(), hand, lo, n);
        lo' := lo - IntCast(prev[lo].n);
        TakeFree(lo', hand);
        n', hand' := n + size[lo'].n, hand + {lo'};
      }
    }

    /** A run becomes one free block. */
    method Merge(lo: Addr, n: nat, ghost hand: set<Addr>)
      requires Core(hand) && Run(Here(), hand, lo, n) && prev[lo].kind != Free && size[lo + n].kind != Free
      modifies this`size, this`prev, this`books, lists`data
      ensures Core({lo}) && Run(Here(), {lo}, lo, n) && FreeBlock(books.home, size, lo) && size[lo].n == n
      ensures ValidBlockSize(n) && n < WORD && Block(lo) !in lists.view.owner
      ensures books == old(books).(home := books.home) && prev[lo] == old(prev)[lo] && size[lo + n] == old(size)[lo + n]
      ensures size == old(size)[lo := Tag(n, Free)] && books.home == Without(old(books).home, lo, lo + n)
      ensures books.home[lo] == old(books).home[lo] && Shrunk(old(books).home, books.home)
    {
      hide HeapOk; hide HeadersApart; hide FreeLists.Valid; hide ValidBlockSize; hide Without; hide Shrunk;
      ghost var h := Here();
      ShrunkSteps(books.home, lo, lo + n, books.home[lo]);
      MergeOk(h, hand, lo, lo + n, Free);
      WithoutSpec(h.home, lo, lo + n);
      SetBlock(lo, Free, n);
      books := books.(home := Without(books.home, lo, lo + n));
      ghost var h' := Merged(h, lo, lo + n, Free);
      assert Here() == h'.(data := lists.data);
      HeadersKeep(h', {lo}, lo, lo + n, lists.data);
    }

    /** zend_mm_del_segment, for a run that fills its segment. */
    method DelSegment(lo: Addr, n: nat, ghost hand: set<Addr>)
      requires Core(hand) && Run(Here(), hand, lo, n) && prev[lo] == FIRST && size[lo + n].kind == Guard
      modifies this`segments, this`realSize, this`books
      ensures Core({}) && books == old(books).(home := books.home)
      ensures realSize <= old(realSize)
      ensures segments == Only(old(segments), {old(books).home[lo]}, {})
      ensures Shrunk(old(books).home, books.home) && books.home == DropSegment(old(books).home, old(books).home[lo])
    {
      hide HeapOk; hide HeadersApart; hide FreeLists.Valid; hide SegmentTotal; hide Shrunk;
      ghost var h := Here();
      ShrunkSteps(books.home, lo, lo, books.home[lo]);
      ghost var s := books.home[lo];
      var j := IndexOfHome(lo, hand);
      SegmentTotalRemove(segments, j);
      UnlinkedOk(h, hand, j);
      RemovedIs(j, hand);
      DropOk(h, hand, Remove(segments, j), lo, lo + n);
      realSize := realSize - segments[j].size;
      segments := Remove(segments, j);
      books := books.(home := DropSegment(books.home, s));
      assert Here() == Dropped(h, segments, s);
    }

    lemma RemovedIs(j: nat, hand: set<Addr>)
      requires j < |segments| && HeapOk(Here(), hand)
      ensures Remove(segments, j) == Only(segments, {segments[j]}, {})
    {
      hide HeapOk; hide Only;
      forall i | 0 <= i < |segments| && i != j
        ensures segments[i] != segments[j]
      {
        if segments[i] == segments[j] {
          SegmentAt(Here(), hand, i, j);
        }
      }
      OnlyRemoved(segments, j);
    }

    /** The walk of zend_mm_del_segment to the segment before block `lo`. */
    method IndexOfHome(lo: Addr, ghost hand: set<Addr>) returns (j: nat)
      requires Core(hand) && lo in books.home && lo in prev && prev[lo] == FIRST
      ensures j < |segments| && segments[j] == books.home[lo] && segments[j].base == lo - SEGMENT_HEADER
    {
      hide HeapOk; hide HeadersApart; hide FreeLists.Valid; hide SegmentTotal;
      ghost var i := HomeIndex(Here(), hand, lo);
      j := 0;
      while segments[j].base != lo - SEGMENT_HEADER
        invariant 0 <= j <= i
        decreases i - j
      {
        j := j + 1;
      }
      SegmentAt(Here(), hand, i, j);
    }

    // ---- the block cache ----

    /** A cached block leaves the head of chain `i`. */
    method TakeCached(i: nat, b: Addr) returns (q: Ptr)
      requires Core({}) && i < NUM_BUCKETS && lists.view.heads[i] == Block(b)
      modifies lists`view
      ensures Core({b}) && UsedBlock(books.home, size, b) && size[b].n == ClassSize(i)
      ensures CacheChain(i) in old(lists.view).rings && |old(lists.view).rings[CacheChain(i)]| > 0
      ensures i < |old(lists.view).heads| && Block(b) in old(lists.view).owner && old(lists.view).owner[Block(b)] == CacheChain(i)
      ensures lists.view == FreeListSteps.TakeCached(old(lists.view), i, b, q)
      ensures b in Here().home && Block(b) !in lists.view.owner && b !in books.live
    {
      hide HeapOk; hide HeadersApart; hide FreeLists.Valid;
      ghost var h := Here();
      q := lists.PopCached(size, i, b);
      TakeCachedOk(h, {}, b, lists.view.owner);
      assert Here() == h.(owner := lists.view.owner);
      assert {} + {b} == {b};
    }

    /** A used block in hand goes to the head of chain `i`; the link is stored in its room. */
    method GiveCached(i: nat, b: Addr)
      requires Core({b}) && UsedBlock(books.home, size, b) && i < NUM_BUCKETS && size[b].n == ClassSize(i)
      requires |cache| == NUM_BUCKETS && cache[i] == lists.view.heads[i]
      modifies lists, this`cache
      ensures Core({}) && CacheChain(i) in old(lists.view).rings
      ensures lists.view == PutCached(old(lists.view), i, b) && lists.freeBitmap == old(lists.freeBitmap)
      ensures cache == old(cache)[i := Block(b)]
    {
      hide HeapOk; hide HeadersApart; hide FreeLists.Valid; hide Untouched;
      ghost var h, s := Here(), lists.Stored();
      NotOwnedInHand(h, {b}, b);
      lists.PushCached(size, i, b, cache[i]);
      GiveCachedOk(h, {b}, b, i, s, lists.Stored());
      NoMoreBytes(s, lists.Stored(), map[], map[], b);
      HeadersApartLess(size, prev, s.data, lists.data);
      cache := cache[i := Block(b)];
      assert Here() == h.(owner := lists.view.owner, data := lists.data);
      assert {b} - {b} == {};
    }

    /** A used block in hand becomes free space, joined with its free neighbours; its
        segment goes exactly when nothing else in it is in use. */
    method Settle(b: Addr)
      requires Core({b}) && UsedBlock(books.home, size, b) && NearHome(books.home, b)
      modifies this`size, this`prev, this`segments, this`realSize, this`books, lists
      ensures Core({}) && SameCache(old(lists.view), lists.view)
      ensures books == old(books).(home := books.home) && realSize <= old(realSize)
      ensures segments == if Alone(old(books).home, old(size), b) then Only(old(segments), {old(books).home[b]}, {}) else old(segments)
      ensures Shrunk(old(books).home, books.home) && Tidied(old(Now()), Now())
      ensures forall i: nat :: old(Shown(i)) ==> (Shown(i) <==> !old(HidesFlushed(b, i)))
      ensures FreedLists(old(size), old(prev), b, false, !Alone(old(books).home, old(size), b),
                         old(lists.freeBitmap), old(lists.view), lists.freeBitmap, lists.view)
      ensures Returned(b, old(Now()))
    {
      hide HeapOk; hide HeadersApart; hide FreeLists.Valid; hide SameCache; hide SegmentTotal; hide ValidSegmentBlock; hide Alone;
      hide Shows; hide HidesAfter; hide KeptBits; hide TookBoth; hide Entered; hide FreedLists; hide ServesUpTo; hide Tidied; hide UsedBut;
      hide HidesFlushed; hide Span; hide RoomBefore; hide Run;
      ghost var v0, bits0, size0, prev0 := lists.view, lists.freeBitmap, size, prev;
      LargerShown(b);
      var lo, n, hand := AbsorbFlushed(b);
      ghost var v2, bits2, count := lists.view, lists.freeBitmap, lists.restCount;
      SettleRun(b, lo, n, hand);
      FreedAs(size0, prev0, b, false, !Alone(old(books).home, size0, b), bits0, v0, bits2, v2, lists.freeBitmap, lists.view, count);
      if !Alone(old(books).home, size0, b) && old(Visible(FreedSize(b))) {
        ListedServes(lo, n);
      }
      TidyFreed(b, lo, n, false, old(Now()));
      SameCacheTrans(v0, v2, lists.view);
    }

    /** Its end: the header is written before the segment is looked at. */
    method SettleRun(ghost b: Addr, lo: Addr, n: nat, ghost hand: set<Addr>)
      requires Core(hand) && Run(Here(), hand, lo, n) && prev[lo].kind != Free && size[lo + n].kind != Free
      requires b in hand && UsedBlock(books.home, size, b) && forall x :: x in hand && x != b ==> x in size && size[x].kind == Free
      modifies this`size, this`prev, this`segments, this`realSize, this`books, lists
      ensures Core({}) && SameCache(old(lists.view), lists.view) && books == old(books).(home := books.home)
      ensures realSize <= old(realSize)
      ensures segments == if Alone(old(books).home, old(size), b) then Only(old(segments), {old(books).home[b]}, {}) else old(segments)
      ensures Shrunk(old(books).home, books.home) && UsedBut(old(books).home, old(size), books.home, size, b)
      ensures size == old(size) || (size == old(size)[lo := Tag(n, Free)] && !InRest(lists.view.owner, lo))
      ensures KeptBits(old(lists.freeBitmap), old(lists.view).rings, lists.freeBitmap, lists.view.rings)
      ensures if Alone(old(books).home, old(size), b) then lists.freeBitmap == old(lists.freeBitmap) && lists.view == old(lists.view)
              else (&& ListedWhole(lo, n)
                    && Entered(false, old(lists.restCount), lo, n, old(lists.freeBitmap), old(lists.view), lists.freeBitmap, lists.view))
    {
      hide HeapOk; hide HeadersApart; hide FreeLists.Valid; hide SegmentTotal; hide ValidSegmentBlock; hide SameCache; hide Alone;
      hide KeptBits; hide Entered; hide UsedBut; hide Without; hide DropSegment;
      RunAlone(Here(), hand, lo, n, b);
      SameHome(Here(), hand, lo, n);
      SameCacheRefl(lists.view);
      MergedGone(books.home, size, hand, b, lo, n);
      ghost var home0, size0 := books.home, size;
      Merge(lo, n, hand);
      ghost var home1 := books.home;
      if prev[lo] == FIRST && size[lo + size[lo].n].kind == Guard {
        KeptRefl(lists.freeBitmap, lists.view.rings);
        DelSegment(lo, n, {lo});
        DroppedToo(home0, size0, home1, size, b);
      } else {
        GiveFree(lo, false, {lo});
        assert {lo} - {lo} == {};
      }
    }

    lemma TidyFreed(b: Addr, lo: Addr, n: nat, behindFirst: bool, s: Past)
      requires UsedBlock(s.home, s.size, b) && Shrunk(s.home, books.home) && UsedBut(s.home, s.size, books.home, size, b)
      requires segments == if Alone(s.home, s.size, b) then Only(s.segs, {s.home[b]}, {}) else s.segs
      requires size == s.size || (size == s.size[lo := Tag(n, Free)] && !InRest(lists.view.owner, lo))
      requires FreedLists(s.size, s.prev, b, behindFirst, !Alone(s.home, s.size, b), s.bits, s.view, lists.freeBitmap, lists.view)
      requires b + s.size[b].n in s.size && b in s.prev && (s.prev[b].kind == Free ==> !InRest(s.view.owner, b - s.prev[b].n))
      ensures Tidied(s, Now())
    {
      hide FreedLists; hide Alone; hide Shows; hide RoomBefore; hide UsedBut;
      if NoSmallRest(s) {
        FreedShown(s.size, s.prev, b, behindFirst, !Alone(s.home, s.size, b), s.bits, s.view, lists.freeBitmap, lists.view);
      }
      FreedRest(s.size, s.prev, b, behindFirst, !Alone(s.home, s.size, b), s.bits, s.view, lists.freeBitmap, lists.view);
      TidiedRelease(s, Now(), b);
    }

    /** Segments only went. */
    ghost predicate Fewer(segs: seq<Segment>, segs': seq<Segment>) {
      forall s :: s in segs' ==> s in segs
    }

    /** The segments of 2 GiB or more stay. */
    ghost predicate SameFar(segs: seq<Segment>, segs': seq<Segment>) {
      forall s :: s in segs && s.size >= FAR ==> s in segs'
    }

    /** The free blocks before and behind a used block in hand leave their lists. */
    method AbsorbFlushed(b: Addr) returns (lo: Addr, n: nat, ghost hand: set<Addr>)
      requires Core({b}) && UsedBlock(books.home, size, b) && NearHome(books.home, b)
      modifies lists
      ensures Core(hand) && Run(Here(), hand, lo, n) && prev[lo].kind != Free && size[lo + n].kind != Free
      ensures SameCache(old(lists.view), lists.view) && b in hand
      ensures forall x :: x in hand && x != b ==> x in size && size[x].kind == Free
      ensures forall i: nat, bits, rings :: KeptBits(lists.freeBitmap, lists.view.rings, bits, rings) && old(Shown(i)) ==>
        (Shows(bits, rings, i) <==> !old(HidesFlushed(b, i)))
      ensures lo == b - RoomBefore(prev, b) && n == RoomBefore(prev, b) + Span(size, b)
      ensures TookBoth(size, prev, b, false, old(lists.freeBitmap), old(lists.view), lists.freeBitmap, lists.view)
    {
      hide HeapOk; hide HeadersApart; hide FreeLists.Valid; hide SegmentTotal; hide ValidSegmentBlock; hide SameCache; hide Shows;
      hide HidesAfter; hide Absorbed; hide KeptBits; hide TookBoth;
      lists.RestMembers(size);
      RunOne(Here(), b);
      ghost var v0, bits0 := lists.view, lists.freeBitmap;
      lo, n, hand := AbsorbPrev(b, size[b].n, {b});
      ghost var v1, bits1 := lists.view, lists.freeBitmap;
      n, hand := AbsorbNext(lo, n, hand);
      SameCacheTrans(v0, v1, lists.view);
      TakenBoth(size, prev, b, bits0, v0, bits1, v1, lists.freeBitmap, lists.view);
      FlushedShows(size, b, b + size[b].n, size[b + size[b].n], prev[b], bits0, v0, bits1, v1, lists.freeBitmap, lists.view);
    }

    /** The flush of block `b` hides bucket `i`. */
    ghost predicate HidesFlushed(b: Addr, i: nat)
      reads this`size, this`prev, lists
    {
      && b in size && b in prev && b + size[b].n in size
      && HidesAfter(lists.view.rings, lists.view.owner, size[b + size[b].n].kind == Free, b + size[b].n, size[b + size[b].n].n,
                    prev[b].kind == Free, b - prev[b].n, i)
    }

    /** One round of zend_mm_free_cache; the link to the next cached block is read before
        the block is merged. */
    method FlushBlock(i: nat, b: Addr) returns (q: Ptr)
      requires Core({}) && i < NUM_BUCKETS && lists.view.heads[i] == Block(b)
      requires Near()
      requires cached == CacheTotal(lists.view.rings, NUM_BUCKETS)
      modifies this`size, this`prev, this`segments, this`realSize, this`cached, this`books, lists
      ensures Core({}) && cached == CacheTotal(lists.view.rings, NUM_BUCKETS)
      ensures CacheChain(i) in old(lists.view).rings && |old(lists.view).rings[CacheChain(i)]| > 0
      ensures SameCache(FreeListSteps.TakeCached(old(lists.view), i, b, q), lists.view)
      ensures books.live == old(books).live && books.lost == old(books).lost && books.flushed + cached == old(books).flushed + old(cached)
      ensures realSize <= old(realSize) && cached <= old(cached)
      ensures Shrunk(old(books).home, books.home)
      ensures Fewer(old(segments), segments)
      ensures Tidied(old(Now()), Now())
    {
      hide HeapOk; hide HeadersApart; hide FreeLists.Valid; hide SameCache; hide Tidied; hide FreedLists;
      hide Returned; hide HidesFlushed; hide Alone; hide Shown; hide LiveTotal; hide Shrunk; hide BytesAt;
      hide CacheTotal; hide SegmentTotal; hide ValidSegmentBlock;
      ghost var v0 := lists.view;
      q := TakeCached(i, b);
      ghost var v1 := lists.view;
      TakenTotal(v0, i, b, q);
      lists.HasChains(size);
      var n := size[b].n;
      cached := cached - n;
      books := books.(flushed := books.flushed + n);
      HomeNear(Here(), {b}, b);
      ghost var past := Now();
      PoppedTidy(b, i, q, old(Now()));
      Settle(b);
      TidiedTrans(old(Now()), past, Now());
      SameCacheTotal(v1, lists.view);
    }

    lemma TakenTotal(v0: View, i: nat, b: Addr, q: Ptr)
      requires i < |v0.heads| && CacheChain(i) in v0.rings && |v0.rings[CacheChain(i)]| > 0 && i < NUM_BUCKETS
      ensures CacheTotal(FreeListSteps.TakeCached(v0, i, b, q).rings, NUM_BUCKETS) == CacheTotal(v0.rings, NUM_BUCKETS) - ClassSize(i)
    {
      CacheTotalUpdate(v0.rings, NUM_BUCKETS, i, v0.rings[CacheChain(i)][1..]);
      hide CacheTotal;
    }

    lemma PoppedTidy(b: Addr, i: nat, q: Ptr, s: Past)
      requires i < |s.view.heads| && s.view.heads[i] == Block(b) && CacheChain(i) in s.view.rings
      requires |s.view.rings[CacheChain(i)]| > 0 && lists.view == FreeListSteps.TakeCached(s.view, i, b, q)
      requires Block(b) in s.view.owner && s.view.owner[Block(b)] == CacheChain(i)
      requires s == Now().(view := s.view, cached := s.cached)
      ensures Tidied(s, Now())
    {
      assert UncachedAs(s.view, lists.view, b, ClassSize(i));
      TidiedCache(s, Now(), b, ClassSize(i));
      hide UncachedAs; hide Tidied;
    }

    /** The inner loop of zend_mm_free_cache. */
    method FlushChain(i: nat)
      requires Core({}) && CacheOk() && i < NUM_BUCKETS
      requires Near()
      modifies this`size, this`prev, this`segments, this`realSize, this`cache, this`cached, this`books, lists
      ensures Core({}) && CacheOk() && cache == old(cache)[i := Null]
      ensures books.live == old(books).live && books.lost == old(books).lost && books.flushed + cached == old(books).flushed + old(cached)
      ensures realSize <= old(realSize)
      ensures Shrunk(old(books).home, books.home)
      ensures Fewer(old(segments), segments)
      ensures Tidied(old(Now()), Now())
    {
      hide Tidied; hide UncachedAs;
      hide HeapOk; hide HeadersApart; hide FreeLists.Valid; hide CacheTotal; hide SegmentTotal; hide ValidSegmentBlock;
      var q := cache[i];
      lists.HeadIsBlock(size, i);
      StartsTidy();
      while q != Null
        invariant Core({}) && cache == old(cache) && lists.view.heads == cache[i := q]
        invariant cached == CacheTotal(lists.view.rings, NUM_BUCKETS)
        invariant books.live == old(books).live && books.lost == old(books).lost &&
          books.flushed + cached == old(books).flushed + old(cached)
        invariant realSize <= old(realSize) && cached <= old(cached) && Shrunk(old(books).home, books.home)
        invariant Near() && Fewer(old(segments), segments) && Tidied(old(Now()), Now())
        invariant CacheChain(i) in lists.view.rings && (q == Null || q.Block?)
        decreases |lists.view.rings[CacheChain(i)]|
      {
        ghost var past := Now();
        q := FlushBlock(i, q.addr);
        TidiedTrans(old(Now()), past, Now());
        lists.HeadIsBlock(size, i);
      }
      ghost var past := Now();
      cache := cache[i := Null];
      TidiedAs(old(Now()), old(Now()), Now(), past);
    }

    lemma StartsTidy()
      ensures Tidied(Now(), Now())
    {
      TidiedRefl(Now(), Now());
    }

    /** zend_mm_free_cache: every cached block becomes free space; `size` stays. */
    method FreeCache()
      requires Counted()
      requires Near()
      modifies this`size, this`prev, this`segments, this`realSize, this`cache, this`cached, this`books, lists
      ensures Counted() && cached == 0 && cache == NoBlocks() && CachedAddrs(lists.view.owner) == {}
      ensures books.live == old(books).live && books.lost == old(books).lost && books.flushed == old(books).flushed + old(cached)
      ensures realSize <= old(realSize)
      ensures Shrunk(old(books).home, books.home)
      ensures (forall j :: 0 <= j < NUM_BUCKETS ==> old(cache)[j] == Null) ==> segments == old(segments)
      ensures Fewer(old(segments), segments)
      ensures Tidied(old(Now()), Now())
    {
      hide Tidied; hide UncachedAs;
      hide HeapOk; hide HeadersApart; hide FreeLists.Valid; hide CacheTotal;
      hide SegmentTotal; hide ValidSegmentBlock; hide LiveTotal;
      StartsTidy();
      var i := 0;
      while i < NUM_BUCKETS
        invariant 0 <= i <= NUM_BUCKETS && Core({}) && CacheOk()
        invariant forall j :: 0 <= j < i ==> cache[j] == Null
        invariant books.live == old(books).live && books.lost == old(books).lost &&
          books.flushed + cached == old(books).flushed + old(cached)
        invariant realSize <= old(realSize) && Shrunk(old(books).home, books.home)
        invariant Near() && Fewer(old(segments), segments) && Tidied(old(Now()), Now())
        invariant (forall j :: 0 <= j < NUM_BUCKETS ==> old(cache)[j] == Null) ==> segments == old(segments) && cache == old(cache)
      {
        if cache[i] != Null {
          ghost var past := Now();
          FlushChain(i);
          TidiedTrans(old(Now()), past, Now());
        }
        i := i + 1;
      }
      forall j: nat | j < NUM_BUCKETS
        ensures CacheChain(j) in lists.view.rings && lists.view.rings[CacheChain(j)] == []
      {
        lists.HeadIsBlock(size, j);
      }
      NoCacheTotal(lists.view.rings, NUM_BUCKETS);
      lists.NoneCached(size);
    }

    // ---- release ----

    /** The free bytes that the release of block `b` leaves. */
    ghost function FreedSize(b: Addr): nat
      reads this`size, this`prev
    {
      RoomBefore(prev, b) + Span(size, b)
    }

    /** The bucket for `n` bytes, if there is one, is shown right. */
    ghost predicate Visible(n: nat)
      reads lists
    {
      SmallSize(n) ==> n >= MIN_BLOCK && Shown(BucketIndex(n))
    }

    /** Requests for blocks of up to `n` bytes find one. */
    ghost predicate ServesUpTo(n: nat)
      reads this`size, this`realSize, this`limit, lists
    {
      forall t: nat :: ValidBlockSize(t) && t <= n ==> HasFit(t)
    }

    /** Block `b` was released: the free space around it, which its segment keeps if anything
        else in it is in use, serves requests again. */
    ghost predicate Returned(b: Addr, s: Past)
      reads this`books, this`size, this`realSize, this`limit, lists
    {
      var n := RoomBefore(s.prev, b) + Span(s.size, b);
      Alone(s.home, s.size, b) ||
      (&& ListedWhole(b - RoomBefore(s.prev, b), n)
       && ((SmallSize(n) ==> n >= MIN_BLOCK && Shows(s.bits, s.view.rings, BucketIndex(n))) ==> ServesUpTo(n)))
    }

    lemma ListedServes(c: Addr, n: nat)
      requires Core({}) && ListedWhole(c, n) && Visible(n)
      ensures ServesUpTo(n)
    {
      hide HeapOk; hide HeadersApart; hide ViewOk; hide CountLarge; hide LinksApart; hide SegmentTotal; hide ValidSegmentBlock;
      hide Shr; hide Bit; hide ValidBlockSize; hide Shows;
      FreeSize(Here(), {}, c);
      SmallSizesAreClasses(n);
      if SmallSize(n) {
        lists.ListedIsShown(size, c, BucketIndex(n));
      }
      forall t: nat | ValidBlockSize(t) && t <= n
        ensures HasFit(t)
      {
        lists.FitsSomewhere(size, c, n, t);
      }
    }

    ghost method TakeLive(b: Addr, hand: set<Addr>)
      requires Core(hand) && b in books.live && BeforeNoLost(books.lost, prev, b)
      modifies this`books
      ensures Core(hand + {b}) && books == old(books).(live := old(books).live - {b})
      ensures UsedBlock(books.home, size, b) && size[b].n == old(books).live[b].room + HEADER
      ensures ValidBlockSize(size[b].n) && size[b].n < WORD && Block(b) !in lists.view.owner
      ensures LiveTotal(books.live) + size[b].n == LiveTotal(old(books).live)
      ensures BytesAt(lists.data, b + HEADER, old(books).live[b].body)
    {
      hide HeapOk; hide HeadersApart; hide FreeLists.Valid; hide LiveTotal; hide BytesAt; hide BeforeNoLost;
      TakeLiveOk(Here(), hand, b);
      LiveTotalRemove(books.live, b);
      books := books.(live := books.live - {b});
    }

    /** The release of block `b`, of `n0` bytes, in heap `mid`: small blocks stay in `size` and
        go to the cache while there is room in it. */
    ghost predicate FreedIn(b: Addr, n0: nat, mid: Past)
      reads this`segments, this`cache, this`cached, this`realPeak, this`used, this`peak, lists
    {
      && peak == mid.peak && realPeak == mid.realPeak
      && if SmallSize(n0) && mid.cached < CACHE_SIZE then
           && used == mid.used && cached == mid.cached + n0 && segments == mid.segs
           && lists.freeBitmap == mid.bits && CachedAs(mid.view, lists.view, b, n0)
         else
           && used == mid.used - n0 && cached == mid.cached && cache == mid.cache
           && FreedLists(mid.size, mid.prev, b, true, !Alone(mid.home, mid.size, b), mid.bits, mid.view, lists.freeBitmap, lists.view)
           && segments == if Alone(mid.home, mid.size, b) then Only(mid.segs, {mid.home[b]}, {}) else mid.segs
    }

    /** The release of `p` puts the block into the cache. */
    ghost predicate CachedSoon(p: Addr)
      reads this
    {
      p - HEADER in books.live && SmallSize(books.live[p - HEADER].room + HEADER) && cached < CACHE_SIZE
    }

    /** _zend_mm_free_int. */
    method FreeInt(p: Addr)
      requires Counted() && (p == 0 || (p - HEADER in books.live && BeforeNoLost(books.lost, prev, p - HEADER)))
      requires p != 0 && !CachedSoon(p) ==> NearHome(books.home, p - HEADER)
      modifies this`size, this`prev, this`segments, this`realSize, this`cache, this`cached, this`used, this`books, lists
      ensures Counted() && books.flushed == old(books).flushed && books.lost == old(books).lost
      ensures books.live == if p == 0 then old(books).live else old(books).live - {p - HEADER}
      ensures realSize <= old(realSize) && used <= old(used)
      ensures p != 0 ==> FreedIn(p - HEADER, old(books).live[p - HEADER].room + HEADER, old(Now()))
      ensures p != 0 && !(SmallSize(old(books).live[p - HEADER].room + HEADER) && old(cached) < CACHE_SIZE) ==>
        forall i: nat :: old(Shown(i)) ==> (Shown(i) <==> !old(HidesBehind(p - HEADER, i)))
      ensures Fewer(old(segments), segments)
      ensures SameFar(old(segments), segments)
      ensures p == 0 ==> unchanged(this) && unchanged(lists)
      ensures Tidied(old(Now()), Now())
      ensures p != 0 && !old(CachedSoon(p)) ==> Returned(p - HEADER, old(Now()))
    {
      hide HeapOk; hide HeadersApart; hide FreeLists.Valid; hide CacheTotal; hide SegmentTotal;
      hide ValidSegmentBlock; hide LiveTotal; hide BytesAt; hide BeforeNoLost; hide Shown; hide HidesBehind;
      hide FreedLists; hide Alone; hide Tidied; hide CachedAs; hide Returned; hide Only;
      StartsTidy();
      if p == 0 {
        return;
      }
      var b := p - HEADER;
      TakeLive(b, {});
      assert {} + {b} == {b};
      var n := size[b].n;
      if SmallSize(n) && cached < CACHE_SIZE {
        FreeToCache(b, n);
        TidiedCache(old(Now()), Now(), b, n);
        return;
      }
      used := used - n;
      ghost var past := Now();
      FreeToLists(b, n);
      ReturnedAs(b, past, old(Now()));
      TidiedAs(old(Now()), past, Now(), Now());
    }

    lemma ReturnedAs(b: Addr, s: Past, s': Past)
      requires Returned(b, s) && s'.home == s.home && s'.size == s.size && s'.prev == s.prev && s'.bits == s.bits && s'.view == s.view
      ensures Returned(b, s')
    {
      hide ListedWhole; hide ServesUpTo; hide Alone; hide Shows; hide Span;
    }

    method FreeToCache(b: Addr, n: nat)
      requires Core({b}) && CacheOk() && UsedBlock(books.home, size, b) && size[b].n == n
      requires ValidBlockSize(n) && SmallSize(n) && cached + n < CACHE_SIZE + MAX_SMALL
      modifies this`cache, this`cached, lists
      ensures Core({}) && CacheOk() && cached == old(cached) + n
      ensures CachedAs(old(lists.view), lists.view, b, n) && lists.freeBitmap == old(lists.freeBitmap)
    {
      hide HeapOk; hide HeadersApart; hide FreeLists.Valid; hide CacheTotal; hide SegmentTotal; hide ValidSegmentBlock;
      SmallSizesAreClasses(n);
      var index := BucketIndex(n);
      ghost var v := lists.view;
      GiveCached(index, b);
      CacheTotalUpdate(v.rings, NUM_BUCKETS, index, [Block(b)] + v.rings[CacheChain(index)]);
      cached := cached + n;
    }

    /** The small bitmap shows bucket `i` exactly when there is a block in it. */
    ghost predicate Shown(i: nat)
      reads lists
    {
      Shows(lists.freeBitmap, lists.view.rings, i)
    }

    /** The release of block `b` hides bucket `i`: the free block behind is alone in the rest
        ring, its own bucket holds one block, and that is not the free block before. */
    ghost predicate HidesBehind(b: Addr, i: nat)
      reads this`size, this`prev, lists
    {
      && b in size && b in prev && b + size[b].n in size
      && HidesBoth(lists.view.rings, lists.view.owner, size[b + size[b].n].kind == Free, b + size[b].n, size[b + size[b].n].n,
                   prev[b].kind == Free, b - prev[b].n, i)
    }

    /** A used block goes to the free lists, joined with its free neighbours, or its segment
        goes. Of the small bitmap's bits only those stop telling the truth that HidesBehind
        names. */
    method FreeToLists(b: Addr, n0: nat)
      requires Core({b}) && CacheOk() && UsedBlock(books.home, size, b) && size[b].n == n0 && NearHome(books.home, b)
      modifies this`size, this`prev, this`segments, this`realSize, this`books, lists
      ensures Core({}) && CacheOk() && books == old(books).(home := books.home)
      ensures realSize <= old(realSize)
      ensures segments == if Alone(old(books).home, old(size), b) then Only(old(segments), {old(books).home[b]}, {}) else old(segments)
      ensures Shrunk(old(books).home, books.home) && Tidied(old(Now()), Now())
      ensures forall i: nat :: old(Shown(i)) ==> (Shown(i) <==> !old(HidesBehind(b, i)))
      ensures FreedLists(old(size), old(prev), b, true, !Alone(old(books).home, old(size), b),
                         old(lists.freeBitmap), old(lists.view), lists.freeBitmap, lists.view)
      ensures Returned(b, old(Now()))
    {
      hide HeapOk; hide HeadersApart; hide FreeLists.Valid; hide CacheTotal; hide SegmentTotal;
      hide ValidSegmentBlock; hide SameCache; hide Alone; hide Shows; hide HidesBoth; hide KeptBits; hide TookBoth;
      hide Entered; hide FreedLists; hide Span; hide RoomBefore; hide ServesUpTo; hide Tidied; hide UsedBut; hide Run;
      ghost var v0, bits0, size0, prev0 := lists.view, lists.freeBitmap, size, prev;
      lists.HasChains(size);
      LargerShown(b);
      var lo, n, hand := AbsorbBoth(b, n0);
      ghost var v2, bits2, count := lists.view, lists.freeBitmap, lists.restCount;
      GiveRun(b, lo, n, hand);
      FreedAs(size0, prev0, b, true, !Alone(old(books).home, size0, b), bits0, v0, bits2, v2, lists.freeBitmap, lists.view, count);
      if !Alone(old(books).home, size0, b) && old(Visible(FreedSize(b))) {
        ListedServes(lo, n);
      }
      TidyFreed(b, lo, n, true, old(Now()));
      SameCacheTrans(v0, v2, lists.view);
      SameCacheTotal(v0, lists.view);
    }

    /** The end of a release: a run that fills its segment goes with it, and any other enters
        the free lists. */
    method GiveRun(ghost b: Addr, lo: Addr, n: nat, ghost hand: set<Addr>)
      requires Core(hand) && Run(Here(), hand, lo, n) && prev[lo].kind != Free && size[lo + n].kind != Free
      requires b in hand && UsedBlock(books.home, size, b) && forall x :: x in hand && x != b ==> x in size && size[x].kind == Free
      modifies this`size, this`prev, this`segments, this`realSize, this`books, lists
      ensures Core({}) && SameCache(old(lists.view), lists.view) && books == old(books).(home := books.home)
      ensures realSize <= old(realSize)
      ensures segments == if Alone(old(books).home, old(size), b) then Only(old(segments), {old(books).home[b]}, {}) else old(segments)
      ensures Shrunk(old(books).home, books.home) && UsedBut(old(books).home, old(size), books.home, size, b)
      ensures size == old(size) || (size == old(size)[lo := Tag(n, Free)] && !InRest(lists.view.owner, lo))
      ensures KeptBits(old(lists.freeBitmap), old(lists.view).rings, lists.freeBitmap, lists.view.rings)
      ensures if Alone(old(books).home, old(size), b) then lists.freeBitmap == old(lists.freeBitmap) && lists.view == old(lists.view)
              else (&& ListedWhole(lo, n)
                    && Entered(false, old(lists.restCount), lo, n, old(lists.freeBitmap), old(lists.view), lists.freeBitmap, lists.view))
    {
      hide HeapOk; hide HeadersApart; hide FreeLists.Valid; hide SegmentTotal; hide ValidSegmentBlock; hide SameCache; hide Alone;
      hide KeptBits; hide Entered; hide UsedBut; hide Without; hide DropSegment;
      RunAlone(Here(), hand, lo, n, b);
      SameHome(Here(), hand, lo, n);
      SameCacheRefl(lists.view);
      if prev[lo] == FIRST && size[lo + n].kind == Guard {
        DroppedGone(books.home, size, b);
        KeptRefl(lists.freeBitmap, lists.view.rings);
        DelSegment(lo, n, hand);
      } else {
        MergedGone(books.home, size, hand, b, lo, n);
        Merge(lo, n, hand);
        GiveFree(lo, false, {lo});
        assert {lo} - {lo} == {};
      }
    }

    /** The bucket that the whole enters is not the one that is hidden. */
    lemma LargerShown(b: Addr)
      requires HeapOk(Here(), {b}) && UsedBlock(books.home, size, b)
      ensures b in prev && b + size[b].n in size && (prev[b].kind == Free ==> !InRest(lists.view.owner, b - prev[b].n))
      ensures var n := FreedSize(b); SmallSize(n) ==> n >= MIN_BLOCK && !HidesBehind(b, BucketIndex(n)) && !HidesFlushed(b, BucketIndex(n))
    {
      hide HeapOk; hide HidesBoth; hide HidesAfter;
      BehindHand(Here(), b);
      RunOne(Here(), b);
      if prev[b].kind == Free {
        RestNotBefore(Here(), {b}, b, size[b].n);
      }
      ghost var t := size[b + size[b].n];
      LargerNotHidden(lists.view.rings, lists.view.owner, t.kind == Free, b + size[b].n, t.n, prev[b].kind == Free, b - prev[b].n, FreedSize(b));
    }

    /** The free blocks behind and before a used block in hand leave their lists. */
    method AbsorbBoth(b: Addr, n0: nat) returns (lo: Addr, n: nat, ghost hand: set<Addr>)
      requires Core({b}) && UsedBlock(books.home, size, b) && size[b].n == n0 && NearHome(books.home, b)
      modifies lists
      ensures Core(hand) && Run(Here(), hand, lo, n) && prev[lo].kind != Free && size[lo + n].kind != Free
      ensures SameCache(old(lists.view), lists.view) && b in hand
      ensures forall x :: x in hand && x != b ==> x in size && size[x].kind == Free
      ensures forall i: nat, bits, rings :: KeptBits(lists.freeBitmap, lists.view.rings, bits, rings) && old(Shown(i)) ==>
        (Shows(bits, rings, i) <==> !old(HidesBehind(b, i)))
      ensures lo == b - RoomBefore(prev, b) && n == RoomBefore(prev, b) + Span(size, b)
      ensures TookBoth(size, prev, b, true, old(lists.freeBitmap), old(lists.view), lists.freeBitmap, lists.view)
    {
      hide HeapOk; hide HeadersApart; hide Base; hide SameCache; hide Shows; hide HidesBoth; hide Absorbed; hide KeptBits; hide TookBoth;
      RunOne(Here(), b);
      ghost var v0, bits0 := lists.view, lists.freeBitmap;
      n, hand := AbsorbNext(b, n0, {b});
      ghost var v1, bits1 := lists.view, lists.freeBitmap;
      lo, n, hand := AbsorbPrev(b, n, hand);
      SameCacheTrans(v0, v1, lists.view);
      TakenBoth(size, prev, b, bits0, v0, bits1, v1, lists.freeBitmap, lists.view);
      FreedShows(size, b, b + n0, size[b + n0], prev[b], bits0, v0, bits1, v1, lists.freeBitmap, lists.view);
    }

    // ---- allocation ----

    /** Near the limit the rest list is searched, too. */
    predicate NearLimit()
      reads this`realSize, this`limit
    {
      realSize >= Wrap(limit - blockSize)
    }

    /** No listed block that the searches look at has `t` bytes. */
    ghost predicate NoFit(t: nat)
      requires ValidBlockSize(t)
      reads this`size, this`realSize, this`limit, lists
    {
      && (SmallSize(t) ==> Shr(lists.freeBitmap, BucketIndex(t)) == 0)
      && (forall s: nat :: Present(lists.view, s) ==> s < t)
      && (NearLimit() ==> NoRestFit(t))
    }

    ghost predicate NoRestFit(t: nat)
      reads this`size, lists
    {
      && RestRing in lists.view.rings
      && forall j :: 1 <= j < |lists.view.rings[RestRing]| ==> lists.RestSize(size, j) < t
    }

    /** The searches of _zend_mm_alloc_int. */
    method FindFree(t: nat) returns (best: Ptr)
      requires Core({}) && ValidBlockSize(t) && t < NO_SIZE
      ensures best == Null <==> NoFit(t)
      ensures best != Null ==> best.Block? && lists.IsFree(best.addr) && best.addr in size && t <= size[best.addr].n
      ensures best != Null ==> lists.Picks(size, t, realSize >= Wrap(limit - blockSize), best)
    {
      hide HeapOk; hide HeadersApart; hide ViewOk; hide CountLarge;
      hide Shr; hide SegmentTotal; hide ValidSegmentBlock; hide LargeSearch.FindsLeast;
      hide LargeSearch.LeastFit;
      SmallSizesAreClasses(t);
      if SmallSize(t) {
        best := lists.SearchSmall(size, BucketIndex(t));
        if best != Null {
          return;
        }
      }
      best := lists.SearchLargeBlock(size, t);
      if best == Null && NearLimit() {
        best := lists.SearchRest(size, t);
      }
    }

    /** A used block in hand goes to a client. Its room is bytes from now on: those that
        were there, known or not. */
    method GiveLive(b: Addr, n: nat)
      requires Core({b}) && UsedBlock(books.home, size, b) && size[b].n >= n + HEADER
      modifies this`size, this`prev, this`books, lists
      ensures Core({}) && lists.view == old(lists.view) && lists.freeBitmap == old(lists.freeBitmap)
      ensures b in books.live && books == old(books).(live := old(books).live[b := books.live[b]])
      ensures books.live[b].asked == n && books.live[b].room + HEADER == old(size)[b].n
      ensures |books.live[b].body| == books.live[b].room && BytesAt(lists.data, b + HEADER, books.live[b].body)
      ensures SameBytes(old(lists.data), lists.data, b + HEADER, b + old(size)[b].n)
      ensures b !in old(books).live && LiveTotal(books.live) == LiveTotal(old(books).live) + old(size)[b].n
      ensures b > 0 && (b + HEADER) % ALIGNMENT == 0
      ensures SameTags(books.home, old(size), size) && SameTags(books.home, old(prev), prev)
    {
      hide HeapOk; hide HeadersApart; hide FreeLists.Valid; hide LiveTotal; hide SegmentTotal; hide ValidSegmentBlock;
      var room := size[b].n - HEADER;
      NotOwnedInHand(Here(), {b}, b);
      LiveAligned(Here(), {b}, b);
      ClaimRoom(b, {b});
      ghost var data := lists.data;
      ghost var x := Piece(n, room, seq(room, k requires 0 <= k < room => data[b + HEADER + k]));
      GiveLiveOk(Here(), {b}, b, x);
      LiveTotalAdd(books.live, b, x);
      books := books.(live := books.live[b := x]);
      assert {b} - {b} == {};
    }

    /** No header and no link is left in the room of block `b`. */
    method ClaimRoom(b: Addr, ghost hand: set<Addr>)
      requires Core(hand) && UsedBlock(books.home, size, b) && Block(b) !in lists.view.owner
      modifies this`size, this`prev, lists
      ensures Core(hand) && lists.view == old(lists.view) && lists.freeBitmap == old(lists.freeBitmap) && b in size && size[b] == old(size)[b]
      ensures forall x :: b + HEADER <= x < b + size[b].n ==> x in lists.data
      ensures SameTags(books.home, old(size), size) && SameTags(books.home, old(prev), prev)
      ensures SameBytes(old(lists.data), lists.data, b + HEADER, b + size[b].n)
    {
      hide HeapOk; hide HeadersApart; hide FreeLists.Valid; hide SegmentTotal;
      hide ValidSegmentBlock; hide TagsOutside; hide SameSizes;
      hide ListsOutside;
      ghost var h := Here();
      var lo, hi := b + HEADER, b + size[b].n;
      RoomClear(h, hand, b);
      VacateFrame(h, hand, lo, hi);
      lists.Claim(size, lo, hi);
      HeadersForgotten(size, prev, h.data, lo, hi, lists.data);
      lists.ValidFrame(size, TagsOutside(size, 0, lo, hi));
      size, prev := TagsOutside(size, 0, lo, hi), TagsOutside(prev, PREV_SIZE, lo, hi);
      ForgetOk(h, hand, size, prev, lists.data);
      assert Here() == h.(size := size, prev := prev, data := lists.data);
    }

    /** "Get block from cache". */
    method FromCache(index: nat, n: nat) returns (p: Addr)
      requires Sound() && index < NUM_BUCKETS && cache[index] != Null && n < WORD
      requires TrueSize(n) >= n && ClassSize(index) == TrueSize(n)
      modifies this`size, this`prev, this`cache, this`cached, this`books, lists
      ensures Sound() && p != 0 && Granted(old(books).live, books.live, p, n) && books.flushed == old(books).flushed
      ensures cached == old(cached) - TrueSize(n) && cache == old(cache)[index := cache[index]]
      ensures GotCached(p, TrueSize(n), old(Now()))
    {
      hide HeapOk; hide HeadersApart; hide FreeLists.Valid; hide LiveTotal;
      hide SegmentTotal; hide ValidSegmentBlock; hide CacheTotal;
      hide TrueSize;
      TrueSizeCovers(n);
      lists.HeadIsBlock(size, index);
      var b := cache[index].addr;
      ghost var v := lists.view;
      var q := TakeCached(index, b);
      CacheTotalUpdate(v.rings, NUM_BUCKETS, index, v.rings[CacheChain(index)][1..]);
      cache := cache[index := q];
      cached := cached - TrueSize(n);
      GiveLive(b, n);
      p := b + HEADER;
    }

    /** A first block may begin at `b`, and there is a guard at `last`. */
    predicate Bounded(b: Addr, last: Addr)
      reads this
    {
      b in prev && prev[b] == FIRST && last in size && size[last] == GUARD
    }

    /** ZEND_MM_MARK_FIRST_BLOCK and ZEND_MM_LAST_BLOCK. */
    method MarkSegment(base: Addr, n: nat, markFirst: bool, ghost home0: Home)
      requires Base() && n >= SEGMENT_HEADER + HEADER && Block(base + n - HEADER) !in lists.view.owner
      requires markFirst || prev[base + SEGMENT_HEADER := FIRST] == prev
      modifies this`size, this`prev, this`books, lists`data
      ensures Base() && books == old(books).(home := books.home)
      ensures Here() == Grown(old(Here()).(home := home0), segments, Segment(base, n)).(data := lists.data)
      ensures ButHeaders(old(lists.data), lists.data, base + SEGMENT_HEADER, base + n - HEADER)
      ensures Bounded(base + SEGMENT_HEADER, base + n - HEADER)
    {
      hide FreeLists.Valid; hide SameSizes; hide NotHeaders; hide SegmentTotal; hide ValidSegmentBlock; hide HeadersApart;
      ghost var s := Segment(base, n);
      var b := base + SEGMENT_HEADER;
      var last := b + (n - SEGMENT_HEADER - HEADER);
      assert last == s.Last();
      HeadersStored(size, prev, lists.data, last, b, GUARD, FIRST);
      SwapHeaders(lists.data, NotHeaders(lists.data, size[last := GUARD], prev[b := FIRST]), b, last);
      TaggedSame(lists.view.owner, size, last, GUARD);
      lists.ValidFrame(size, size[last := GUARD]);
      if markFirst {
        prev := prev[b := FIRST];
      }
      size := size[last := GUARD];
      lists.Cover(size, prev, size);
      books := books.(home := home0[s.First() := s][s.Last() := s]);
    }

    /** The new segment of _zend_mm_alloc_int: its first block and its guard. */
    method AddSegment(base: Addr, n: nat) returns (b: Addr, blockSize': nat)
      requires Core({}) && books.lost == {} && NewSegment(segments, Segment(base, n))
      modifies this`segments, this`size, this`prev, this`realSize, this`realPeak, this`books, lists
      ensures InHand(b, blockSize', Free) && blockSize' == n - SEGMENT_HEADER - HEADER && Bounded(b, b + blockSize')
      ensures books == old(books).(home := books.home) && lists.view == old(lists.view)
      ensures b == base + SEGMENT_HEADER && lists.freeBitmap == old(lists.freeBitmap) && lists.restCount == old(lists.restCount)
      ensures realSize == old(realSize) + n && realPeak == Max(old(realPeak), realSize)
      ensures segments == [Segment(base, n)] + old(segments)
    {
      hide HeapOk; hide HeadersApart; hide FreeLists.Valid; hide SegmentTotal;
      hide ValidSegmentBlock; hide NewSegment; hide Grown; hide Tagged;
      ghost var s := Segment(base, n);
      NewMemory(base, n);
      ghost var h := Here();
      PrependedOk(h, s);
      realSize := realSize + n;
      if realSize > realPeak {
        realPeak := realSize;
      }
      SegmentTotalPrepend(s, segments);
      segments := [Segment(base, n)] + segments;
      GrownAs(h, Here().(home := h.home), segments, s);
      MarkSegment(base, n, true, books.home);
      b := base + SEGMENT_HEADER;
      blockSize' := n - SEGMENT_HEADER - HEADER;
      GrownKeep(h, segments, s, lists.data);
    }

    /** Storage hands out memory: whatever was known of it is of no use any more. */
    method NewMemory(base: Addr, n: nat)
      requires Core({}) && NewSegment(segments, Segment(base, n))
      modifies lists
      ensures Core({}) && lists.view == old(lists.view) && lists.freeBitmap == old(lists.freeBitmap) && lists.restCount == old(lists.restCount)
    {
      hide HeapOk; hide HeadersApart; hide FreeLists.Valid; hide SegmentTotal;
      hide ValidSegmentBlock; hide NewSegment; hide ListsOutside;
      ghost var h := Here();
      NewSegmentClear(h, {}, Segment(base, n), base);
      VacateFrame(h, {}, base, base + n);
      lists.Vacate(size, base, base + n);
      lists.Discard(base, base + n, size);
      HeadersApartLess(size, prev, h.data, lists.data);
      DataOk(h, {}, lists.data);
      assert Here() == h.(data := lists.data);
    }

    /** zend_mm_safe_error up to its longjmp: the reserve goes. */
    method SafeError()
      requires Near() && Counted() && (reserve == 0 || (reserve - HEADER in books.live && BeforeNoLost(books.lost, prev, reserve - HEADER)))
      modifies this`size, this`prev, this`segments, this`realSize, this`cache, this`cached, this`used, this`reserve, this`books, lists
      ensures Counted() && reserve == 0 && books.flushed == old(books).flushed && books.lost == old(books).lost
      ensures books.live == AfterError(old(books).live, old(reserve))
      ensures realSize <= old(realSize) && used <= old(used)
      ensures old(reserve) != 0 ==> FreedIn(old(reserve) - HEADER, old(books).live[old(reserve) - HEADER].room + HEADER, old(Now()))
      ensures old(reserve) == 0 ==> segments == old(segments) && cached == old(cached) && cache == old(cache)
      ensures Fewer(old(segments), segments)
      ensures Tidied(old(Now()), Now())
    {
      hide HeapOk; hide HeadersApart; hide FreeLists.Valid; hide LiveTotal;
      hide SegmentTotal; hide ValidSegmentBlock; hide CacheTotal;
      hide BeforeNoLost; hide Tidied; hide FreedIn; hide Returned; hide HidesBehind; hide Shown;
      StartsTidy();
      if reserve != 0 {
        NearIn({}, reserve - HEADER);
        FreeInt(reserve);
        reserve := 0;
      }
    }

    /** When a request of `n` bytes fails; `base` is what storage would answer. */
    ghost predicate NoRoom(n: nat, base: Addr)
      requires n < WORD
      reads this, lists
    {
      var t := TrueSize(n);
      || t < n
      || (ValidBlockSize(t) && !InCache(t) && NoFit(t) && NoSegment(t, base))
    }

    predicate InCache(t: nat)
      reads this
    {
      SmallSize(t) && MIN_BLOCK <= t && BucketIndex(t) < |cache| && cache[BucketIndex(t)] != Null
    }

    predicate NoSegment(t: nat, base: Addr)
      reads this
    {
      NoSegmentAt(realSize, t, base)
    }

    /** No segment for a block of `t` bytes beside `total` bytes of segments. */
    predicate NoSegmentAt(total: nat, t: nat, base: Addr)
      reads this`limit
    {
      SegmentSize(blockSize, t) < t || Wrap(total + SegmentSize(blockSize, t)) > limit || base == 0
    }

    /** What the failure of a request means: it wraps around; or no cached block has its size,
        all free blocks that are looked at, those of the rest ring only near the limit, are too
        small, and a segment wraps around, passes the limit or is refused. */
    lemma NoRoomExactly(n: nat, base: Addr)
      requires Sound() && n < WORD
      ensures NoRoom(n, base) <==>
        var t := TrueSize(n);
        || t < n
        || (&& (forall a :: a in CachedAddrs(lists.view.owner) && a in size ==> size[a].n != t)
            && (forall a :: lists.Seen(realSize >= Wrap(limit - blockSize), a) && a in size ==> size[a].n < t)
            && (SegmentSize(blockSize, t) < t || Wrap(realSize + SegmentSize(blockSize, t)) > limit || base == 0))
    {
      hide HeapOk; hide HeadersApart; hide FreeLists.Valid; hide LiveTotal; hide SegmentTotal; hide CacheTotal; hide NoFit;
      hide TrueSize; hide SegmentSize; hide ValidSegmentBlock; hide CachedAddrs; hide InCache; hide ValidBlockSize; hide FreeLists.Seen;
      TrueSizeCovers(n);
      if TrueSize(n) >= n {
        NoFitExactly(TrueSize(n));
        InCacheExactly(TrueSize(n));
      }
    }

    lemma NoFitExactly(t: nat)
      requires Core({}) && ValidBlockSize(t)
      ensures NoFit(t) <==> forall a :: lists.Seen(realSize >= Wrap(limit - blockSize), a) && a in size ==> size[a].n < t
    {
      hide HeapOk; hide HeadersApart; hide ViewOk; hide CountLarge; hide LinksApart; hide SegmentTotal; hide ValidSegmentBlock; hide Shr;
      hide ValidBlockSize; hide FreeLists.Seen;
      ghost var near := realSize >= Wrap(limit - blockSize);
      if NoFit(t) {
        forall a | lists.Seen(near, a) && a in size
          ensures size[a].n < t
        {
          lists.SeenFits(size, near, a, t);
        }
      } else {
        lists.RestStart(size);
        ghost var a := lists.FoundIsSeen(size, near, t);
      }
    }

    lemma InCacheExactly(t: nat)
      requires Core({}) && CacheOk() && ValidBlockSize(t)
      ensures InCache(t) <==> exists a :: a in CachedAddrs(lists.view.owner) && a in size && size[a].n == t
    {
      hide HeapOk; hide HeadersApart; hide FreeLists.Valid; hide SegmentTotal; hide ValidSegmentBlock; hide CacheTotal; hide CachedAddrs;
      SmallSizesAreClasses(t);
      if InCache(t) {
        lists.ChainHasSize(size, BucketIndex(t));
      }
      forall a | a in CachedAddrs(lists.view.owner) && a in size && size[a].n == t
        ensures InCache(t)
      {
        ghost var i := lists.CachedIsHeaded(size, a);
        ClassesAreSmallSizes(i);
      }
    }

    /** The request takes a new segment of 2 GiB or more. */
    ghost predicate Oversized(n: nat)
      requires n < WORD
      reads this, lists
    {
      var t := TrueSize(n);
      !InCache(t) && !HasFit(t) && SegmentSize(blockSize, t) >= FAR
    }

    /** _zend_mm_alloc_int; failure is what its longjmp leaves behind. After that the heap is
        as it should be, but for the way back to blocks when storage gave 2 GiB or more. */
    method AllocInt(n: nat, base: Addr) returns (p: Addr)
      requires Valid() && n < WORD
      requires StorageGives(segments, base, SegmentSize(blockSize, TrueSize(n)))
      modifies this, lists
      ensures Intact() && (Near() <==> !(p != 0 && old(Oversized(n))))
      ensures p == 0 <==> old(NoRoom(n, base))
      ensures p != 0 ==> Granted(old(books).live, books.live, p, n)
      ensures books.flushed == old(books).flushed + (if p == 0 && TrueSize(n) >= n then old(cached) else 0)
      ensures p != 0 ==> RequestCounted(n, old(InCache(TrueSize(n))), old(HasFit(TrueSize(n))), old(used), old(cached), old(realSize),
                                        books.live[p - HEADER].room, old(peak), old(realPeak))
      ensures p == 0 ==> books.live == AfterError(old(books).live, old(reserve))
      ensures reserve == if p == 0 then 0 else old(reserve)
      ensures limit == old(limit)
      ensures p != 0 ==> segments == if old(InCache(TrueSize(n))) || old(HasFit(TrueSize(n))) then old(segments)
                                     else [Segment(base, SegmentSize(blockSize, TrueSize(n)))] + old(segments)
      ensures p != 0 ==> GotBlock(p, TrueSize(n), old(InCache(TrueSize(n))), old(HasFit(TrueSize(n))), base, old(Now()))
      ensures p != 0 && !old(InCache(TrueSize(n))) && old(HasFit(TrueSize(n))) ==> old(Picked(TrueSize(n), Block(p - HEADER)))
      ensures p != 0 ==> AllocShows(p, old(Now()))
      ensures p != 0 && !old(InCache(TrueSize(n))) ==> LeftServes(p, TrueSize(n), old(HasFit(TrueSize(n))), old(Now()))
      ensures p == 0 ==> Tidied(old(Now()), Now())
      ensures p == 0 && old(reserve) == 0 && TrueSize(n) >= n ==> cached == 0 && cache == NoBlocks()
      ensures p == 0 ==> peak == old(peak) && realPeak == old(realPeak)
      ensures p == 0 && old(reserve) == 0 && old(cached) == 0 && old(cache) == NoBlocks() ==> segments == old(segments) && cached == 0
    {
      hide Tidied;
      hide HeapOk; hide HeadersApart; hide FreeLists.Valid; hide LiveTotal; hide SegmentTotal; hide CacheTotal; hide NoFit;
      hide StorageGives; hide Fits; hide TrueSize; hide SegmentSize; hide ValidBlockSize; hide NoRoom; hide HasFit; hide Oversized; hide InCache;
      hide ValidSegmentBlock; hide RequestCounted; hide GotBlock; hide Picked; hide AllocShows; hide LeftServes;
      if !NoRoom(n, base) {
        RoomCovers(n, base);
      }
      p := TryAlloc(n, base);
      if p == 0 {
        ghost var past := Now();
        SafeError();
        TidiedTrans(old(Now()), past, Now());
      } else {
        GotShows(p, TrueSize(n), old(InCache(TrueSize(n))), old(HasFit(TrueSize(n))), base, old(Now()));
        if !old(InCache(TrueSize(n))) {
          GotServes(p, TrueSize(n), old(HasFit(TrueSize(n))), base, old(Now()));
        }
      }
    }

    lemma RoomCovers(n: nat, base: Addr)
      requires n < WORD && !NoRoom(n, base)
      ensures TrueSize(n) >= MIN_BLOCK
    {
      hide NoFit;
      TrueSizeCovers(n);
    }

    /** What an allocation attempt comes to. */
    ghost predicate Tried(p: Addr, n: nat, base: Addr, hit: bool, fits: bool, refused: bool, oversized: bool, s: Past, books0: Books, real0: nat)
      requires n < WORD
      reads this, lists
    {
      var t := TrueSize(n);
      && (p == 0 <==> refused) && (Near() <==> !(p != 0 && oversized))
      && books.flushed == books0.flushed + (if p == 0 && t >= n then s.cached else 0)
      && if p != 0 then
           && Granted(books0.live, books.live, p, n) && GotBlock(p, t, hit, fits, base, s)
           && RequestCounted(n, hit, fits, s.used, s.cached, real0, books.live[p - HEADER].room, s.peak, s.realPeak)
           && segments == if hit || fits then s.segs else [Segment(base, SegmentSize(blockSize, t))] + s.segs
         else
           && books.live == books0.live && Tidied(s, Now()) && peak == s.peak && realPeak == s.realPeak
           && (t >= n ==> cached == 0 && cache == NoBlocks())
           && (s.cached == 0 && s.cache == NoBlocks() ==> segments == s.segs && cached == 0)
    }

    /** _zend_mm_alloc_int but for the release of the reserve on failure. */
    method TryAlloc(n: nat, base: Addr) returns (p: Addr)
      requires Sound() && Near() && n < WORD
      requires StorageGives(segments, base, SegmentSize(blockSize, TrueSize(n)))
      modifies this`segments, this`size, this`prev, this`realSize, this`realPeak, this`cache, this`cached, this`used, this`peak, this`books, lists
      ensures Sound() && Tried(p, n, base, old(InCache(TrueSize(n))), old(HasFit(TrueSize(n))), old(NoRoom(n, base)), old(Oversized(n)),
                               old(Now()), old(books), old(realSize))
      ensures p != 0 && !old(InCache(TrueSize(n))) && old(HasFit(TrueSize(n))) ==> old(Picked(TrueSize(n), Block(p - HEADER)))
    {
      hide KeepsBytes; hide BytesAt; hide LeftOfSegment; hide TookPart; hide ListedWhole; hide Shown; hide Shows;
      hide Tidied;
      hide HeapOk; hide HeadersApart; hide FreeLists.Valid; hide LiveTotal; hide SegmentTotal; hide CacheTotal; hide NoFit;
      hide StorageGives; hide Fits; hide TrueSize; hide SegmentSize; hide ValidBlockSize;
      hide FreeLists.Picks; hide GotCached; hide GotListed; hide GotSegment; hide Picked; hide BucketIndex; hide SmallSize;
      StartsTidy();
      var t := TrueSize(n);
      TrueSizeCovers(n);
      if SmallSize(t) {
        if t < n {
          return 0;
        }
        SmallSizesAreClasses(t);
        var index := BucketIndex(t);
        if cache[index] != Null {
          p := FromCache(index, n);
          return;
        }
      }
      p := TryUncached(n, t, base);
    }

    /** The searches, and then a new segment. */
    method TryUncached(n: nat, t: nat, base: Addr) returns (p: Addr)
      requires Sound() && Near() && n < WORD && t == TrueSize(n) && t >= n && ValidBlockSize(t) && !InCache(t)
      requires StorageGives(segments, base, SegmentSize(blockSize, t))
      modifies this`segments, this`size, this`prev, this`realSize, this`realPeak, this`cache, this`cached, this`used, this`peak, this`books, lists
      ensures Sound() && Tried(p, n, base, false, old(HasFit(t)), old(NoRoom(n, base)), old(Oversized(n)), old(Now()), old(books), old(realSize))
      ensures p != 0 && old(HasFit(t)) ==> old(Picked(t, Block(p - HEADER)))
    {
      hide Tidied; hide KeepsBytes; hide BytesAt; hide LeftOfSegment; hide TookPart; hide ListedWhole; hide Shown; hide Shows;
      hide HeapOk; hide HeadersApart; hide FreeLists.Valid; hide LiveTotal; hide SegmentTotal; hide CacheTotal; hide NoFit;
      hide StorageGives; hide Fits; hide TrueSize; hide SegmentSize; hide ValidBlockSize; hide InCache;
      hide FreeLists.Picks; hide GotCached; hide GotListed; hide GotSegment; hide Picked; hide BucketIndex; hide SmallSize;
      StartsTidy();
      TrueSizeCovers(n);
      var best := FindFree(t);
      if best == Null {
        if NoSegment(t, base) {
          FreeCache();
          return 0;
        }
        NearPrepend(Segment(base, SegmentSize(blockSize, t)), segments);
        p := FromSegment(n, t, base);
      } else {
        lists.RestStart(size);
        PickedIs(t, best);
        p := FromLists(n, t, best.addr);
      }
    }

    /** The block that the searches choose for `t` bytes. */
    ghost predicate Picked(t: nat, r: Ptr)
      reads this`size, this`realSize, this`limit, lists
    {
      RestRing in lists.view.rings && t > 0 && r.Block? && r.addr in size && lists.Picks(size, t, realSize >= Wrap(limit - blockSize), r)
    }

    lemma PickedIs(t: nat, r: Ptr)
      requires RestRing in lists.view.rings && ValidBlockSize(t) && lists.Picks(size, t, realSize >= Wrap(limit - blockSize), r)
      ensures Picked(t, r)
    {
      hide FreeLists.Found; hide FreeLists.NoneShown; hide FreeLists.NewestRest; hide LeastFit; hide FindsLeast; hide Bit;
    }

    ghost predicate HasFit(t: nat)
      reads this`size, this`realSize, this`limit, lists
    {
      ValidBlockSize(t) && !NoFit(t)
    }

    /** What an allocation of `n` bytes does to the counters: `hit` when the cache has a
        block of the class, `fits` when a listed block is large enough. */
    ghost predicate RequestCounted(n: nat, hit: bool, fits: bool, used0: nat, cached0: nat, real0: nat, room: nat,
                                   peak0: nat, realPeak0: nat)
      requires n < WORD
      reads this
    {
      && used == (if hit then used0 else used0 + room + HEADER)
      && cached == (if hit then cached0 - TrueSize(n) else cached0)
      && realSize == (if hit || fits then real0 else real0 + SegmentSize(blockSize, TrueSize(n)))
      && peak == Max(peak0, used) && realPeak == Max(realPeak0, realSize)
    }

    method FromSegment(n: nat, t: nat, base: Addr) returns (p: Addr)
      requires Sound() && n < WORD && t == TrueSize(n) && t >= n
      requires StorageGives(segments, base, SegmentSize(blockSize, t)) && !NoSegment(t, base)
      modifies this`segments, this`size, this`prev, this`realSize, this`realPeak, this`books, this`used, this`peak, lists
      ensures p != 0 && p - HEADER in books.live
      ensures used == old(used) + books.live[p - HEADER].room + HEADER && peak == Max(old(peak), used)
      ensures Sound() && Granted(old(books).live, books.live, p, n) && books.flushed == old(books).flushed
      ensures realSize == old(realSize) + SegmentSize(blockSize, t) && realPeak == Max(old(realPeak), realSize)
      ensures GotSegment(p, t, base, old(Now()))
      ensures segments == [Segment(base, SegmentSize(blockSize, t))] + old(segments)
    {
      hide HeapOk; hide HeadersApart; hide FreeLists.Valid; hide LiveTotal;
      hide SegmentTotal; hide ValidSegmentBlock; hide CacheTotal;
      hide Granted; hide NewSegment; hide SegmentSize;
      hide TrueSize; hide ValidBlockSize; hide LeftOver;
      TrueSizeCovers(n);
      var b, got := NewBlock(t, base);
      ghost var h, size1 := Here(), size;
      p := Finish(b, n, got);
      StillWhole(size1, b + t);
      FillsStill(h, {b}, b, size, prev);
    }

    /** A new segment, and a used block of it. */
    method NewBlock(t: nat, base: Addr) returns (b: Addr, got: nat)
      requires Core({}) && books.lost == {} && CacheOk() && ValidBlockSize(t) && t < WORD
      requires StorageGives(segments, base, SegmentSize(blockSize, t)) && !NoSegment(t, base)
      modifies this`segments, this`size, this`prev, this`realSize, this`realPeak, this`books, lists
      ensures Core({b}) && CacheOk() && UsedBlock(books.home, size, b) && size[b].n == got
      ensures t <= got < t + MIN_BLOCK && books == old(books).(home := books.home)
      ensures realSize == old(realSize) + SegmentSize(blockSize, t) && realPeak == Max(old(realPeak), realSize)
      ensures segments == [Segment(base, SegmentSize(blockSize, t))] + old(segments)
      ensures var whole := SegmentSize(blockSize, t) - SEGMENT_HEADER - HEADER;
        whole >= t + MIN_BLOCK ==> ListedAs(b + got, RestOrList(t > blockSize - (SEGMENT_HEADER + HEADER), whole - got))
      ensures Block(b) !in old(lists.view).owner
      ensures b == base + SEGMENT_HEADER && LeftOfSegment(b, got, t, old(lists.restCount), old(lists.freeBitmap), old(lists.view))
      ensures FillsSegment(b) && SpanOf(b) == SegmentSize(blockSize, t) - SEGMENT_HEADER - HEADER
    {
      hide HeapOk; hide HeadersApart; hide FreeLists.Valid; hide SegmentTotal; hide CacheTotal; hide NewSegment; hide SameCache; hide LeftOver;
      hide ValidBlockSize;
      hide SegmentSize;
      SegmentCovers(blockSize, t);
      var rest := t > blockSize - (SEGMENT_HEADER + HEADER);
      ghost var v := lists.view;
      lists.HasChains(size);
      var whole;
      b, whole := AddSegment(base, SegmentSize(blockSize, t));
      got := Carve(b, whole, t, rest, Free);
      SameCacheTotal(v, lists.view);
      BehindUsed(Here(), {b}, b);
    }

    /** Block `p` was the head of the cache chain for blocks of `t` bytes. */
    ghost predicate GotCached(p: Addr, t: nat, s: Past)
      reads this`books, lists
    {
      && p - HEADER in books.live && books.live[p - HEADER].room + HEADER == t
      && 0 <= BucketIndex(t) < |s.cache| && s.cache[BucketIndex(t)] == Block(p - HEADER)
      && UncachedAs(s.view, lists.view, p - HEADER, t) && lists.freeBitmap == s.bits
    }

    /** A free block became the block of `p`, and a free block behind it if enough is left. */
    ghost predicate GotListed(p: Addr, t: nat, s: Past)
      reads this`books, this`size, lists
    {
      && p - HEADER in s.size && TookPart(p - HEADER, s.size[p - HEADER].n, t)
      && ServedLists(s.size, p - HEADER, t, s.bits, s.view, lists.freeBitmap, lists.view)
    }

    /** The block of `p` is the first of a new segment at `base`; what is left over is free
        up to the guard, and in the rest ring when the segment is larger than usual. */
    ghost predicate GotSegment(p: Addr, t: nat, base: Addr, s: Past)
      reads this`books, this`size, this`prev, lists
    {
      && p == base + SEGMENT_HEADER + HEADER && p - HEADER in books.live && Block(p - HEADER) !in s.view.owner
      && FillsSegment(p - HEADER) && SpanOf(p - HEADER) == SegmentSize(blockSize, t) - SEGMENT_HEADER - HEADER
      && LeftOfSegment(p - HEADER, books.live[p - HEADER].room + HEADER, t, s.rests, s.bits, s.view)
    }

    /** Of the buckets that the small bitmap shows right, only that is shown wrong afterwards
        whose bit goes when the served block leaves the rest ring. */
    ghost predicate AllocShows(p: Addr, s: Past)
      reads lists
    {
      forall i: nat :: Shows(s.bits, s.view.rings, i) ==> (Shown(i) <==> !HidesTaken(p - HEADER, i, s))
    }

    ghost predicate HidesTaken(b: Addr, i: nat, s: Past) {
      Block(b) in s.view.owner && b in s.size && Hides(s.view.rings, s.view.owner[Block(b)], s.size[b].n, i)
    }

    /** What the served block leaves over serves later requests, but for an oversized segment. */
    ghost predicate LeftServes(p: Addr, t: nat, fits: bool, s: Past)
      reads this`size, this`realSize, this`limit, lists
    {
      var left := (if !fits then SegmentSize(blockSize, t) - SEGMENT_HEADER - HEADER
                   else if p - HEADER in s.size then s.size[p - HEADER].n else 0) - t;
      (&& left >= MIN_BLOCK && (fits || t <= blockSize - (SEGMENT_HEADER + HEADER))
       && (SmallSize(left) ==> Shows(s.bits, s.view.rings, BucketIndex(left)))) ==> ServesUpTo(left)
    }

    lemma GotShows(p: Addr, t: nat, hit: bool, fits: bool, base: Addr, s: Past)
      requires GotBlock(p, t, hit, fits, base, s)
      ensures AllocShows(p, s)
    {
      hide Shows; hide SegmentSize; hide ServedLists; hide PutIn; hide PutInRest; hide FillsSegment; hide SpanOf;
      forall i: nat | Shows(s.bits, s.view.rings, i)
        ensures Shown(i) <==> !HidesTaken(p - HEADER, i, s)
      {
        if hit {
          UncachedShows(s.bits, s.view, lists.view, p - HEADER, t, i);
        } else if fits {
          ServedShows(s.size, p - HEADER, t, s.bits, s.view, lists.freeBitmap, lists.view, i);
        }
      }
    }

    lemma GotServes(p: Addr, t: nat, fits: bool, base: Addr, s: Past)
      requires Core({}) && t >= MIN_BLOCK && GotBlock(p, t, false, fits, base, s) && AllocShows(p, s)
      ensures LeftServes(p, t, fits, s)
    {
      hide HeapOk; hide HeadersApart; hide FreeLists.Valid; hide SegmentTotal; hide ValidSegmentBlock; hide ServesUpTo;
      hide Shows; hide SegmentSize; hide ServedLists; hide LeftOver; hide FillsSegment; hide SpanOf;
      ghost var left := (if !fits then SegmentSize(blockSize, t) - SEGMENT_HEADER - HEADER
                         else if p - HEADER in s.size then s.size[p - HEADER].n else 0) - t;
      if left >= MIN_BLOCK && (fits || t <= blockSize - (SEGMENT_HEADER + HEADER))
        && (SmallSize(left) ==> Shows(s.bits, s.view.rings, BucketIndex(left)))
      {
        assert SmallSize(left) ==> Shown(BucketIndex(left));
        ListedServes(p - HEADER + t, left);
      }
    }

    ghost predicate GotBlock(p: Addr, t: nat, hit: bool, fits: bool, base: Addr, s: Past)
      reads this`books, this`cache, this`size, this`prev, lists
    {
      if hit then GotCached(p, t, s)
      else cache == s.cache && if fits then GotListed(p, t, s) else GotSegment(p, t, base, s)
    }

    /** Block `b`, of `got` bytes, is the first of a new segment for `t` bytes; what is left
        over is in the rest ring when the segment is larger than usual. */
    ghost predicate LeftOfSegment(b: Addr, got: nat, t: nat, count: nat, bits: nat, v: View)
      reads this`books, this`size, lists
    {
      var whole := SegmentSize(blockSize, t) - SEGMENT_HEADER - HEADER;
      && whole >= 0 && got == (if whole >= t + MIN_BLOCK then t else whole)
      && LeftOver(b, whole, t, t > blockSize - (SEGMENT_HEADER + HEADER), count, bits, v, lists.freeBitmap, lists.view)
      && (whole >= t + MIN_BLOCK && t <= blockSize - (SEGMENT_HEADER + HEADER) ==> ListedWhole(b + t, whole - t))
    }

    /** Block `b` got `t` bytes of `m`, or all when what is left would be no block. */
    ghost predicate TookPart(b: Addr, m: nat, t: nat)
      reads this`books, this`size, lists
    {
      && b in books.live && books.live[b].room + HEADER == (if m >= t + MIN_BLOCK then t else m)
      && (m >= t + MIN_BLOCK ==> ListedWhole(b + t, m - t))
    }

    method FromLists(n: nat, t: nat, b: Addr) returns (p: Addr)
      requires Sound() && Near() && n < WORD && t == TrueSize(n) && t >= n
      requires lists.IsFree(b) && b in size && t <= size[b].n
      modifies this`size, this`prev, this`books, this`used, this`peak, lists
      ensures p != 0 && p - HEADER in books.live
      ensures used == old(used) + books.live[p - HEADER].room + HEADER && peak == Max(old(peak), used)
      ensures Sound() && Granted(old(books).live, books.live, p, n) && books.flushed == old(books).flushed
      ensures p == b + HEADER && GotListed(p, t, old(Now()))
    {
      hide Shown; hide Shows; hide FillsSegment; hide SpanOf; hide SameBytes;
      hide HeapOk; hide HeadersApart; hide FreeLists.Valid; hide LiveTotal;
      hide SegmentTotal; hide ValidSegmentBlock; hide CacheTotal;
      hide Granted; hide NewSegment; hide SameCache;
      hide TrueSize; hide ValidBlockSize; hide Absorbed; hide LeftOver; hide ServedLists; hide BytesAt; hide KeepsBytes;
      TrueSizeCovers(n);
      ghost var v, bits, size0, m := lists.view, lists.freeBitmap, size, size[b].n;
      lists.HasChains(size);
      ListedFree(Here(), {}, b);
      NearIn({}, b);
      CheckLinkage(b, {});
      TakeFree(b, {});
      ghost var v1, bits1, count := lists.view, lists.freeBitmap, lists.restCount;
      assert {} + {b} == {b};
      AsTagged(Here(), b);
      var got := Carve(b, size[b].n, t, false, Free);
      SameCacheTrans(v, v1, lists.view);
      ServedAs(size0, b, t, bits, v, bits1, v1, lists.freeBitmap, lists.view, count);
      SameCacheTotal(v, lists.view);
      ghost var size1 := size;
      p := Finish(b, n, got);
      StillWhole(size1, b + t);
    }

    /** A free block stays what it is while blocks keep their headers. */
    lemma StillWhole(size1: map<Addr, Tag>, c: Addr)
      requires SameTags(books.home, size1, size)
      ensures FreeBlock(books.home, size1, c) ==> FreeBlock(books.home, size, c) && size[c] == size1[c]
    {
    }

    /** The end of _zend_mm_alloc_int. */
    method Finish(b: Addr, n: nat, got: nat) returns (p: Addr)
      requires Core({b}) && books.lost == {} && CacheOk() && UsedBlock(books.home, size, b) && size[b].n == got
      requires n < WORD && n <= TrueSize(n) <= got < TrueSize(n) + MIN_BLOCK
      requires used == LiveTotal(books.live) + cached + books.flushed && used <= peak && realSize <= realPeak
      modifies this`size, this`prev, this`used, this`peak, this`books, lists
      ensures p != 0 && p == b + HEADER && b in books.live
      ensures used == old(used) + books.live[p - HEADER].room + HEADER && peak == Max(old(peak), used)
      ensures Sound() && Granted(old(books).live, books.live, p, n) && books.flushed == old(books).flushed
      ensures SameTags(books.home, old(size), size) && SameTags(books.home, old(prev), prev)
      ensures lists.view == old(lists.view) && lists.freeBitmap == old(lists.freeBitmap) && books.home == old(books).home
      ensures books.live[b].room + HEADER == got
    {
      hide HeapOk; hide HeadersApart; hide FreeLists.Valid; hide LiveTotal;
      hide SegmentTotal; hide ValidSegmentBlock; hide CacheTotal;
      hide TrueSize;
      TrueSizeCovers(n);
      used := used + got;
      if peak < used {
        peak := used;
      }
      GiveLive(b, n);
      p := b + HEADER;
    }

    /** zend_mm_free. */
    method FreePtr(p: Addr)
      requires Intact() && (p == 0 || (p - HEADER in books.live && p != reserve))
      requires p != 0 && !CachedSoon(p) ==> NearHome(books.home, p - HEADER)
      modifies this`size, this`prev, this`segments, this`realSize, this`cache, this`cached, this`used, this`books, lists
      ensures Intact() && Fewer(old(segments), segments) && books.flushed == old(books).flushed
      ensures p == 0 ==> unchanged(this) && unchanged(lists)
      ensures p != 0 ==> FreedIn(p - HEADER, old(books).live[p - HEADER].room + HEADER, old(Now()))
      ensures p != 0 && !old(CachedSoon(p)) ==> Returned(p - HEADER, old(Now()))
      ensures Tidied(old(Now()), Now())
      ensures books.live == if p == 0 then old(books).live else old(books).live - {p - HEADER}
    {
      hide HeapOk; hide HeadersApart; hide FreeLists.Valid; hide LiveTotal;
      hide SegmentTotal; hide ValidSegmentBlock; hide CacheTotal; hide BeforeNoLost; hide FreedIn; hide Returned; hide Tidied;
      hide HidesBehind; hide Shown;
      assert BeforeNoLost({}, prev, p - HEADER) by {
        NoneLost(prev, p - HEADER);
      }
      FreeInt(p);
    }

    // ---- what a reallocation leaves behind ----

    /** `size` follows from a block of `n0` bytes to block `b`; the cache stays. */
    ghost predicate Accounted(b: Addr, n0: nat, s: Past)
      reads this
    {
      && b in books.live && used == s.used + books.live[b].room + HEADER - n0 && peak == Max(s.peak, used)
      && cache == s.cache && cached == s.cached
    }

    /** Block `b` is large enough, and is cut when enough for a block is left. */
    ghost predicate GotCut(b: Addr, t: nat, s: Past)
      reads this, lists
    {
      && b in s.size && Accounted(b, s.size[b].n, s) && segments == s.segs && realPeak == s.realPeak
      && if s.size[b].n >= t + MIN_BLOCK then Resized(b, t, false, s.size, s.bits, s.view)
         else books.live[b].room + HEADER == s.size[b].n && lists.view == s.view && lists.freeBitmap == s.bits
    }

    /** Block `b` grew into the free block behind it. */
    ghost predicate GotGrown(b: Addr, t: nat, s: Past)
      reads this, lists
    {
      && b in s.size && Accounted(b, s.size[b].n, s) && segments == s.segs && realPeak == s.realPeak
      && Resized(b, t, Fills(s.size, s.prev, b), s.size, s.bits, s.view)
    }

    /** The head of the cache chain for `t` bytes took over, and block `b` went to the cache. */
    ghost predicate GotSwapped(q: Addr, t: nat, b: Addr, s: Past)
      reads this, lists
    {
      && b in s.size && q - HEADER in books.live && books.live[q - HEADER].room + HEADER == t
      && 0 <= BucketIndex(t) < |s.cache| && s.cache[BucketIndex(t)] == Block(q - HEADER)
      && used == s.used && peak == s.peak && cached == s.cached - t + s.size[b].n && segments == s.segs && realPeak == s.realPeak
      && lists.freeBitmap == s.bits
      && exists v1 :: UncachedAs(s.view, v1, q - HEADER, t) && CachedAs(v1, lists.view, b, s.size[b].n)
    }

    /** The segment of block `b` is at `moved` now; what is left over is in the rest ring. */
    ghost predicate GotMoved(q: Addr, t: nat, b: Addr, moved: Addr, s: Past)
      reads this, lists
    {
      var whole := SegmentSize(blockSize, t) - SEGMENT_HEADER - HEADER;
      && whole >= 0 && b in s.size && q == moved + SEGMENT_HEADER + HEADER && Accounted(q - HEADER, s.size[b].n, s)
      && books.live[q - HEADER].room + HEADER == (if whole >= t + MIN_BLOCK then t else whole)
      && realPeak == Max(s.realPeak, realSize)
      && (exists j :: 0 <= j < |s.segs| && s.segs[j].base == b - SEGMENT_HEADER && segments == s.segs[j := Segment(moved, SegmentSize(blockSize, t))])
      && MovedLists(s.size, b, q - HEADER, whole, t, s.bits, s.view, lists.freeBitmap, lists.view)
    }

    /** An allocation of `t` bytes for pointer `q`, from heap `s` to heap `mid`. */
    ghost predicate AllocTo(q: Addr, n1: nat, t: nat, fits: bool, base: Addr, s: Past, mid: Past) {
      var whole := SegmentSize(blockSize, t) - SEGMENT_HEADER - HEADER;
      && mid.cache == s.cache && mid.cached == s.cached && mid.used == s.used + n1 && mid.peak == Max(s.peak, mid.used)
      && mid.realPeak == Max(s.realPeak, SegmentTotal(mid.segs))
      && if fits then
           && q - HEADER in s.size && n1 == (if s.size[q - HEADER].n >= t + MIN_BLOCK then t else s.size[q - HEADER].n)
           && mid.segs == s.segs && ServedLists(s.size, q - HEADER, t, s.bits, s.view, mid.bits, mid.view)
         else
           && whole >= 0 && q == base + SEGMENT_HEADER + HEADER && n1 == (if whole >= t + MIN_BLOCK then t else whole)
           && mid.segs == [Segment(base, SegmentSize(blockSize, t))] + s.segs
           && LeftOver(q - HEADER, whole, t, t > blockSize - (SEGMENT_HEADER + HEADER), s.rests, s.bits, s.view, mid.bits, mid.view)
    }

    /** Another block, and then the old one was released. */
    ghost predicate GotCopy(q: Addr, t: nat, b: Addr, fits: bool, base: Addr, s: Past)
      reads this, lists
    {
      && b in s.size && q - HEADER in books.live
      && exists mid :: AllocTo(q, books.live[q - HEADER].room + HEADER, t, fits, base, s, mid) && FreedIn(b, s.size[b].n, mid)
    }

    /** A reallocation of block `b` that succeeds: where it gets `t` bytes from depends on the
        room there is, first in the block, then in the cache, behind the block, in its segment. */
    ghost predicate Regot(b: Addr, q: Addr, t: nat, hit: bool, fits: bool, base: Addr, moved: Addr, s: Past)
      reads this, lists
    {
      && b in s.size
      && if t <= s.size[b].n then q == b + HEADER && GotCut(b, t, s)
         else if hit then GotSwapped(q, t, b, s)
         else if t <= Span(s.size, b) then q == b + HEADER && GotGrown(b, t, s)
         else if Fills(s.size, s.prev, b) then GotMoved(q, t, b, moved, s)
         else GotCopy(q, t, b, fits, base, s)
    }

    // ---- reallocation ----

    /** The client of block `b` wants `n` bytes, and the room it has will do. */
    ghost method Resize(b: Addr, n: nat)
      requires Sound() && b in books.live && n <= books.live[b].room
      modifies this`books
      ensures Sound() && books == old(books).(live := old(books).live[b := old(books).live[b].(asked := n)])
    {
      hide HeapOk; hide HeadersApart; hide FreeLists.Valid; hide LiveTotal;
      hide SegmentTotal; hide ValidSegmentBlock; hide CacheTotal;
      var x := books.live[b].(asked := n);
      LiveRoom(Here(), {}, b);
      RewriteOk(Here(), b, x, lists.data);
      assert Here().(live := books.live[b := x], data := lists.data) == Here().(live := books.live[b := x]);
      SameTotal(books.live, b, x);
      books := books.(live := books.live[b := x]);
    }

    /** memcpy(ptr, p, size): from the room of block `b` into that of block `c`. */
    method CopyRoom(c: Addr, b: Addr, n: nat)
      requires Sound() && b in books.live && c in books.live && b != c && n <= books.live[b].room && n <= books.live[c].room
      modifies this`books, lists`data
      ensures Sound() && c in books.live && books == old(books).(live := old(books).live[c := old(books).live[c].(body := books.live[c].body)])
      ensures |books.live[c].body| == books.live[c].room && KeepsBytes(old(books).live[b].body[..n], books.live[c].body)
    {
      hide HeapOk; hide HeadersApart; hide FreeLists.Valid; hide LiveTotal;
      hide SegmentTotal; hide ValidSegmentBlock; hide CacheTotal;
      hide Copied;
      ghost var h := Here();
      LiveRoom(h, {}, b);
      LiveRoom(h, {}, c);
      lists.CopyBytes(c + HEADER, b + HEADER, n, size);
      ghost var x := CopiedRoom(h, c, b, n, lists.data);
      HeadersApartLess(size, prev, h.data, lists.data);
      RewriteOk(h, c, x, lists.data);
      SameTotal(books.live, c, x);
      books := books.(live := books.live[c := x]);
      assert Here() == h.(live := books.live, data := lists.data);
    }

    /** The free block behind a used block in hand joins it. */
    method AbsorbFree(b: Addr, n: nat) returns (whole: nat)
      requires Core({b}) && books.lost == {}
      requires UsedBlock(books.home, size, b) && size[b].n == n && b + n in size && size[b + n].kind == Free
      modifies lists, this`books
      ensures InHand(b, whole, Used) && whole == n + size[b + n].n && b + whole in size
      ensures SameCache(old(lists.view), lists.view) && books == old(books).(home := books.home)
      ensures SameBytes(old(lists.data), lists.data, b + HEADER, b + n)
      ensures TookBehind(size, b, old(lists.freeBitmap), old(lists.view), lists.freeBitmap, lists.view)
      ensures RestRing in lists.view.rings && lists.restCount == CountLarge(lists.view.rings[RestRing], size)
    {
      hide HeapOk; hide HeadersApart; hide FreeLists.Valid; hide SegmentTotal;
      hide ValidSegmentBlock; hide SameCache; hide Without; hide OthersKept; hide Absorbed;
      ghost var h := Here();
      RunOne(h, b);
      RunNext(h, {b}, b, n);
      NotOwnedInHand(h, {b}, b);
      TakeFree(b + n, {b});
      KeptAt(h, b + n, lists.data, b);
      RestCounted();
      whole := n + size[b + n].n;
      MergeOk(Here(), {b} + {b + n}, b, b + whole, Used);
      books := books.(home := Without(books.home, b, b + whole));
    }

    lemma RestCounted()
      requires lists.Valid(size)
      ensures RestRing in lists.view.rings && lists.restCount == CountLarge(lists.view.rings[RestRing], size)
    {
      hide ViewOk; hide CountLarge; hide LinksApart;
    }

    /** The end of a reallocation that keeps the bytes where they are: block `b`, of `got`
        bytes, takes the place of the client's block `b0` of `orig` bytes. */
    method Replace(b: Addr, n: nat, got: nat, orig: nat, ghost b0: Addr, ghost live0: Live)
      requires Core({b}) && books.lost == {} && CacheOk() && UsedBlock(books.home, size, b) && size[b].n == got
      requires b0 in live0 && books.live == live0 - {b0} && live0[b0].room + HEADER == orig && |live0[b0].body| == live0[b0].room
      requires n < WORD && n <= TrueSize(n) <= got < TrueSize(n) + MIN_BLOCK
      requires used == LiveTotal(live0) + cached + books.flushed && used <= peak && realSize <= realPeak
      requires BytesAt(lists.data, b + HEADER, Fitting(live0[b0].body, got - HEADER))
      modifies this`size, this`prev, this`used, this`peak, this`books, lists
      ensures Sound() && Regranted(live0, books.live, b0 + HEADER, b + HEADER, n) && books.flushed == old(books).flushed
      ensures used == old(used) + got - orig && peak == Max(old(peak), used)
      ensures SameTags(books.home, old(size), size) && SameTags(books.home, old(prev), prev)
      ensures lists.view == old(lists.view) && lists.freeBitmap == old(lists.freeBitmap) && books.home == old(books).home
      ensures b in books.live && books.live[b].room + HEADER == got
    {
      hide HeapOk; hide HeadersApart; hide FreeLists.Valid; hide LiveTotal;
      hide SegmentTotal; hide ValidSegmentBlock; hide CacheTotal;
      hide BytesAt; hide SameBytes;
      hide TrueSize;
      TrueSizeCovers(n);
      LiveTotalRemove(live0, b0);
      used := used + got - orig;
      if peak < used {
        peak := used;
      }
      ghost var data0 := lists.data;
      GiveLive(b, n);
      KeptBytes(data0, lists.data, b + HEADER, live0[b0].body, books.live[b].body);
    }

    /** The bytes of block `b` and of a free block behind it. */
    function SpanOf(b: Addr): nat
      reads this`size
    {
      Span(size, b)
    }

    /** Block `b` got `t` bytes of those that it and a free block behind it had, or all when
        what is left would be no block. */
    ghost predicate Resized(b: Addr, t: nat, rest: bool, size0: map<Addr, Tag>, bits: nat, v: View)
      reads this`books, this`size, this`realSize, this`limit, lists
    {
      && b in books.live && books.live[b].room + HEADER == (if Span(size0, b) >= t + MIN_BLOCK then t else Span(size0, b))
      && (Span(size0, b) >= t + MIN_BLOCK && !rest ==> ListedWhole(b + t, Span(size0, b) - t))
      && ResizedLists(size0, b, t, rest, bits, v, lists.freeBitmap, lists.view)
      && (!rest ==> TailServes(Span(size0, b) - t, bits, v))
    }

    /** What is left over serves requests, if its bucket was shown right. */
    ghost predicate TailServes(left: int, bits: nat, v: View)
      reads this`size, this`realSize, this`limit, lists
    {
      left >= MIN_BLOCK && (SmallSize(left) ==> Shows(bits, v.rings, BucketIndex(left))) ==> ServesUpTo(left)
    }

    lemma ResizedServes(b: Addr, t: nat, size0: map<Addr, Tag>, bits: nat, v: View)
      requires Core({}) && ResizedLists(size0, b, t, false, bits, v, lists.freeBitmap, lists.view)
      requires Span(size0, b) >= t + MIN_BLOCK ==> ListedWhole(b + t, Span(size0, b) - t)
      requires b in size0 && ValidBlockSize(size0[b].n) && ValidBlockSize(t) && size0[b].n != t
      ensures TailServes(Span(size0, b) - t, bits, v)
    {
      hide HeapOk; hide HeadersApart; hide FreeLists.Valid; hide SegmentTotal; hide ValidSegmentBlock; hide ServesUpTo; hide Shows;
      hide ResizedLists;
      ghost var left := Span(size0, b) - t;
      if left >= MIN_BLOCK && (SmallSize(left) ==> Shows(bits, v.rings, BucketIndex(left))) {
        if SmallSize(left) {
          ResizedShows(size0, b, t, false, bits, v, lists.freeBitmap, lists.view, BucketIndex(left));
        }
        ListedServes(b + t, left);
      }
    }

    lemma ValidTrueSize(n: nat)
      requires n < WORD && n <= TrueSize(n)
      ensures ValidBlockSize(TrueSize(n))
    {
      TrueSizeCovers(n);
    }

    /** The block shrinks by enough for a free block behind it. */
    method Shrink(b: Addr, n: nat, t: nat)
      requires Sound() && b in books.live && n < WORD && t == TrueSize(n) && t >= n
      requires b in size && t + MIN_BLOCK <= size[b].n
      modifies this`size, this`prev, this`books, this`used, this`peak, lists
      ensures Sound() && Regranted(old(books).live, books.live, b + HEADER, b + HEADER, n) && books.flushed == old(books).flushed
      ensures GotCut(b, t, old(Now()))
    {
      hide HeapOk; hide HeadersApart; hide FreeLists.Valid; hide LiveTotal;
      hide SegmentTotal; hide ValidSegmentBlock; hide CacheTotal;
      hide SameCache; hide Regranted; hide BytesAt; hide SameBytes; hide BeforeNoLost; hide SameTags;
      hide TrueSize; hide ValidBlockSize; hide ResizedLists; hide TailServes;
      TrueSizeCovers(n);
      BehindLive(Here(), b);
      var orig := size[b].n;
      NoneLost(prev, b);
      TakeLive(b, {});
      assert {} + {b} == {b};
      CutTail(b, orig, t, old(books).live[b].body);
      ghost var size2 := size;
      Replace(b, n, t, orig, b, old(books).live);
      StillWhole(size2, b + t);
      ValidTrueSize(n);
      ResizedServes(b, t, old(size), old(lists.freeBitmap), old(lists.view));
    }

    /** What is behind the first `t` bytes of block `b` becomes a free block, together with a
        free block there. */
    method CutTail(b: Addr, orig: nat, t: nat, ghost body: seq<bv8>)
      requires Core({b}) && books.lost == {} && CacheOk() && UsedBlock(books.home, size, b) && size[b].n == orig
      requires b + orig in size && ValidBlockSize(t) && t + MIN_BLOCK <= orig
      requires |body| + HEADER == orig && BytesAt(lists.data, b + HEADER, body)
      modifies this`size, this`prev, this`books, lists
      ensures Core({b}) && CacheOk() && UsedBlock(books.home, size, b) && size[b].n == t && books == old(books).(home := books.home)
      ensures BytesAt(lists.data, b + HEADER, Fitting(body, t - HEADER))
      ensures ListedWhole(b + t, old(SpanOf(b)) - t)
      ensures ResizedLists(old(size), b, t, false, old(lists.freeBitmap), old(lists.view), lists.freeBitmap, lists.view)
    {
      hide HeapOk; hide HeadersApart; hide FreeLists.Valid; hide LiveTotal;
      hide SegmentTotal; hide ValidSegmentBlock; hide CacheTotal;
      hide SameCache; hide BytesAt; hide SameBytes; hide ValidBlockSize; hide ResizedLists; hide Absorbed; hide Entered;
      ghost var v, data0, bits, size0 := lists.view, lists.data, lists.freeBitmap, size;
      lists.HasChains(size);
      var whole := orig;
      SameCacheRefl(v);
      if size[b + orig].kind == Free {
        whole := AbsorbFree(b, orig);
      } else {
        AsTagged(Here(), b);
        NotOwnedInHand(Here(), {b}, b);
        SameBytesRefl(data0, b + HEADER, b + orig);
        NothingTaken(size, b, bits, v);
        RestCounted();
      }
      ghost var v1, data1, bits1, count := lists.view, lists.data, lists.freeBitmap, lists.restCount;
      CarveCut(b, whole, t, false, Used);
      ResizedAs(size0, b, t, false, bits, v, bits1, v1, lists.freeBitmap, lists.view, count);
      SameCacheTrans(v, v1, lists.view);
      SameCacheTotal(v, lists.view);
      MinimalBlock(t);
      StillThere(data0, data1, lists.data, b, body, t);
    }

    /** The free block behind is large enough. */
    method GrowInPlace(b: Addr, n: nat, t: nat)
      requires Sound() && b in books.live && n < WORD && t == TrueSize(n) && t >= n
      requires b in size && b + size[b].n in size && size[b + size[b].n].kind == Free && size[b].n < t <= size[b].n + size[b + size[b].n].n
      modifies this`size, this`prev, this`books, this`used, this`peak, lists
      ensures Sound() && Regranted(old(books).live, books.live, b + HEADER, b + HEADER, n) && books.flushed == old(books).flushed
      ensures GotGrown(b, t, old(Now()))
    {
      hide LeftOver; hide TookBehind;
      hide KeepsBytes; hide Shown; hide Shows;
      hide HeapOk; hide HeadersApart; hide FreeLists.Valid; hide LiveTotal;
      hide SegmentTotal; hide ValidSegmentBlock; hide CacheTotal;
      hide SameCache; hide Regranted; hide BytesAt; hide SameBytes; hide BeforeNoLost;
      hide TrueSize; hide ValidBlockSize; hide ResizedLists; hide TailServes;
      TrueSizeCovers(n);
      BehindLive(Here(), b);
      var orig := size[b].n;
      NoneLost(prev, b);
      TakeLive(b, {});
      assert {} + {b} == {b};
      var got := TakeBehind(b, orig, t, old(books).live[b].body);
      ghost var size2 := size;
      Replace(b, n, got, orig, b, old(books).live);
      StillWhole(size2, b + t);
      ValidTrueSize(n);
      if !old(FillsSegment(b)) {
        ResizedServes(b, t, old(size), old(lists.freeBitmap), old(lists.view));
      }
    }

    /** The free block behind block `b` joins it, but for what is left over. */
    method TakeBehind(b: Addr, orig: nat, t: nat, ghost body: seq<bv8>) returns (got: nat)
      requires Core({b}) && books.lost == {} && CacheOk() && UsedBlock(books.home, size, b) && size[b].n == orig
      requires b + orig in size && size[b + orig].kind == Free && ValidBlockSize(t) && t <= orig + size[b + orig].n
      requires |body| + HEADER == orig && BytesAt(lists.data, b + HEADER, body)
      modifies this`size, this`prev, this`books, lists
      ensures Core({b}) && CacheOk() && UsedBlock(books.home, size, b) && size[b].n == got && t <= got < t + MIN_BLOCK
      ensures got == if old(SpanOf(b)) >= t + MIN_BLOCK then t else old(SpanOf(b))
      ensures old(SpanOf(b)) >= t + MIN_BLOCK && !old(FillsSegment(b)) ==> ListedWhole(b + t, old(SpanOf(b)) - t)
      ensures ResizedLists(old(size), b, t, old(FillsSegment(b)), old(lists.freeBitmap), old(lists.view), lists.freeBitmap, lists.view)
      ensures books == old(books).(home := books.home) && BytesAt(lists.data, b + HEADER, Fitting(body, got - HEADER))
    {
      hide HeapOk; hide HeadersApart; hide FreeLists.Valid; hide LiveTotal; hide SegmentTotal; hide ValidSegmentBlock; hide CacheTotal;
      hide SameCache; hide BytesAt; hide SameBytes; hide ValidBlockSize; hide ResizedLists; hide Absorbed; hide LeftOver; hide TookBehind;
      ghost var v, data0, bits, size0 := lists.view, lists.data, lists.freeBitmap, size;
      lists.HasChains(size);
      BehindHand(Here(), b);
      var whole := AbsorbFree(b, orig);
      ghost var v1, data1, bits1, count := lists.view, lists.data, lists.freeBitmap, lists.restCount;
      var rest := prev[b] == FIRST && size[b + whole].kind == Guard;
      got := Carve(b, whole, t, rest, Used);
      ResizedAs(size0, b, t, rest, bits, v, bits1, v1, lists.freeBitmap, lists.view, count);
      SameCacheTrans(v, v1, lists.view);
      SameCacheTotal(v, lists.view);
      MinimalBlock(t);
      StillThere(data0, data1, lists.data, b, body, got);
    }

    /** A cached block of the new size takes over; the old block goes to the cache. */
    method SwapCached(b: Addr, n: nat, t: nat, index: nat) returns (q: Addr)
      requires Sound() && b in books.live && n < WORD && t == TrueSize(n) && t >= n
      requires index < NUM_BUCKETS && ClassSize(index) == t && SmallSize(t) && cache[index] != Null && b in size && size[b].n < t
      modifies this`size, this`prev, this`cache, this`cached, this`books, lists
      ensures GotSwapped(q, t, b, old(Now()))
      ensures Sound() && q != 0 && Regranted(old(books).live, books.live, b + HEADER, q, n) && books.flushed == old(books).flushed
    {
      hide HeapOk; hide HeadersApart; hide FreeLists.Valid; hide LiveTotal;
      hide SegmentTotal; hide ValidSegmentBlock; hide CacheTotal;
      hide BeforeNoLost; hide BytesAt;
      hide TrueSize; hide ValidBlockSize; hide Granted; hide Regranted; hide KeepsBytes; hide UncachedAs; hide CachedAs;
      TrueSizeCovers(n);
      BehindLive(Here(), b);
      q := FromCache(index, n);
      GrantedIs(old(books).live, books.live, q, n);
      ghost var live1, v1 := books.live, lists.view;
      CacheInto(q - HEADER, b);
      CopiedGrant(old(books).live, live1, books.live, b, q, n);
    }

    /** The bytes of block `b` move into block `c`, and block `b` goes to the cache, whether
        there is room in it or not. */
    method CacheInto(c: Addr, b: Addr)
      requires Sound() && b in books.live && c in books.live && b != c && books.live[b].room <= books.live[c].room
      requires SmallSize(books.live[b].room + HEADER) && cached + books.live[b].room + HEADER < CACHE_SIZE + MAX_SMALL
      modifies this`size, this`prev, this`cache, this`cached, this`books, lists
      ensures Sound() && books.flushed == old(books).flushed
      ensures c in books.live && books.live == old(books).live[c := books.live[c]] - {b}
      ensures books.live[c] == old(books).live[c].(body := books.live[c].body)
      ensures KeepsBytes(old(books).live[b].body, books.live[c].body)
      ensures cached == old(cached) + old(books).live[b].room + HEADER && lists.freeBitmap == old(lists.freeBitmap)
      ensures CachedAs(old(lists.view), lists.view, b, old(books).live[b].room + HEADER)
    {
      hide HeapOk; hide HeadersApart; hide FreeLists.Valid; hide LiveTotal; hide SegmentTotal; hide CacheTotal; hide ValidSegmentBlock;
      hide BeforeNoLost; hide BytesAt; hide KeepsBytes; hide ValidBlockSize; hide SmallSize; hide CachedAs;
      BehindLive(Here(), b);
      var orig := size[b].n;
      CopyRoom(c, b, orig - HEADER);
      assert old(books).live[b].body[..orig - HEADER] == old(books).live[b].body;
      NoneLost(prev, b);
      TakeLive(b, {});
      assert {} + {b} == {b};
      FreeToCache(b, orig);
    }

    /** The block behind block `b` is free. */
    predicate FreeBehind(b: Addr)
      reads this
    {
      b in size && b + size[b].n in size && size[b + size[b].n].kind == Free
    }

    /** Block `b` and at most one free block behind it fill their segment. */
    predicate FillsSegment(b: Addr)
      reads this`size, this`prev
    {
      Fills(size, prev, b)
    }

    /** A live block fills its segment when all but the guard and a free block right behind it
        is that block. */
    lemma FillsExactly(b: Addr)
      requires Core({}) && books.lost == {} && b in books.live
      ensures b in books.home && b in size
      ensures FillsSegment(b) <==> forall x :: x in books.home && books.home[x] == books.home[b] && x in size && size[x].kind != Guard ==>
        x == b || (x == b + size[b].n && size[x].kind == Free)
    {
      hide FreeLists.Valid; hide HeadersApart; hide SegmentTotal; hide ValidSegmentBlock;
      FillsAlone(Here(), b);
      hide HeapOk;
    }

    /** What storage may answer when segment `j` is to become `n` bytes long: NULL or the
        segment at its old or a new place. */
    ghost predicate StorageMoves(j: nat, moved: Addr, n: nat)
      requires j < |segments|
      reads this
    {
      moved == 0 || (NewSegment(Remove(segments, j), Segment(moved, n)) && realSize + n < WORD)
    }

    /** Segment `j` moves or is resized; its block, in hand, goes with it. */
    method MoveSegment(b: Addr, n: nat, j: nat, moved: Addr, n': nat, ghost hand: set<Addr>) returns (b': Addr, whole: nat)
      requires Core(hand) && books.lost == {} && Run(Here(), hand, b, n) && prev[b] == FIRST && size[b + n].kind == Guard
      requires j < |segments| && segments[j] == books.home[b] && segments[j].base == b - SEGMENT_HEADER
      requires NewSegment(Remove(segments, j), Segment(moved, n')) && n + SEGMENT_HEADER + HEADER <= n'
      modifies this`segments, this`size, this`prev, this`realSize, this`realPeak, this`books, lists
      ensures InHand(b', whole, Free) && whole == n' - SEGMENT_HEADER - HEADER && b' == moved + SEGMENT_HEADER
      ensures Bounded(b', b' + whole)
      ensures books == old(books).(home := books.home) && lists.view == old(lists.view)
      ensures lists.freeBitmap == old(lists.freeBitmap) && lists.restCount == old(lists.restCount)
      ensures segments == old(segments)[j := Segment(moved, n')] && realPeak == Max(old(realPeak), realSize)
      ensures ShiftedBytes(old(lists.data), b, lists.data, b', n)
    {
      hide HeapOk; hide HeadersApart; hide FreeLists.Valid; hide SegmentTotal;
      hide ValidSegmentBlock; hide NewSegment; hide Grown; hide Tagged;
      hide Remove; hide DropSegment; hide Run; hide Relocated; hide ShiftedBytes; hide ButHeaders;
      ghost var s, s0, data0 := Segment(moved, n'), segments[j], lists.data;
      SegmentTotalUpdate(segments, j, s);
      ghost var h := MoveMemory(b, n, j, moved, n', hand);
      ghost var data1 := lists.data;
      realSize := realSize + n' - segments[j].size;
      if realSize > realPeak {
        realPeak := realSize;
      }
      var markFirst := moved != segments[j].base;
      segments := segments[j := Segment(moved, n')];
      GrownAs(h, Here().(home := h.home), segments, s);
      MarkSegment(moved, n', markFirst, DropSegment(books.home, s0));
      b' := moved + SEGMENT_HEADER;
      whole := n' - SEGMENT_HEADER - HEADER;
      GrownKeep(h, segments, s, lists.data);
      SegmentShifted(data0, data1, lists.data, s0, s, n);
    }

    /** The memory of segment `j` moves; `h` is the heap without the segment afterwards. */
    method MoveMemory(b: Addr, n: nat, j: nat, moved: Addr, n': nat, ghost hand: set<Addr>) returns (ghost h: Heap)
      requires Core(hand) && books.lost == {} && Run(Here(), hand, b, n) && prev[b] == FIRST && size[b + n].kind == Guard
      requires j < |segments| && segments[j] == books.home[b] && segments[j].base == b - SEGMENT_HEADER
      requires NewSegment(Remove(segments, j), Segment(moved, n'))
      modifies this`size, this`prev, lists
      ensures Base() && lists.view == old(lists.view) && lists.freeBitmap == old(lists.freeBitmap) && lists.restCount == old(lists.restCount)
      ensures h == Here().(segs := Remove(segments, j), home := DropSegment(books.home, segments[j]))
      ensures var s := Segment(moved, n'); var h' := Grown(h, segments[j := s], s);
        && FirstSize(s) >= 0 && s.First() + FirstSize(s) == s.Last()
        && HeapOk(Tagged(h', s.First(), Tag(FirstSize(s), Free)), {s.First()})
        && s.First() in h'.home && Block(s.First()) !in lists.view.owner && Block(s.Last()) !in lists.view.owner
      ensures lists.data == Relocated(old(lists.data), segments[j].base, segments[j].size, moved, n', SEGMENT_HEADER + HEADER)
      ensures moved == segments[j].base ==> prev[moved + SEGMENT_HEADER := FIRST] == prev
      ensures segments[j].First() == b && segments[j].First() + n == segments[j].Last()
    {
      hide HeapOk; hide HeadersApart; hide FreeLists.Valid; hide SegmentTotal;
      hide ValidSegmentBlock; hide NewSegment; hide Grown;
      hide Remove; hide DropSegment; hide Run; hide Relocated;
      ghost var h0 := Here();
      ReplacedOut(h0, hand, j, b, n);
      OldSegment(h0, hand, j);
      ghost var h1 := Dropped(h0, Remove(segments, j), segments[j]);
      Realloc(segments[j].base, segments[j].size, moved, n', h1);
      h := h1.(size := size, prev := prev, data := lists.data);
      ReplacedIn(h, segments, j, Segment(moved, n'));
    }

    /** ZEND_MM_STORAGE_REALLOC; `h1` is the heap without the segment. */
    method Realloc(from: Addr, n: nat, moved: Addr, n': nat, ghost h1: Heap)
      requires lists.Valid(size) && lists.restCount <= MAX_REST_BLOCKS && HeadersApart(size, prev, lists.data)
      requires h1 == Heap(h1.segs, h1.home, size, prev, lists.view.owner, h1.live, lists.data, {}) && HeapOk(h1, {})
      requires NewSegment(h1.segs, Segment(from, n)) && NewSegment(h1.segs, Segment(moved, n'))
      modifies this`size, this`prev, lists
      ensures lists.Valid(size) && lists.view == old(lists.view) && lists.restCount == old(lists.restCount) &&
        lists.freeBitmap == old(lists.freeBitmap) &&
        HeadersApart(size, prev, lists.data)
      ensures HeapOk(h1.(size := size, prev := prev, data := lists.data), {})
      ensures lists.data == Relocated(old(lists.data), from, n, moved, n', SEGMENT_HEADER + HEADER)
      ensures moved == from ==> (old(prev)[moved + SEGMENT_HEADER := FIRST] == old(prev) ==> prev[moved + SEGMENT_HEADER := FIRST] == prev)
    {
      hide HeapOk; hide HeadersApart; hide FreeLists.Valid; hide TagsOutside; hide SameSizes; hide ListsOutside; hide Relocated;
      hide NewSegment;
      var skip := SEGMENT_HEADER + HEADER;
      NewSegmentAligned(h1.segs, Segment(moved, n'));
      MovedOk(h1, Segment(from, n), Segment(moved, n'), Relocated(lists.data, from, n, moved, n', skip));
      lists.Relocate(size, from, n, moved, n', skip);
      RelocatedIs(old(lists.data), from, n, moved, n', skip);
      HeadersForgotten(size, prev, old(lists.data), moved + skip, moved + n', lists.data);
      lists.ValidFrame(size, TagsOutside(size, 0, moved + skip, moved + n'));
      FirstKept(prev, moved + SEGMENT_HEADER, moved + skip, moved + n');
      size, prev := TagsOutside(size, 0, moved + skip, moved + n'), TagsOutside(prev, PREV_SIZE, moved + skip, moved + n');
    }

    /** When `realloc_segment` does not ask storage. */
    ghost predicate PastLimit(b: Addr, t: nat)
      reads this
    {
      || SegmentSize(blockSize, t) < t
      || (b in books.home && Wrap(realSize + SegmentSize(blockSize, t) - books.home[b].size) > limit)
    }

    /** What is left when storage fails after the free block behind was unlinked: everything
        but that block, which is in no list any more (zend_alloc.c:2281-2293). */
    ghost predicate Stranded(next: Addr)
      reads this, lists
    {
      && Counted() && Near() && reserve == 0 && books.lost == {next}
      && FreeBlock(books.home, size, next) && Block(next) !in lists.view.owner
    }

    /** `realloc_segment`: the block grows with its segment. */
    method GrowSegment(b: Addr, n: nat, t: nat, moved: Addr) returns (q: Addr)
      requires FillsSegment(b) && size[b].n < t && b in books.home && n < WORD && t == TrueSize(n) && t >= n
      requires FreeBehind(b) ==> size[b].n + size[b + size[b].n].n < t
      requires b in books.live && b + HEADER != reserve
      requires forall j :: 0 <= j < |segments| && segments[j].base == b - SEGMENT_HEADER ==>
        StorageMoves(j, moved, SegmentSize(blockSize, t))
      requires Valid()
      modifies this, lists
      ensures if moved == 0 && !old(PastLimit(b, t)) && old(FreeBehind(b)) then Stranded(b + HEADER + old(books).live[b].room)
              else Intact() && (Near() <==> q == 0 || SegmentSize(blockSize, t) < FAR)
      ensures q != 0 ==> Regranted(old(books).live, books.live, b + HEADER, q, n)
      ensures books.flushed == old(books).flushed + (if q == 0 then old(cached) else 0)
      ensures q == 0 ==> books.live == AfterError(old(books).live, old(reserve))
      ensures q == 0 <==> moved == 0 || old(PastLimit(b, t))
      ensures q == 0 ==> Tidied(old(Now()), Now())
      ensures q != 0 ==> GotMoved(q, t, b, moved, old(Now()))
      ensures reserve == (if q == 0 then 0 else old(reserve)) && limit == old(limit)
    {
      hide KeepsBytes; hide ListedWhole; hide Shown; hide Shows;
      hide HeapOk; hide HeadersApart; hide FreeLists.Valid; hide LiveTotal;
      hide SegmentTotal; hide CacheTotal; hide ValidSegmentBlock;
      hide SameCache; hide KeepsBytes; hide StorageMoves; hide TrueSize; hide SegmentSize; hide GotMoved;
      hide TookBehind; hide CountLarge; hide Tidied; hide Regranted;
      BehindLive(Here(), b);
      var next := b + size[b].n;
      var free := size[next].kind == Free;
      DetachBehind(b, free);
      ghost var past := Now();
      var j := IndexOfHome(b, if free then {next} else {});
      var segmentSize := SegmentSize(blockSize, t);
      if segmentSize < t || Wrap(realSize + segmentSize - segments[j].size) > limit {
        FailMove(next, free);
        TidiedTrans(old(Now()), past, Now());
        return 0;
      }
      if moved == 0 {
        FailStorage(b, next, free);
        TidiedTrans(old(Now()), past, Now());
        return 0;
      }
      q := MoveAlong(b, n, t, j, moved, free, old(Now()));
    }

    /** `realloc_segment` when storage has moved the segment; `s` is the heap before. */
    method MoveAlong(b: Addr, n: nat, t: nat, j: nat, moved: Addr, free: bool, ghost s: Past) returns (q: Addr)
      requires b in size && b + size[b].n in size && (reserve == 0 || reserve - HEADER in books.live) && reserve != b + HEADER
      requires b in books.live && n < WORD && t == TrueSize(n) && t >= n && FillsSegment(b) && size[b].n < t && b in books.home
      requires free <==> size[b + size[b].n].kind == Free
      requires j < |segments| && segments[j] == books.home[b] && segments[j].base == b - SEGMENT_HEADER
      requires books.lost == {} && Near() && size[b].n == books.live[b].room + HEADER
      requires free ==> size[b].n + size[b + size[b].n].n < t
      requires Core(if free then {b + size[b].n} else {}) && CacheOk() && Counters()
      requires moved != 0 && StorageMoves(j, moved, SegmentSize(blockSize, t)) && SegmentSize(blockSize, t) >= t
      requires s == Now().(bits := s.bits, view := s.view, rests := s.rests)
      requires TookBehind(size, b, s.bits, s.view, lists.freeBitmap, lists.view)
      requires RestRing in lists.view.rings && lists.restCount == CountLarge(lists.view.rings[RestRing], size)
      modifies this`segments, this`size, this`prev, this`realSize, this`realPeak, this`used, this`peak, this`books, lists
      ensures Intact() && (Near() <==> SegmentSize(blockSize, t) < FAR)
      ensures q != 0 && Regranted(old(books).live, books.live, b + HEADER, q, n) && books.flushed == old(books).flushed
      ensures GotMoved(q, t, b, moved, s)
    {
      hide HeapOk; hide HeadersApart; hide FreeLists.Valid; hide LiveTotal; hide SegmentTotal; hide CacheTotal; hide ValidSegmentBlock;
      hide SameCache; hide StorageMoves; hide TrueSize; hide SegmentSize; hide GotMoved; hide GotCarved; hide TookBehind; hide CountLarge;
      hide Regranted; hide FillsSegment;
      ghost var bits1, v1 := lists.freeBitmap, lists.view;
      NearReplace(segments, j, Segment(moved, SegmentSize(blockSize, t)));
      q := MoveBlock(b, n, t, j, moved, free);
      ReserveStays(old(books).live, books.live, b + HEADER, q, n, reserve);
      MovedIs(q, b, n, t, j, moved, bits1, v1, s, old(books).live);
    }


    lemma MovedIs(q: Addr, b: Addr, n: nat, t: nat, j: nat, moved: Addr, bits1: nat, v1: View, s: Past, live0: Live)
      requires b in live0 && b in s.size && live0[b].room + HEADER == s.size[b].n
      requires TookBehind(s.size, b, s.bits, s.view, bits1, v1) && RestRing in v1.rings
      requires j < |s.segs| && s.segs[j].base == b - SEGMENT_HEADER && segments == s.segs[j := Segment(moved, SegmentSize(blockSize, t))]
      requires GotCarved(q, t, b, moved, CountLarge(v1.rings[RestRing], s.size), bits1, v1, s.used, s.peak, s.realPeak, live0)
      requires cache == s.cache && cached == s.cached
      ensures GotMoved(q, t, b, moved, s)
    {
      hide SegmentSize; hide LeftOver; hide TookBehind; hide CountLarge;
      MovedAs(s.size, b, q - HEADER, SegmentSize(blockSize, t) - SEGMENT_HEADER - HEADER, t, s.bits, s.view, bits1, v1,
              lists.freeBitmap, lists.view);
    }

    /** The free block behind block `b`, if there is one, leaves its list. */
    method DetachBehind(b: Addr, free: bool)
      requires Core({}) && CacheOk() && b in size && b + size[b].n in size
      requires free <==> size[b + size[b].n].kind == Free
      requires free ==> lists.IsFree(b + size[b].n)
      modifies lists
      ensures Core(if free then {b + size[b].n} else {}) && CacheOk()
      ensures free ==> FreeBlock(books.home, size, b + size[b].n) && Block(b + size[b].n) !in lists.view.owner
      ensures free ==> ValidBlockSize(size[b + size[b].n].n) && size[b + size[b].n].n < WORD
      ensures Tidied(old(Now()), Now())
      ensures TookBehind(size, b, old(lists.freeBitmap), old(lists.view), lists.freeBitmap, lists.view)
      ensures RestRing in lists.view.rings && lists.restCount == CountLarge(lists.view.rings[RestRing], size)
    {
      hide HeapOk; hide HeadersApart; hide FreeLists.Valid; hide SegmentTotal; hide CacheTotal; hide ValidSegmentBlock; hide Absorbed;
      hide ValidBlockSize; hide CountLarge; hide Tidied; hide TookBehind;
      ghost var bits0, v0 := lists.freeBitmap, lists.view;
      if free {
        Detach(b + size[b].n);
        AbsorbedBehind(size, b, bits0, v0, lists.freeBitmap, lists.view);
      } else {
        NothingTaken(size, b, bits0, v0);
      }
      RestCounted();
      TidiedTook(old(Now()), Now(), b);
    }

    /** `realloc_segment` beyond the limit: the free block goes back to its list. */
    method FailMove(next: Addr, free: bool)
      requires Near()
      requires free ==> FreeBlock(books.home, size, next) && Block(next) !in lists.view.owner
      requires free ==> ValidBlockSize(size[next].n) && size[next].n < WORD
      requires books.lost == {}
      requires Core(if free then {next} else {}) && CacheOk() && Counters() && (reserve == 0 || reserve - HEADER in books.live)
      modifies this`size, this`prev, this`segments, this`realSize, this`cache, this`cached, this`used, this`reserve, this`books, lists
      ensures Intact() && Near() && reserve == 0 && books.live == AfterError(old(books).live, old(reserve))
      ensures books.flushed == old(books).flushed + old(cached) && Tidied(old(Now()), Now())
    {
      hide HeapOk; hide HeadersApart; hide FreeLists.Valid; hide LiveTotal;
      hide SegmentTotal; hide CacheTotal; hide ValidSegmentBlock;
      hide BeforeNoLost; hide Tidied;
      StartsTidy();
      if free {
        Attach(next);
      }
      ghost var past := Now();
      FreeCache();
      TidiedTrans(old(Now()), past, Now());
      past := Now();
      NoneLost(prev, reserve - HEADER);
      SafeError();
      TidiedTrans(old(Now()), past, Now());
    }

    /** `realloc_segment` when storage fails: the free block stays where it is, in no list. */
    method FailStorage(b: Addr, next: Addr, free: bool)
      requires Near()
      requires FillsSegment(b) && next == b + size[b].n && (free <==> FreeBehind(b))
      requires books.lost == {} && b in books.live && b + HEADER != reserve && next == b + HEADER + books.live[b].room
      requires free ==> FreeBlock(books.home, size, next)
      requires Core(if free then {next} else {}) && CacheOk() && Counters() && (reserve == 0 || reserve - HEADER in books.live)
      modifies this`size, this`prev, this`segments, this`realSize, this`cache, this`cached, this`used, this`reserve, this`books, lists
      ensures reserve == 0 && books.live == AfterError(old(books).live, old(reserve))
      ensures books.flushed == old(books).flushed + old(cached) && Tidied(old(Now()), Now())
      ensures if free then Stranded(next) else Intact() && Near()
    {
      hide HeapOk; hide HeadersApart; hide FreeLists.Valid; hide LiveTotal;
      hide SegmentTotal; hide CacheTotal; hide ValidSegmentBlock;
      hide BeforeNoLost; hide Tidied;
      StartsTidy();
      NoneLost(prev, reserve - HEADER);
      if free {
        LoseOk(Here(), next, b);
        books := books.(lost := {next});
      }
      ghost var past := Now();
      FreeCache();
      TidiedTrans(old(Now()), past, Now());
      past := Now();
      if free && reserve != 0 {
        LostBehind(Here(), next, b, reserve - HEADER);
      } else {
        NoneLost(prev, reserve - HEADER);
      }
      SafeError();
      TidiedTrans(old(Now()), past, Now());
      if free {
        LostIsUnlisted(Here(), next);
      }
    }

    method Detach(next: Addr)
      requires Core({}) && CacheOk() && lists.IsFree(next)
      modifies lists
      ensures Core({next}) && CacheOk() && FreeBlock(books.home, size, next) && Block(next) !in lists.view.owner
      ensures ValidBlockSize(size[next].n) && size[next].n < WORD
      ensures Absorbed(size, true, next, size[next].n, old(lists.freeBitmap), old(lists.view), lists.freeBitmap, lists.view)
    {
      hide HeapOk; hide HeadersApart; hide FreeLists.Valid; hide SegmentTotal;
      hide CacheTotal; hide ValidSegmentBlock; hide SameCache;
      hide ValidBlockSize; hide Absorbed;
      ghost var v := lists.view;
      lists.HasChains(size);
      TakeFree(next, {});
      assert {} + {next} == {next};
      SameCacheTotal(v, lists.view);
      FreeSize(Here(), {next}, next);
    }

    method Attach(next: Addr)
      requires Core({next}) && CacheOk() && FreeBlock(books.home, size, next) && Block(next) !in lists.view.owner
      requires ValidBlockSize(size[next].n) && size[next].n < WORD
      modifies lists
      ensures Core({}) && CacheOk() && Tidied(old(Now()), Now())
    {
      hide HeapOk; hide HeadersApart; hide FreeLists.Valid; hide SegmentTotal;
      hide CacheTotal; hide ValidSegmentBlock; hide SameCache;
      hide ValidBlockSize; hide Entered; hide Tidied;
      ghost var v := lists.view;
      lists.HasChains(size);
      ghost var count := lists.restCount;
      GiveFree(next, false, {next});
      TidiedEntered(old(Now()), Now(), next, size[next].n, count);
      assert {next} - {next} == {};
      SameCacheTotal(v, lists.view);
    }

    /** The block of a segment that moved: the first `t` of its bytes, or all. */
    ghost predicate GotCarved(q: Addr, t: nat, b: Addr, moved: Addr, count: nat, bits: nat, v: View,
                              used0: nat, peak0: nat, realPeak0: nat, live0: Live)
      reads this, lists
    {
      var whole := SegmentSize(blockSize, t) - SEGMENT_HEADER - HEADER;
      && q == moved + SEGMENT_HEADER + HEADER && q - HEADER in books.live && b in live0 && realPeak == Max(realPeak0, realSize)
      && used == used0 + books.live[q - HEADER].room - live0[b].room && peak == Max(peak0, used)
      && whole >= 0 && books.live[q - HEADER].room + HEADER == (if whole >= t + MIN_BLOCK then t else whole)
      && LeftOver(q - HEADER, whole, t, true, count, bits, v, lists.freeBitmap, lists.view)
    }

    method MoveBlock(b: Addr, n: nat, t: nat, j: nat, moved: Addr, free: bool) returns (q: Addr)
      requires b in size && b + size[b].n in size
      requires b in books.live && n < WORD && t == TrueSize(n) && t >= n && FillsSegment(b) && size[b].n < t && b in books.home
      requires free <==> size[b + size[b].n].kind == Free
      requires j < |segments| && segments[j] == books.home[b] && segments[j].base == b - SEGMENT_HEADER
      requires books.lost == {}
      requires free ==> size[b].n + size[b + size[b].n].n < t
      requires Core(if free then {b + size[b].n} else {}) && CacheOk() && Counters()
      requires moved != 0 && StorageMoves(j, moved, SegmentSize(blockSize, t)) && SegmentSize(blockSize, t) >= t
      modifies this`segments, this`size, this`prev, this`realSize, this`realPeak, this`used, this`peak, this`books, lists
      ensures Sound() && q != 0 && Regranted(old(books).live, books.live, b + HEADER, q, n) && books.flushed == old(books).flushed
      ensures segments == old(segments)[j := Segment(moved, SegmentSize(blockSize, t))]
      ensures GotCarved(q, t, b, moved, old(lists.restCount), old(lists.freeBitmap), old(lists.view),
                        old(used), old(peak), old(realPeak), old(books).live)
    {
      hide HeapOk; hide HeadersApart; hide FreeLists.Valid; hide LiveTotal; hide SegmentTotal; hide CacheTotal;
      hide SameCache; hide Fits; hide KeepsBytes; hide NewSegment;
      hide BytesAt; hide SameBytes; hide ShiftedBytes; hide BeforeNoLost;
      hide TrueSize; hide SegmentSize; hide ValidSegmentBlock; hide ValidBlockSize; hide LeftOver;
      TrueSizeCovers(n);
      SegmentCovers(blockSize, t);
      var orig := size[b].n;
      ghost var hand0: set<Addr> := if free then {b + orig} else {};
      NoneLost(prev, b);
      LiveRoom(Here(), hand0, b);
      TakeLive(b, hand0);
      SegmentRun(Here(), hand0 + {b}, b, free);
      var whole := if free then orig + size[b + orig].n else orig;
      var b', got := MoveAndCarve(b, whole, t, j, moved, SegmentSize(blockSize, t), hand0 + {b}, old(books).live[b].body);
      Replace(b', n, got, orig, b, old(books).live);
      q := b' + HEADER;
    }

    /** The segment moves, and its block is carved anew with its bytes in place. */
    method MoveAndCarve(b: Addr, n: nat, t: nat, j: nat, moved: Addr, n': nat, ghost hand: set<Addr>, ghost body: seq<bv8>)
      returns (b': Addr, got: nat)
      requires Core(hand) && CacheOk() && books.lost == {} && Run(Here(), hand, b, n) && prev[b] == FIRST && size[b + n].kind == Guard
      requires j < |segments| && segments[j] == books.home[b] && segments[j].base == b - SEGMENT_HEADER
      requires NewSegment(Remove(segments, j), Segment(moved, n')) && n + SEGMENT_HEADER + HEADER <= n'
      requires ValidBlockSize(t) && t <= n' - SEGMENT_HEADER - HEADER
      requires BytesAt(lists.data, b + HEADER, body) && |body| + HEADER <= n && |body| + HEADER <= t
      modifies this`segments, this`size, this`prev, this`realSize, this`realPeak, this`books, lists
      ensures Core({b'}) && CacheOk() && UsedBlock(books.home, size, b') && size[b'].n == got && t <= got < t + MIN_BLOCK
      ensures books == old(books).(home := books.home) && realPeak == Max(old(realPeak), realSize)
      ensures b' == moved + SEGMENT_HEADER && BytesAt(lists.data, b' + HEADER, Fitting(body, got - HEADER))
      ensures segments == old(segments)[j := Segment(moved, n')]
      ensures n' - SEGMENT_HEADER - HEADER >= t + MIN_BLOCK ==> ListedAs(b' + t, RestRing)
      ensures got == if n' - SEGMENT_HEADER - HEADER >= t + MIN_BLOCK then t else n' - SEGMENT_HEADER - HEADER
      ensures LeftOver(b', n' - SEGMENT_HEADER - HEADER, t, true, old(lists.restCount), old(lists.freeBitmap), old(lists.view),
                       lists.freeBitmap, lists.view)
    {
      hide HeapOk; hide HeadersApart; hide FreeLists.Valid; hide LiveTotal; hide SegmentTotal; hide CacheTotal;
      hide SameCache; hide NewSegment; hide BytesAt; hide SameBytes; hide ShiftedBytes; hide ValidSegmentBlock; hide ValidBlockSize; hide LeftOver;
      ghost var v, data0 := lists.view, lists.data;
      lists.HasChains(size);
      var whole;
      b', whole := MoveSegment(b, n, j, moved, n', hand);
      ghost var data1 := lists.data;
      got := Carve(b', whole, t, true, Free);
      CarriedAlong(data0, data1, lists.data, b, b', body, n, got);
      SameCacheTotal(v, lists.view);
    }

    /** Allocation, copy, release. */
    method CopyOver(b: Addr, n: nat, base: Addr) returns (q: Addr)
      requires Valid() && b in books.live && b + HEADER != reserve && n < WORD && b in size && size[b].n < TrueSize(n)
      requires StorageGives(segments, base, SegmentSize(blockSize, TrueSize(n)))
      modifies this, lists
      ensures Intact() && (Near() <==> q == 0 || !old(Oversized(n)))
      ensures q != 0 ==> Regranted(old(books).live, books.live, b + HEADER, q, n)
      ensures books.flushed == old(books).flushed + (if q == 0 && TrueSize(n) >= n then old(cached) else 0)
      ensures q == 0 ==> books.live == AfterError(old(books).live, old(reserve))
      ensures q == 0 <==> old(NoRoom(n, base))
      ensures q == 0 ==> Tidied(old(Now()), Now())
      ensures q != 0 && !old(InCache(TrueSize(n))) ==> GotCopy(q, TrueSize(n), b, old(HasFit(TrueSize(n))), base, old(Now()))
      ensures q != 0 && !old(InCache(TrueSize(n))) && old(HasFit(TrueSize(n))) ==> old(Picked(TrueSize(n), Block(q - HEADER)))
      ensures reserve == (if q == 0 then 0 else old(reserve)) && limit == old(limit)
    {
      hide Tidied;
      hide GotBlock; hide Picked; hide AllocShows; hide LeftServes;
      hide HeapOk; hide HeadersApart; hide FreeLists.Valid; hide LiveTotal;
      hide SegmentTotal; hide CacheTotal; hide ValidSegmentBlock;
      hide TrueSize; hide SegmentSize; hide StorageGives; hide NoFit;
      hide NoSegment; hide InCache; hide ValidBlockSize; hide NoRoom;
      hide HasFit; hide RequestCounted; hide BeforeNoLost;
      hide Oversized; hide Granted; hide FillsSegment; hide SpanOf;
      hide AllocTo; hide FreedIn;
      BehindLive(Here(), b);
      ghost var h0 := Here();
      var orig := size[b].n;
      NewWhenGiven(n, base);
      q := AllocInt(n, base);
      if q == 0 {
        return;
      }
      GrantedIs(old(books).live, books.live, q, n);
      ghost var mid := Now();
      if !old(InCache(TrueSize(n))) {
        AllocIs(q, n, old(HasFit(TrueSize(n))), base, old(realSize), old(Now()));
      }
      BehindLive(Here(), b);
      StillNear(h0, Here(), b, Segment(base, SegmentSize(blockSize, TrueSize(n))));
      ghost var live1 := books.live;
      MoveInto(q - HEADER, b, orig);
      CopiedGrant(old(books).live, live1, books.live, b, q, n);
    }

    lemma AllocIs(q: Addr, n: nat, fits: bool, base: Addr, real0: nat, s: Past)
      requires n < WORD && GotBlock(q, TrueSize(n), false, fits, base, s) && Base() && real0 == SegmentTotal(s.segs)
      requires RequestCounted(n, false, fits, s.used, s.cached, real0, books.live[q - HEADER].room, s.peak, s.realPeak)
      requires segments == if fits then s.segs else [Segment(base, SegmentSize(blockSize, TrueSize(n)))] + s.segs
      ensures AllocTo(q, books.live[q - HEADER].room + HEADER, TrueSize(n), fits, base, s, Now())
    {
      hide TrueSize; hide SegmentSize; hide FreeLists.Valid; hide HeadersApart; hide ValidSegmentBlock; hide SegmentTotal;
      hide ServedLists; hide LeftOver; hide FillsSegment; hide SpanOf; hide ListedWhole;
    }

    /** A new segment is one that storage gave. */
    lemma NewWhenGiven(n: nat, base: Addr)
      requires n < WORD && StorageGives(segments, base, SegmentSize(blockSize, TrueSize(n)))
      ensures !NoRoom(n, base) && !InCache(TrueSize(n)) && !HasFit(TrueSize(n)) ==>
        NewSegment(segments, Segment(base, SegmentSize(blockSize, TrueSize(n))))
    {
      hide NoFit; hide NewSegment;
      hide TrueSize; hide SegmentSize;
      TrueSizeCovers(n);
    }

    /** The bytes of block `b` move into block `c`, and block `b` is released. */
    method MoveInto(c: Addr, b: Addr, orig: nat)
      requires Sound() && b in books.live && c in books.live && b != c && b in size && size[b].n == orig && NearHome(books.home, b)
      requires books.live[b].room <= books.live[c].room
      modifies this`size, this`prev, this`segments, this`realSize, this`cache, this`cached, this`used, this`books, lists
      ensures Sound() && Fewer(old(segments), segments) && books.flushed == old(books).flushed
      ensures c in books.live && books.live == old(books).live[c := books.live[c]] - {b}
      ensures books.live[c] == old(books).live[c].(body := books.live[c].body)
      ensures KeepsBytes(old(books).live[b].body, books.live[c].body)
      ensures SameFar(old(segments), segments)
      ensures FreedIn(b, orig, old(Now()))
    {
      hide HeapOk; hide HeadersApart; hide FreeLists.Valid; hide LiveTotal; hide SegmentTotal; hide CacheTotal; hide ValidSegmentBlock;
      hide BeforeNoLost; hide Tidied; hide FreedLists; hide Alone; hide CachedAs; hide Only; hide Returned; hide HidesBehind; hide Shown;
      BehindLive(Here(), b);
      CopyRoom(c, b, orig - HEADER);
      NoneLost(prev, b);
      FreeInt(b + HEADER);
    }

    /** What storage may answer a reallocation of block `b`. */
    ghost predicate StorageReallocs(b: Addr, t: nat, moved: Addr)
      reads this
    {
      FillsSegment(b) ==>
        forall j :: 0 <= j < |segments| && segments[j].base == b - SEGMENT_HEADER ==> StorageMoves(j, moved, SegmentSize(blockSize, t))
    }

    /** When a reallocation breaks the heap: storage fails after the free block behind was
        unlinked. */
    ghost predicate Strands(b: Addr, n: nat, moved: Addr)
      requires n < WORD
      reads this
    {
      var t := TrueSize(n);
      && n <= t && !InCache(t) && moved == 0 && !PastLimit(b, t)
      && FillsSegment(b) && FreeBehind(b) && size[b].n + size[b + size[b].n].n < t
    }

    /** The block grows into a segment of 2 GiB or more. */
    ghost predicate Outgrows(b: Addr, n: nat)
      requires n < WORD
      reads this, lists
    {
      var t := TrueSize(n);
      && b in size && size[b].n < t && !InCache(t) && SpanOf(b) < t
      && (FillsSegment(b) || !HasFit(t)) && SegmentSize(blockSize, t) >= FAR
    }

    /** Clients can tell beforehand. */
    method WouldStrand(b: Addr, n: nat, moved: Addr) returns (strands: bool)
      requires Valid() && b in books.live && n < WORD
      ensures strands == Strands(b, n, moved)
    {
      hide HeapOk; hide HeadersApart; hide FreeLists.Valid; hide LiveTotal; hide SegmentTotal; hide CacheTotal; hide ValidSegmentBlock;
      hide SegmentSize;
      hide TrueSize;
      TrueSizeCovers(n);
      BehindLive(Here(), b);
      var t := TrueSize(n);
      if t < n || moved != 0 || InCache(t) || !FillsSegment(b) || !FreeBehind(b) || size[b].n + size[b + size[b].n].n >= t {
        return false;
      }
      var j := IndexOfHome(b, {});
      var segmentSize := SegmentSize(blockSize, t);
      strands := !(segmentSize < t || Wrap(realSize + segmentSize - segments[j].size) > limit);
    }

    /** When block `b` cannot grow to `n` bytes: it is too small, there is no cached block of the
        new class, the free block behind it is not large enough, and neither its segment, if
        it fills one, nor another block can be had. */
    ghost predicate NoGrowth(b: Addr, n: nat, base: Addr, moved: Addr)
      requires n < WORD
      reads this, lists
    {
      var t := TrueSize(n);
      && b in size && size[b].n < t && !InCache(t) && SpanOf(b) < t
      && if FillsSegment(b) then moved == 0 || PastLimit(b, t) else NoRoom(n, base)
    }

    /** The part of _zend_mm_realloc_int for blocks that are too small. */
    method Grow(b: Addr, n: nat, base: Addr, moved: Addr) returns (q: Addr)
      requires Valid() && b in books.live && b + HEADER != reserve && n < WORD && n <= TrueSize(n)
      requires b in size && size[b].n < TrueSize(n) && b + size[b].n in size && StorageReallocs(b, TrueSize(n), moved)
      requires StorageGives(segments, base, SegmentSize(blockSize, TrueSize(n)))
      modifies this, lists
      ensures if old(Strands(b, n, moved)) then Stranded(b + HEADER + old(books).live[b].room) && q == 0
              else Intact() && (Near() <==> q == 0 || !old(Outgrows(b, n)))
      ensures q != 0 ==> Regranted(old(books).live, books.live, b + HEADER, q, n)
      ensures books.flushed == old(books).flushed + (if q == 0 then old(cached) else 0)
      ensures q == 0 ==> books.live == AfterError(old(books).live, old(reserve))
      ensures q == 0 <==> old(NoGrowth(b, n, base, moved))
      ensures q == 0 ==> Tidied(old(Now()), Now())
      ensures reserve == (if q == 0 then 0 else old(reserve)) && limit == old(limit)
      ensures q != 0 ==> Regot(b, q, TrueSize(n), old(InCache(TrueSize(n))), old(HasFit(TrueSize(n))), base, moved, old(Now()))
      ensures q != 0 && !old(InCache(TrueSize(n))) && old(HasFit(TrueSize(n))) && !old(Stays(b, TrueSize(n))) ==>
        old(Picked(TrueSize(n), Block(q - HEADER)))
    {
      hide Tidied;
      hide GotSwapped; hide GotCut; hide GotGrown; hide GotMoved; hide GotCopy; hide Picked; hide HasFit; hide Regot;
      hide HeapOk; hide HeadersApart; hide FreeLists.Valid; hide LiveTotal;
      hide SegmentTotal; hide CacheTotal; hide ValidSegmentBlock;
      hide SegmentSize; hide StorageGives; hide NoFit; hide NoSegment; hide StorageMoves; hide Fits; hide KeepsBytes;
      hide PastLimit; hide NoRoom; hide Regranted; hide Stranded;
      hide TrueSize;
      TrueSizeCovers(n);
      var t := TrueSize(n);
      BehindLive(Here(), b);
      SmallSizesAreClasses(t);
      if SmallSize(t) {
        var index := BucketIndex(t);
        if cache[index] != Null {
          q := SwapCached(b, n, t, index);
          SwappedIs(b, q, t, base, moved, old(HasFit(TrueSize(n))), old(Now()));
          ReserveStays(old(books).live, books.live, b + HEADER, q, n, reserve);
          return;
        }
      }
      q := GrowUncached(b, n, t, base, moved);
    }

    lemma SwappedIs(b: Addr, q: Addr, t: nat, base: Addr, moved: Addr, fits: bool, s: Past)
      requires b in s.size && s.size[b].n < t && GotSwapped(q, t, b, s)
      ensures Regot(b, q, t, true, fits, base, moved, s)
    {
      hide GotSwapped; hide GotCut; hide GotGrown; hide GotMoved; hide GotCopy; hide SegmentSize;
    }

    lemma GrownIs(b: Addr, q: Addr, t: nat, base: Addr, moved: Addr, fits: bool, s: Past)
      requires b in s.size && s.size[b].n < t
      requires if t <= Span(s.size, b) then q == b + HEADER && GotGrown(b, t, s)
               else if Fills(s.size, s.prev, b) then GotMoved(q, t, b, moved, s)
               else GotCopy(q, t, b, fits, base, s)
      ensures Regot(b, q, t, false, fits, base, moved, s)
    {
      hide GotSwapped; hide GotCut; hide GotGrown; hide GotMoved; hide GotCopy; hide SegmentSize;
    }

    /** The same when there is no cached block of the class. */
    method GrowUncached(b: Addr, n: nat, t: nat, base: Addr, moved: Addr) returns (q: Addr)
      requires t == TrueSize(n) && !InCache(t)
      requires Valid() && b in books.live && b + HEADER != reserve && n < WORD && n <= TrueSize(n)
      requires b in size && size[b].n < TrueSize(n) && b + size[b].n in size && StorageReallocs(b, TrueSize(n), moved)
      requires StorageGives(segments, base, SegmentSize(blockSize, TrueSize(n)))
      modifies this, lists
      ensures if old(Strands(b, n, moved)) then Stranded(b + HEADER + old(books).live[b].room) && q == 0
              else Intact() && (Near() <==> q == 0 || !old(Outgrows(b, n)))
      ensures q != 0 ==> Regranted(old(books).live, books.live, b + HEADER, q, n)
      ensures books.flushed == old(books).flushed + (if q == 0 then old(cached) else 0)
      ensures q == 0 ==> books.live == AfterError(old(books).live, old(reserve))
      ensures q == 0 <==> old(NoGrowth(b, n, base, moved))
      ensures q == 0 ==> Tidied(old(Now()), Now())
      ensures reserve == (if q == 0 then 0 else old(reserve)) && limit == old(limit)
      ensures q != 0 ==> Regot(b, q, TrueSize(n), old(InCache(TrueSize(n))), old(HasFit(TrueSize(n))), base, moved, old(Now()))
      ensures q != 0 && !old(InCache(TrueSize(n))) && old(HasFit(TrueSize(n))) && !old(Stays(b, TrueSize(n))) ==>
        old(Picked(TrueSize(n), Block(q - HEADER)))
    {
      hide BytesAt; hide LeftOfSegment; hide TookPart; hide ListedWhole; hide Shown; hide Shows;
      hide Tidied;
      hide GotSwapped; hide GotCut; hide GotGrown; hide GotMoved; hide GotCopy; hide Picked; hide HasFit; hide Regot;
      hide HeapOk; hide HeadersApart; hide FreeLists.Valid; hide LiveTotal;
      hide SegmentTotal; hide CacheTotal; hide ValidSegmentBlock;
      hide SegmentSize; hide StorageGives; hide NoFit; hide NoSegment; hide StorageMoves; hide Fits; hide KeepsBytes;
      hide PastLimit; hide NoRoom; hide Regranted; hide Stranded;
      hide TrueSize;
      TrueSizeCovers(n);
      BehindLive(Here(), b);
      var next := b + size[b].n;
      if size[next].kind == Free {
        NearIn({}, next);
        CheckLinkage(next, {});
        if size[b].n + size[next].n >= t {
          GrowInPlace(b, n, t);
          ReserveStays(old(books).live, books.live, b + HEADER, b + HEADER, n, reserve);
          GrownIs(b, b + HEADER, t, base, moved, old(HasFit(TrueSize(n))), old(Now()));
          return b + HEADER;
        } else if prev[b] == FIRST && size[next + size[next].n].kind == Guard {
          q := GrowSegment(b, n, t, moved);
          if q != 0 {
            GrownIs(b, q, t, base, moved, old(HasFit(TrueSize(n))), old(Now()));
          }
          return;
        }
      } else if prev[b] == FIRST && size[next].kind == Guard {
        q := GrowSegment(b, n, t, moved);
        if q != 0 {
          GrownIs(b, q, t, base, moved, old(HasFit(TrueSize(n))), old(Now()));
        }
        return;
      }
      q := CopyOver(b, n, base);
      if q != 0 {
        GrownIs(b, q, t, base, moved, old(HasFit(TrueSize(n))), old(Now()));
      }
    }

    /** Block `b` and the free block behind it have `t` bytes, or fill their segment. */
    ghost predicate Stays(b: Addr, t: nat)
      reads this
    {
      SpanOf(b) >= t || FillsSegment(b)
    }

    /** _zend_mm_realloc_int. */
    method ReallocInt(p: Addr, n: nat, base: Addr, moved: Addr) returns (q: Addr)
      requires Valid() && n < WORD
      requires p != 0 ==> p - HEADER in books.live && p != reserve
      requires p != 0 ==> StorageReallocs(p - HEADER, TrueSize(n), moved)
      requires StorageGives(segments, base, SegmentSize(blockSize, TrueSize(n)))
      modifies this, lists
      ensures if p != 0 && old(Strands(p - HEADER, n, moved)) then Stranded(p + old(books).live[p - HEADER].room) && q == 0
              else Intact() && (Near() <==> q == 0 || !old(if p == 0 then Oversized(n) else Outgrows(p - HEADER, n)))
      ensures p == 0 && q != 0 ==> Granted(old(books).live, books.live, q, n)
      ensures p != 0 && q != 0 ==> Regranted(old(books).live, books.live, p, q, n)
      ensures books.flushed == old(books).flushed + (if q == 0 && TrueSize(n) >= n then old(cached) else 0)
      ensures q == 0 ==> books.live == AfterError(old(books).live, old(reserve))
      ensures q == 0 <==> if p == 0 then old(NoRoom(n, base)) else TrueSize(n) < n || old(NoGrowth(p - HEADER, n, base, moved))
      ensures p != 0 && n <= TrueSize(n) <= old(books).live[p - HEADER].room + HEADER ==> q == p
      ensures p != 0 && n <= TrueSize(n) <= old(SpanOf(p - HEADER)) && !old(InCache(TrueSize(n))) ==> q == p
      ensures p == 0 && q != 0 ==> GotBlock(q, TrueSize(n), old(InCache(TrueSize(n))), old(HasFit(TrueSize(n))), base, old(Now()))
      ensures p != 0 && q != 0 ==>
        Regot(p - HEADER, q, TrueSize(n), old(InCache(TrueSize(n))), old(HasFit(TrueSize(n))), base, moved, old(Now()))
      ensures q != 0 && !old(InCache(TrueSize(n))) && old(HasFit(TrueSize(n))) && !(p != 0 && old(Stays(p - HEADER, TrueSize(n)))) ==>
        old(Picked(TrueSize(n), Block(q - HEADER)))
      ensures q == 0 ==> Tidied(old(Now()), Now())
      ensures reserve == (if q == 0 then 0 else old(reserve)) && limit == old(limit)
    {
      hide BytesAt; hide Shown; hide Shows; hide LeftOfSegment; hide TookPart; hide ListedWhole; hide FillsSegment;
      hide Tidied;
      hide GotBlock; hide Picked; hide AllocShows; hide LeftServes; hide Regot; hide GotCut;
      hide HeapOk; hide HeadersApart; hide FreeLists.Valid; hide LiveTotal;
      hide SegmentTotal; hide CacheTotal; hide ValidSegmentBlock;
      hide SegmentSize; hide StorageGives; hide NoRoom; hide StorageReallocs; hide InCache; hide PastLimit; hide BeforeNoLost;
      hide HasFit; hide RequestCounted;
      hide TrueSize;
      if p == 0 {
        q := AllocInt(n, base);
        return;
      }
      var b := p - HEADER;
      TrueSizeCovers(n);
      BehindLive(Here(), b);
      var t := TrueSize(n);
      if t < n {
        NoneLost(prev, reserve - HEADER);
        SafeError();
        return 0;
      }
      if t <= size[b].n {
        if size[b].n - t >= MIN_BLOCK {
          Shrink(b, n, t);
        } else {
          Resize(b, n);
          ResizedIs(b, t, old(Now()));
        }
        CutIs(b, t, old(InCache(TrueSize(n))), old(HasFit(TrueSize(n))), base, moved, old(Now()));
        return p;
      }
      q := Grow(b, n, base, moved);
      StaysIn(b, q, t, old(InCache(TrueSize(n))), old(HasFit(TrueSize(n))), base, moved, old(Now()));
    }

    lemma ResizedIs(b: Addr, t: nat, s: Past)
      requires s == Now().(rests := s.rests) && b in size && b in books.live && t <= size[b].n < t + MIN_BLOCK
      requires books.live[b].room + HEADER == size[b].n && used <= peak
      ensures GotCut(b, t, s)
    {
      hide Resized;
    }

    lemma CutIs(b: Addr, t: nat, hit: bool, fits: bool, base: Addr, moved: Addr, s: Past)
      requires b in s.size && t <= s.size[b].n && GotCut(b, t, s)
      ensures Regot(b, b + HEADER, t, hit, fits, base, moved, s)
    {
      hide GotSwapped; hide GotCut; hide GotGrown; hide GotMoved; hide GotCopy;
    }

    /** Room behind the block is used before any other, but for a cached block. */
    lemma StaysIn(b: Addr, q: Addr, t: nat, hit: bool, fits: bool, base: Addr, moved: Addr, s: Past)
      ensures q != 0 && Regot(b, q, t, hit, fits, base, moved, s) && t <= Span(s.size, b) && !hit ==> q == b + HEADER
    {
      hide GotSwapped; hide GotCut; hide GotGrown; hide GotMoved; hide GotCopy;
    }

    // ---- the rest of the interface ----

    method IsNear() returns (near: bool)
      ensures near == Near()
    {
      var i := 0;
      while i < |segments|
        invariant 0 <= i <= |segments|
        invariant forall j :: 0 <= j < i ==> segments[j].size < FAR
      {
        if segments[i].size >= FAR {
          assert segments[i] in segments;
          return false;
        }
        i := i + 1;
      }
      near := true;
    }

    /** zend_mm_startup_ex: the reserve is allocated. */
    method Startup(base: Addr)
      requires Valid() && reserve == 0 && reserveSize < WORD
      requires StorageGives(segments, base, SegmentSize(blockSize, TrueSize(reserveSize)))
      modifies this, lists
      ensures Intact() && (Near() <==> reserve == 0 || !old(Oversized(reserveSize))) && limit == old(limit)
      ensures reserve == 0 ==> books.live == old(books).live
      ensures reserve != 0 ==> reserveSize > 0 && Granted(old(books).live, books.live, reserve, reserveSize)
      ensures reserve != 0 <==> reserveSize > 0 && !old(NoRoom(reserveSize, base))
      ensures reserve != 0 ==>
        GotBlock(reserve, TrueSize(reserveSize), old(InCache(TrueSize(reserveSize))), old(HasFit(TrueSize(reserveSize))), base, old(Now()))
      ensures reserve == 0 ==> peak == old(peak) && realPeak == old(realPeak) && (reserveSize == 0 ==> unchanged(this) && unchanged(lists))
    {
      hide InCache; hide HasFit; hide TrueSize; hide Tidied;
      hide GotBlock; hide Picked; hide AllocShows; hide LeftServes;
      hide HeapOk; hide HeadersApart; hide FreeLists.Valid; hide LiveTotal; hide SegmentTotal; hide CacheTotal; hide StorageGives;
      hide SegmentSize; hide Fits; hide NoRoom;
      if reserveSize > 0 {
        reserve := AllocInt(reserveSize, base);
      }
    }

    /** The segments that survive the end of a request. */
    function KeptSegments(): seq<Segment>
      reads this
    {
      if reserveSize != 0 && segments != [] then [segments[|segments| - 1]] else []
    }

    /** The half of zend_mm_shutdown that readies the heap for the next request. */
    method Reset(base: Addr)
      requires Counted() && NearSegments(KeptSegments()) && reserveSize < WORD
      requires StorageGives(KeptSegments(), base, SegmentSize(blockSize, TrueSize(reserveSize)))
      modifies this, lists
      ensures Intact() && limit == old(limit)
      ensures Near() <==> reserve == 0 || old(KeptFits(TrueSize(reserveSize))) || SegmentSize(blockSize, TrueSize(reserveSize)) < FAR
      ensures segments == if reserve == 0 || old(KeptFits(TrueSize(reserveSize))) then old(KeptSegments())
                          else [Segment(base, SegmentSize(blockSize, TrueSize(reserveSize)))] + old(KeptSegments())
      ensures reserveSize == 0 ==> segments == []
      ensures reserveSize != 0 && old(segments) != [] ==> segments != [] && segments[|segments| - 1] == old(segments)[|old(segments)| - 1]
      ensures cached == 0 && books.flushed == 0 && peak == used && realPeak == realSize == SegmentTotal(segments)
      ensures used == if reserve == 0 then 0 else books.live[reserve - HEADER].room + HEADER
      ensures Exact() && (reserve != 0 ==> ReserveAt(old(KeptSegments()), old(KeptFits(TrueSize(reserveSize))), base))
      ensures reserve == 0 ==> books.live == map[]
      ensures reserve != 0 ==> Granted(map[], books.live, reserve, reserveSize)
      ensures reserve != 0 <==> old(ReserveServed(base))
    {
      hide Counted; hide Intact; hide StorageGives; hide SegmentSize; hide NoSegmentAt; hide TrueSize; hide ServesWhole; hide Granted;
      hide SegmentTotal; hide NearSegments; hide Exact; hide OneFree; hide ReserveAt;
      Restart();
      Refill(base);
    }

    /** The heap with at most the oldest segment, free as a whole, and no reserve. */
    method Restart()
      requires Counted() && NearSegments(KeptSegments())
      modifies this, lists
      ensures Valid() && reserve == 0 && segments == old(KeptSegments()) && ServesWhole() && cache == NoBlocks() && limit == old(limit)
      ensures Exact() && OneFree()
      ensures books.live == map[] && books.flushed == 0 && used == peak == cached == 0 && realPeak == realSize
    {
      hide HeapOk; hide HeadersApart; hide FreeLists.Valid; hide LiveTotal; hide SegmentTotal; hide CacheTotal; hide ServesWhole;
      hide ValidSegmentBlock; hide BitsExact; hide OneFree;
      reserve := 0;
      DropSegments();
      Empty();
    }

    /** The reserve is allocated in a heap that is free as a whole. */
    method Refill(base: Addr)
      requires Valid() && reserveSize < WORD && reserve == 0 && |segments| <= 1 && ServesWhole() && cache == NoBlocks()
      requires Exact() && OneFree()
      requires books.live == map[] && books.flushed == 0 && used == peak == cached == 0 && realPeak == realSize
      requires StorageGives(segments, base, SegmentSize(blockSize, TrueSize(reserveSize)))
      modifies this, lists
      ensures Intact() && limit == old(limit)
      ensures Near() <==> reserve == 0 || old(WholeFits(TrueSize(reserveSize))) || SegmentSize(blockSize, TrueSize(reserveSize)) < FAR
      ensures reserve == 0 ==> books.live == map[]
      ensures reserve != 0 ==> Granted(map[], books.live, reserve, reserveSize)
      ensures reserve != 0 <==> 0 < reserveSize <= TrueSize(reserveSize) && old(WholeServed(TrueSize(reserveSize), base))
      ensures segments == if reserve == 0 || old(WholeFits(TrueSize(reserveSize))) then old(segments)
                          else [Segment(base, SegmentSize(blockSize, TrueSize(reserveSize)))] + old(segments)
      ensures cached == 0 && books.flushed == 0 && peak == used && realPeak == realSize == SegmentTotal(segments)
      ensures Exact() && (reserve != 0 ==> ReserveAt(old(segments), old(WholeFits(TrueSize(reserveSize))), base))
      ensures used == if reserve == 0 then 0 else books.live[reserve - HEADER].room + HEADER
    {
      hide GotBlock; hide Picked; hide AllocShows; hide LeftServes; hide OneFree; hide BitsExact; hide Tidied; hide ReserveAt;
      hide HeapOk; hide HeadersApart; hide FreeLists.Valid; hide SegmentTotal; hide CacheTotal; hide StorageGives;
      hide SegmentSize; hide Fits; hide NoFit; hide ValidSegmentBlock; hide FillsSegment; hide SpanOf;
      hide TrueSize;
      TrueSizeCovers(reserveSize);
      if reserveSize > 0 {
        OnlyPick(TrueSize(reserveSize));
        FitsAsWhole(TrueSize(reserveSize));
        reserve := AllocInt(reserveSize, base);
        StillExact(reserve, old(Now()));
        if reserve != 0 {
          assert old(HasFit(TrueSize(reserveSize))) == old(WholeFits(TrueSize(reserveSize)));
          ReserveIs(old(WholeFits(TrueSize(reserveSize))), base, old(Now()));
        }
      }
    }

    /** The reserve is at the front of a segment that was free as a whole, the kept one or a
        new one; what is left over serves requests unless the segment is oversized. */
    ghost predicate ReserveAt(kept: seq<Segment>, fits: bool, base: Addr)
      requires reserveSize < WORD
      reads this, lists
    {
      var t := TrueSize(reserveSize);
      var whole := if fits && kept != [] then FirstSize(kept[0]) else SegmentSize(blockSize, t) - SEGMENT_HEADER - HEADER;
      && reserve == (if fits && kept != [] then kept[0].base else base) + SEGMENT_HEADER + HEADER
      && reserve - HEADER in books.live && books.live[reserve - HEADER].room + HEADER == (if whole >= t + MIN_BLOCK then t else whole)
      && (whole >= t + MIN_BLOCK && (fits || t <= blockSize - (SEGMENT_HEADER + HEADER)) ==>
            ListedWhole(reserve - HEADER + t, whole - t) && ServesUpTo(whole - t))
    }

    /** The block of the only segment is what the searches choose. */
    lemma OnlyPick(t: nat)
      requires Core({}) && |segments| <= 1 && OneFree()
      ensures forall r :: Picked(t, r) ==> segments != [] && r == Block(segments[0].First()) && PickedSize(r, FirstSize(segments[0]))
      ensures forall a :: !InRest(lists.view.owner, a)
    {
      hide HeapOk; hide HeadersApart; hide ViewOk; hide CountLarge; hide LinksApart; hide SegmentTotal; hide ValidSegmentBlock;
      hide FreeLists.Found; hide FreeLists.NoneShown; hide FreeLists.NewestRest; hide LeastFit; hide FindsLeast; hide Bit; hide PutIn;
      OneNoRest();
      forall r | Picked(t, r)
        ensures segments != [] && r == Block(segments[0].First()) && PickedSize(r, FirstSize(segments[0]))
      {
        ListedFree(Here(), {}, r.addr);
        InOnlySegment(Here(), r.addr);
      }
    }

    ghost predicate PickedSize(r: Ptr, n: int)
      reads this`size
    {
      r.Block? && r.addr in size && size[r.addr].n == n
    }

    /** No bit is lost while nothing leaves the rest ring. */
    lemma StillExact(p: Addr, s: Past)
      requires BitsExact(s.bits, s.view.rings) && forall a :: !InRest(s.view.owner, a)
      requires if p != 0 then AllocShows(p, s) else Tidied(s, Now())
      ensures Exact()
    {
      hide Shows; hide UsedHomes; hide Only;
      forall i: nat
        ensures Shows(lists.freeBitmap, lists.view.rings, i)
      {
        assert Shows(s.bits, s.view.rings, i);
        if p != 0 {
          assert !HidesTaken(p - HEADER, i, s) by {
            assert !InRest(s.view.owner, p - HEADER);
          }
          assert Shown(i);
        } else {
          assert NoSmallRest(s);
        }
      }
    }

    lemma FitsAsWhole(t: nat)
      requires ServesWhole()
      ensures ValidBlockSize(t) && t < NO_SIZE ==> (HasFit(t) <==> WholeFits(t))
    {
      hide NoFit;
    }

    lemma ReserveIs(fits: bool, base: Addr, s: Past)
      requires 0 < reserve && reserveSize < WORD && GotBlock(reserve, TrueSize(reserveSize), false, fits, base, s)
      requires LeftServes(reserve, TrueSize(reserveSize), fits, s) && BitsExact(s.bits, s.view.rings)
      requires fits ==> s.segs != [] && reserve - HEADER == s.segs[0].First() && reserve - HEADER in s.size
      requires fits ==> s.size[reserve - HEADER].n == FirstSize(s.segs[0])
      ensures ReserveAt(s.segs, fits, base)
    {
      hide TrueSize; hide SegmentSize; hide ServedLists; hide LeftOver; hide ListedWhole; hide ServesUpTo; hide FillsSegment; hide SpanOf;
      hide Shows;
      ghost var t := TrueSize(reserveSize);
      ghost var left := (if fits then FirstSize(s.segs[0]) else SegmentSize(blockSize, t) - SEGMENT_HEADER - HEADER) - t;
      assert left >= MIN_BLOCK ==> Shows(s.bits, s.view.rings, BucketIndex(left));
    }

    lemma OneNoRest()
      requires OneFree()
      ensures forall a :: !InRest(lists.view.owner, a)
    {
      if segments != [] {
        PutInNoRest(InitView(), lists.view, segments[0].First(), FirstSize(segments[0]));
        hide PutIn;
      }
    }

    /** A heap that is free as a whole serves a block of `t` bytes. */
    ghost predicate WholeServed(t: nat, base: Addr)
      reads this
    {
      WholeFits(t) || !NoSegmentAt(SegmentTotal(segments), t, base)
    }

    /** The only segment has room for a block of `t` bytes. */
    ghost predicate WholeFits(t: nat)
      reads this`segments
    {
      segments != [] && t <= FirstSize(segments[0])
    }

    /** When there is a reserve after the end of a request: the kept segment has room for
        it, or a new one can be had. */
    ghost predicate ReserveServed(base: Addr)
      requires reserveSize < WORD
      reads this
    {
      var t := TrueSize(reserveSize);
      0 < reserveSize <= t && (KeptFits(t) || !NoSegmentAt(SegmentTotal(KeptSegments()), t, base))
    }

    /** The segment that is kept has room for a block of `t` bytes. */
    ghost predicate KeptFits(t: nat)
      reads this
    {
      KeptSegments() != [] && t <= FirstSize(KeptSegments()[0])
    }

    /** A reserve that lies in the oldest segment, where it is put at startup, comes back. */
    lemma ReserveComesBack()
      requires Valid() && 0 < reserveSize < WORD && reserveSize <= TrueSize(reserveSize)
      requires reserve != 0 && books.live[reserve - HEADER].asked == reserveSize
      requires segments != [] && reserve - HEADER in books.home && books.home[reserve - HEADER] == segments[|segments| - 1]
      ensures KeptFits(TrueSize(reserveSize))
    {
      hide FreeLists.Valid; hide LiveTotal; hide SegmentTotal; hide CacheTotal; hide TrueSize; hide HeapOk; hide HeadersApart;
      var b := reserve - HEADER;
      LiveInside(Here(), b);
      BehindLive(Here(), b);
      InsideSegment(Here(), b);
      TrueSizeIsLeast(reserveSize, size[b].n);
    }

    /** All segments go, or all but the oldest. */
    method DropSegments()
      requires Core({})
      modifies this`segments
      ensures segments == old(KeptSegments())
      ensures segments != [] ==> NewSegment([], segments[0])
    {
      hide HeapOk; hide HeadersApart; hide FreeLists.Valid; hide SegmentTotal; hide NewSegment;
      if segments != [] {
        KeptSegment(Here(), |segments| - 1);
        if reserveSize != 0 {
          while |segments| > 1
            invariant |segments| >= 1 && segments[|segments| - 1] == old(segments[|segments| - 1])
          {
            segments := segments[1..];
          }
          assert segments == [segments[0]];
        } else {
          while segments != []
            decreases |segments|
          {
            segments := segments[1..];
          }
        }
      }
    }

    /** A request is served without storage exactly when the only segment has room for it. */
    ghost predicate ServesWhole()
      reads this`segments, this`size, this`realSize, this`limit, lists
    {
      forall t: nat :: ValidBlockSize(t) && t < NO_SIZE ==> (NoFit(t) <==> segments == [] || FirstSize(segments[0]) < t)
    }

    /** The lists hold the first block of the only segment, which fills it, or nothing. */
    ghost predicate OneFree()
      reads this, lists
    {
      if segments == [] then lists.view == InitView()
      else WholeIsFree(segments[0]) && PutIn(InitView(), lists.view, segments[0].First(), FirstSize(segments[0]))
    }

    /** The heap with at most one segment, free as a whole. */
    method Empty()
      requires Near()
      requires lists.Valid(size) && HeadersApart(size, prev, lists.data)
      requires |segments| <= 1 && (segments != [] ==> NewSegment([], segments[0])) && ValidSegmentBlock(blockSize) && reserve == 0
      modifies this`size, this`prev, this`cache, this`cached, this`realSize, this`realPeak, this`used, this`peak, this`books, lists
      ensures Valid() && books.live == map[] && books.flushed == 0 && used == peak == cached == 0 && reserve == 0
      ensures realPeak == realSize == SegmentTotal(segments) && segments == old(segments) && limit == old(limit)
      ensures cache == NoBlocks()
      ensures ServesWhole() && Exact() && OneFree()
    {
      hide HeapOk; hide HeadersApart; hide FreeLists.Valid; hide SegmentTotal;
      hide FreeAddrs; hide CachedAddrs; hide NewSegment; hide SameCache;
      hide CacheTotal; hide LiveTotal; hide ValidSegmentBlock; hide NoFit; hide WholeIsFree; hide InitView; hide BitsExact; hide PutIn;
      Blank();
      if segments != [] {
        ghost var v := lists.view;
        lists.HasChains(size);
        assert segments == [segments[0]];
        FreeSegment(segments[0]);
        SameCacheTotal(v, lists.view);
      }
      WholeServes();
    }

    lemma WholeServes()
      requires Core({}) && |segments| <= 1 && (segments != [] ==> WholeIsFree(segments[0]))
      ensures ServesWhole()
    {
      hide HeapOk; hide HeadersApart; hide FreeLists.Valid; hide SegmentTotal; hide NoFit; hide ValidSegmentBlock; hide WholeIsFree;
      forall t: nat | ValidBlockSize(t) && t < NO_SIZE
        ensures NoFit(t) <==> segments == [] || FirstSize(segments[0]) < t
      {
        OnlyWhole(t);
      }
    }

    /** The heap before its segment is free: nothing is in use, and nothing listed. */
    method Blank()
      requires lists.Valid(size) && HeadersApart(size, prev, lists.data) && |segments| <= 1 && ValidSegmentBlock(blockSize)
      modifies this`cache, this`cached, this`realSize, this`realPeak, this`used, this`peak, this`books, lists
      ensures HeapOk(Here().(segs := []), {}) && Base() && CacheOk() && Counters()
      ensures lists.view == InitView() && cache == NoBlocks() && Exact()
      ensures books == Books(map[], map[], 0, {}) && used == peak == 0 && realPeak == realSize == SegmentTotal(segments)
    {
      hide HeapOk; hide HeadersApart; hide FreeLists.Valid; hide SegmentTotal;
      hide FreeAddrs; hide CachedAddrs; hide ValidSegmentBlock;
      hide CacheTotal; hide LiveTotal; hide InitView; hide BitsExact;
      InitLists();
      OneSegment(segments);
      realSize := if segments == [] then 0 else segments[0].size;
      realPeak := realSize;
      used, peak := 0, 0;
      books := Books(map[], map[], 0, {});
      NoLiveTotal();
      EmptyHeapOk(lists.view.owner, size, prev, lists.data);
      assert Here().(segs := []) == Heap([], map[], size, prev, lists.view.owner, map[], lists.data, {});
    }

    /** The first block of segment `s` is free, fills it, and the searches can see it. */
    ghost predicate WholeIsFree(s: Segment)
      reads this, lists
    {
      var b, n := s.First(), FirstSize(s);
      && b in books.home && b in size && size[b].n == n && ValidBlockSize(n) && ListedAs(b, ListKey(n))
      && (SmallSize(n) ==> BucketIndex(n) >= 0 && Bit(lists.freeBitmap, BucketIndex(n)))
    }

    /** A heap that is one free block serves what fits into it. */
    lemma OnlyWhole(t: nat)
      requires Core({}) && |segments| <= 1 && ValidBlockSize(t) && t < NO_SIZE
      requires segments != [] ==> WholeIsFree(segments[0])
      ensures NoFit(t) <==> segments == [] || FirstSize(segments[0]) < t
    {
      hide HeapOk; hide HeadersApart; hide ViewOk; hide CountLarge; hide LinksApart;
      hide SegmentTotal; hide ValidSegmentBlock; hide Shr; hide Bit;
      hide ValidBlockSize;
      if segments == [] || FirstSize(segments[0]) < t {
        forall b: Addr | lists.IsFree(b)
          ensures b in size && size[b].n < t
        {
          ListedFree(Here(), {}, b);
          InOnlySegment(Here(), b);
        }
        lists.FitsNowhere(size, t);
      } else {
        lists.FitsSomewhere(size, segments[0].First(), FirstSize(segments[0]), t);
      }
    }

    /** zend_mm_init. */
    method InitLists()
      requires lists.Valid(size)
      modifies this`cache, this`cached, lists
      ensures CacheOk() && lists.Valid(size) && lists.restCount == 0 && cached == 0 && lists.data == old(lists.data)
      ensures lists.view == InitView() && cache == NoBlocks() && Exact()
      ensures FreeAddrs(lists.view.owner) == {} && CachedAddrs(lists.view.owner) == {}
    {
      hide ViewOk; hide CountLarge; hide LinksApart; hide FreeAddrs; hide CachedAddrs; hide InitView; hide CacheTotal; hide BitsExact;
      cached := 0;
      cache := NoBlocks();
      lists.Init(size);
      EmptyCache();
    }

    /** "mark segment as a free block". */
    method FreeSegment(s: Segment)
      requires segments == [s] && HeapOk(Here().(segs := []), {}) && Base() && NewSegment([], s) && books.lost == {}
      requires lists.view == InitView() && Exact()
      modifies this`size, this`prev, this`books, lists
      ensures Core({}) && SameCache(old(lists.view), lists.view) && books == old(books).(home := books.home)
      ensures WholeIsFree(s) && Exact() && PutIn(InitView(), lists.view, s.First(), FirstSize(s))
    {
      hide HeapOk; hide HeadersApart; hide FreeLists.Valid; hide SegmentTotal;
      hide FreeAddrs; hide CachedAddrs; hide NewSegment; hide SameCache;
      hide ValidSegmentBlock; hide ValidBlockSize; hide Grown; hide CacheTotal;
      hide LiveTotal; hide InitView; hide Bit; hide OthersKept; hide BitsExact; hide PutIn; hide KeptBits;
      ghost var h := Here().(segs := []);
      PrependedOk(h, s);
      assert [s] + [] == [s];
      GrownAs(h, Here().(home := h.home), segments, s);
      MarkSegment(s.base, s.size, true, books.home);
      GrownKeep(h, segments, s, lists.data);
      var b := s.base + SEGMENT_HEADER;
      var n := s.size - SEGMENT_HEADER - HEADER;
      TagFree(b, n);
      FreeSize(Here(), {b}, b);
      SmallSizesAreClasses(n);
      if SmallSize(n) {
        EmptyAtFirst(BucketIndex(n));
      }
      ghost var bits := lists.freeBitmap;
      GiveFree(b, false, {b});
      KeptExact(bits, InitView().rings, lists.freeBitmap, lists.view.rings);
      assert {b} - {b} == {};
    }

    /** ZEND_MM_BLOCK of a block that is seen as free already. */
    method TagFree(b: Addr, n: nat)
      requires InHand(b, n, Free)
      modifies this`size, this`prev, lists`data
      ensures Core({b}) && FreeBlock(books.home, size, b) && size[b].n == n
    {
      hide HeapOk; hide HeadersApart; hide FreeLists.Valid;
      ghost var h := Tagged(Here(), b, Tag(n, Free));
      SetBlock(b, Free, n);
      assert Here() == h.(data := lists.data);
      BehindFree(h, {b}, b);
      HeadersKeep(h, {b}, b, b + n, lists.data);
    }

    /** zend_set_memory_limit. */
    method SetLimit(n: nat)
      requires Intact()
      modifies this`limit
      ensures Intact() && limit == Max(n, blockSize)
    {
      hide HeapOk; hide HeadersApart; hide FreeLists.Valid; hide LiveTotal; hide SegmentTotal; hide CacheTotal;
      limit := if n >= blockSize then n else blockSize;
    }

    /** zend_memory_usage: live bytes, and those that flushes forgot. */
    method MemoryUsage(whole: bool) returns (n: nat)
      requires Intact()
      ensures whole ==> n == SegmentTotal(segments)
      ensures !whole ==> n == LiveTotal(books.live) + books.flushed
    {
      hide HeapOk; hide HeadersApart; hide FreeLists.Valid; hide LiveTotal; hide SegmentTotal; hide CacheTotal;
      if whole {
        return realSize;
      }
      n := used;
      n := n - cached;
    }

    /** zend_memory_peak_usage dominates the usage. */
    method PeakUsage(whole: bool) returns (n: nat)
      requires Intact()
      ensures n == if whole then realPeak else peak
      ensures whole ==> n >= SegmentTotal(segments)
      ensures !whole ==> n >= LiveTotal(books.live) + cached + books.flushed
    {
      hide HeapOk; hide HeadersApart; hide FreeLists.Valid; hide LiveTotal; hide SegmentTotal; hide CacheTotal;
      return if whole then realPeak else peak;
    }

    /** _zend_mm_block_size: the whole block, its header included. */
    method BlockSizeOf(p: Addr) returns (n: nat)
      requires Intact() && (p == 0 || p - HEADER in books.live)
      ensures n == if p == 0 then 0 else books.live[p - HEADER].room + HEADER
    {
      hide HeapOk; hide HeadersApart; hide FreeLists.Valid; hide LiveTotal; hide SegmentTotal; hide CacheTotal;
      if p == 0 {
        return 0;
      }
      BehindLive(Here(), p - HEADER);
      n := size[p - HEADER].n;
    }

    /** A client writes all of its block; nobody else sees a change. */
    method Write(p: Addr, body: seq<bv8>)
      requires Intact() && p - HEADER in books.live && |body| == books.live[p - HEADER].room
      modifies this`books, lists`data
      ensures Intact()
      ensures var b := p - HEADER; books == old(books).(live := old(books).live[b := old(books).live[b].(body := body)])
    {
      hide HeapOk; hide HeadersApart; hide FreeLists.Valid; hide LiveTotal;
      hide SegmentTotal; hide CacheTotal; hide ValidSegmentBlock;
      ghost var h, b := Here(), p - HEADER;
      LiveRoom(h, {}, b);
      lists.StoreBytes(p, body, size);
      HeadersApartLess(size, prev, h.data, lists.data);
      ghost var x := books.live[b].(body := body);
      RewriteOk(h, b, x, lists.data);
      SameTotal(books.live, b, x);
      books := books.(live := books.live[b := x]);
      assert Here() == h.(live := books.live, data := lists.data);
    }

    /** A client reads its block: it finds in memory what it last wrote or was given there. */
    method Read(p: Addr, n: nat) returns (body: seq<bv8>)
      requires Intact() && p - HEADER in books.live && n <= books.live[p - HEADER].room
      ensures body == books.live[p - HEADER].body[..n]
    {
      hide HeapOk; hide HeadersApart; hide FreeLists.Valid; hide LiveTotal;
      hide SegmentTotal; hide CacheTotal; hide ValidSegmentBlock;
      LiveRoom(Here(), {}, p - HEADER);
      body := [];
      while |body| < n
        invariant |body| <= n && body == books.live[p - HEADER].body[..|body|]
        decreases n - |body|
      {
        body := body + [lists.data[p + |body|]];
      }
    }
  }

  lemma EmptyCache()
    ensures CacheTotal(InitView().rings, NUM_BUCKETS) == 0
  {
    NoCacheTotal(InitView().rings, NUM_BUCKETS);
  }

  lemma TaggedSame(owner: Owners, size: map<Addr, Tag>, b: Addr, t: Tag)
    requires Block(b) !in owner
    ensures SameSizes(owner, size, size[b := t])
  {
  }

  lemma Overwrite(m: map<Addr, Tag>, a: Addr, c: Addr, x: Tag, y: Tag, z: Tag)
    ensures m[a := x][a := y][c := z] == m[a := y][c := z]
    ensures m[c := x][a := y][c := z] == m[a := y][c := z]
  {
  }

  lemma TaggedAt(h: Heap, b: Addr, t: Tag)
    ensures var h' := Tagged(h, b, t);
      && h'.home == h.home && h'.owner == h.owner && h'.live == h.live && h'.data == h.data && h'.lost == h.lost && h'.segs == h.segs
      && b in h'.size && h'.size[b] == t && (b + t.n in h.size && b + t.n != b ==> b + t.n in h'.size && h'.size[b + t.n] == h.size[b + t.n])
  {
  }

  lemma CutIsStored(h: Heap, b: Addr, n: nat, trueSize: nat, kind: Kind, data1: Data, data2: Data)
    requires b in h.home && trueSize <= n
    ensures var mid := b + trueSize;
      Tagged(Tagged(h, b, Tag(trueSize, Used)).(data := data1), mid, Tag(n - trueSize, Free)).(data := data2, home := h.home[mid := h.home[b]])
      == Cut(Tagged(h, b, Tag(n, kind)), b, trueSize).(data := data2)
  {
    var t, u, m := Tag(trueSize, Used), Tag(n - trueSize, Free), b + trueSize;
    assert m + u.n == b + n;
    Overwrite(h.size, b, m, Tag(n, kind), t, u);
    Overwrite(h.prev, m, b + n, Tag(n, kind), t, u);
  }

  lemma CutTags(h: Heap, b: Addr, n: nat, trueSize: nat, kind: Kind)
    requires b in h.home && 0 < trueSize < n
    ensures var h' := Cut(Tagged(h, b, Tag(n, kind)), b, trueSize);
      && h'.data == h.data && b in h'.size && h'.size[b].n == trueSize
      && b + trueSize in h'.size && h'.size[b + trueSize].n == n - trueSize
      && (b + n in h.size ==> b + n in h'.size && h'.size[b + n] == h.size[b + n])
      && (b in h.prev ==> b in h'.prev && h'.prev[b] == h.prev[b])
  {
  }

  /** The list for a free block of `n` bytes. */
  function RestOrList(rest: bool, n: nat): Key {
    if rest || n < MIN_BLOCK then RestRing else ListKey(n)
  }

  function Max(a: nat, b: nat): nat {
    if a < b then b else a
  }

  /** The part of `body` that `n` bytes have room for. */
  function Fitting(body: seq<bv8>, n: nat): seq<bv8> {
    if n <= |body| then body[..n] else body
  }

  lemma KeptBytes(data: Data, data': Data, lo: Addr, body: seq<bv8>, body': seq<bv8>)
    requires BytesAt(data, lo, Fitting(body, |body'|)) && SameBytes(data, data', lo, lo + |body'|) && BytesAt(data', lo, body')
    ensures KeepsBytes(body, body')
  {
    forall k | 0 <= k < |body| && k < |body'|
      ensures body'[k] == body[k]
    {
      assert lo + k in data && data[lo + k] == Fitting(body, |body'|)[k];
    }
  }

  lemma SameBytesRefl(data: Data, lo: Addr, hi: Addr)
    ensures SameBytes(data, data, lo, hi)
  {
  }

  /** The bytes of block `b` in place, after what is behind it changed. */
  lemma StillThere(data0: Data, data1: Data, data2: Data, b: Addr, body: seq<bv8>, got: nat)
    requires BytesAt(data0, b + HEADER, body) && SameBytes(data0, data1, b + HEADER, b + HEADER + |body|)
    requires SameBytes(data1, data2, b + HEADER, b + got) && got >= HEADER
    ensures BytesAt(data2, b + HEADER, Fitting(body, got - HEADER))
  {
  }

  /** What block `c` holds after the first `n` bytes of block `b` were copied there. */
  lemma CopiedRoom(h: Heap, c: Addr, b: Addr, n: nat, data': Data) returns (x: Piece)
    requires HeapOk(h, {}) && b in h.live && c in h.live && n <= h.live[b].room && n <= h.live[c].room
    requires Copied(h.data, data', c + HEADER, b + HEADER, n)
    ensures x == h.live[c].(body := x.body) && |x.body| == x.room && BytesAt(data', c + HEADER, x.body)
    ensures |h.live[b].body| == h.live[b].room && x.asked <= x.room && KeepsBytes(h.live[b].body[..n], x.body)
    ensures forall y :: y in h.data && !(c + HEADER <= y < c + HEADER + x.room) ==> y in data' && data'[y] == h.data[y]
    ensures data'.Keys <= h.data.Keys
  {
    hide HeapOk; hide Copied;
    LiveRoom(h, {}, b);
    LiveRoom(h, {}, c);
    CopiedElsewhere(h.data, data', c + HEADER, b + HEADER, n);
    var room := h.live[c].room;
    x := h.live[c].(body := seq(room, k requires 0 <= k < room => data'[c + HEADER + k]));
    CopiedBytes(h.data, data', c + HEADER, b + HEADER, n, h.live[b].body, x.body);
  }

  lemma CopiedElsewhere(data: Data, data': Data, to: Addr, from: Addr, n: nat)
    requires Copied(data, data', to, from, n)
    ensures data'.Keys == data.Keys
    ensures forall y :: y in data && !(to <= y < to + n) ==> y in data' && data'[y] == data[y]
  {
    forall y
      ensures y in data'.Keys <==> y in data.Keys
    {
      assert y in data' <==> y in data;
    }
  }

  /** What was known of the room of block `b` is at the same place of block `b'`. */
  ghost predicate ShiftedBytes(data: Data, b: Addr, data': Data, b': Addr, n: nat) {
    forall x :: b + HEADER <= x < b + n && x in data ==> x - b + b' in data' && data'[x - b + b'] == data[x]
  }

  lemma CarriedAlong(data0: Data, data1: Data, data2: Data, b: Addr, b': Addr, body: seq<bv8>, n: nat, got: nat)
    requires BytesAt(data0, b + HEADER, body) && ShiftedBytes(data0, b, data1, b', n) && |body| + HEADER <= n && |body| + HEADER <= got
    requires SameBytes(data1, data2, b' + HEADER, b' + got)
    ensures BytesAt(data2, b' + HEADER, Fitting(body, got - HEADER))
  {
    assert Fitting(body, got - HEADER) == body;
    forall x | b' + HEADER <= x < b' + HEADER + |body|
      ensures x in data2 && data2[x] == body[x - b' - HEADER]
    {
      var y := x - b' + b;
      assert y in data0 && data0[y] == body[y - b - HEADER];
    }
  }

  lemma SegmentShifted(data: Data, data1: Data, data2: Data, s0: Segment, s: Segment, n: nat)
    requires data1 == Relocated(data, s0.base, s0.size, s.base, s.size, SEGMENT_HEADER + HEADER)
    requires s0.First() + n == s0.Last() && n + SEGMENT_HEADER + HEADER <= s.size
    requires ButHeaders(data1, data2, s.First(), s.Last())
    ensures ShiftedBytes(data, s0.First(), data2, s.First(), n)
  {
    hide Relocated;
    RelocatedIs(data, s0.base, s0.size, s.base, s.size, SEGMENT_HEADER + HEADER);
  }

  /** The mark of a first block that stays is not among what is forgotten behind it. */
  lemma FirstKept(prev: map<Addr, Tag>, b: Addr, lo: Addr, hi: Addr)
    requires lo == b + HEADER
    ensures prev[b := FIRST] == prev ==> TagsOutside(prev, PREV_SIZE, lo, hi)[b := FIRST] == TagsOutside(prev, PREV_SIZE, lo, hi)
  {
    if prev[b := FIRST] == prev {
      assert b in prev[b := FIRST] && prev[b] == FIRST;
      assert b in TagsOutside(prev, PREV_SIZE, lo, hi) && TagsOutside(prev, PREV_SIZE, lo, hi)[b] == FIRST;
    }
  }

  lemma NewSegmentAligned(segs: seq<Segment>, s: Segment)
    requires NewSegment(segs, s)
    ensures (s.base + (SEGMENT_HEADER + HEADER)) % 8 == 0
  {
    AlignedSum(s.base, SEGMENT_HEADER + HEADER);
    assert Aligned(s.base + (SEGMENT_HEADER + HEADER));
  }

  /** What the two removals of a release do to the small bitmap, whatever is listed later. */
  lemma FreedShows(size: map<Addr, Tag>, b: Addr, next: Addr, t: Tag, u: Tag, b0: nat, v0: View, b1: nat, v1: View, b2: nat, v2: View)
    requires Absorbed(size, t.kind == Free, next, t.n, b0, v0, b1, v1) && Absorbed(size, u.kind == Free, b - u.n, u.n, b1, v1, b2, v2)
    requires u.kind == Free ==> !InRest(v1.owner, b - u.n)
    ensures forall i: nat, b3, rings :: KeptBits(b2, v2.rings, b3, rings) && Shows(b0, v0.rings, i) ==>
      (Shows(b3, rings, i) <==> !HidesBoth(v0.rings, v0.owner, t.kind == Free, next, t.n, u.kind == Free, b - u.n, i))
  {
    hide Shows; hide HidesBoth; hide KeptBits;
    forall i: nat, b3, rings | KeptBits(b2, v2.rings, b3, rings) && Shows(b0, v0.rings, i)
      ensures Shows(b3, rings, i) <==> !HidesBoth(v0.rings, v0.owner, t.kind == Free, next, t.n, u.kind == Free, b - u.n, i)
    {
      FreedBits(size, b0, v0, b1, v1, b2, v2, b3, v2.(rings := rings), t.kind == Free, next, t.n, u.kind == Free, b - u.n, u.n, i);
    }
  }

  lemma FlushedShows(size: map<Addr, Tag>, b: Addr, next: Addr, t: Tag, u: Tag, b0: nat, v0: View, b1: nat, v1: View, b2: nat, v2: View)
    requires Absorbed(size, u.kind == Free, b - u.n, u.n, b0, v0, b1, v1)
    requires Absorbed(size, t.kind == Free, next, t.n, b1, v1, b2, v2)
    requires u.kind == Free ==> !InRest(v0.owner, b - u.n)
    requires RestRing in v0.rings && next > b
    ensures forall i: nat, b3, rings :: KeptBits(b2, v2.rings, b3, rings) && Shows(b0, v0.rings, i) ==>
      (Shows(b3, rings, i) <==> !HidesAfter(v0.rings, v0.owner, t.kind == Free, next, t.n, u.kind == Free, b - u.n, i))
  {
    hide Shows; hide HidesAfter; hide KeptBits; hide TookBits; hide RestWithout;
    forall i: nat, b3, rings | KeptBits(b2, v2.rings, b3, rings) && Shows(b0, v0.rings, i)
      ensures Shows(b3, rings, i) <==> !HidesAfter(v0.rings, v0.owner, t.kind == Free, next, t.n, u.kind == Free, b - u.n, i)
    {
      FlushedBits(size, b0, v0, b1, v1, b2, v2, b3, rings, t.kind == Free, next, t.n, u.kind == Free, b - u.n, u.n, i);
    }
  }

  /** The second header of a block replaces the first. */
  lemma TaggedTwice(h: Heap, b: Addr, n: nat, kind: Kind)
    requires n > 0
    ensures var h' := Tagged(Tagged(h, b, Tag(n, kind)), b, Tag(n, Used));
      && h' == Tagged(h, b, Tag(n, Used)) && b in h'.size && h'.size[b] == Tag(n, Used) && h'.data == h.data
      && (b + n in h.size ==> b + n in h'.size && h'.size[b + n] == h.size[b + n])
      && (b in h.prev ==> b in h'.prev && h'.prev[b] == h.prev[b])
  {
  }

  lemma WholeBytes(data: Data, data': Data, b: Addr, n: nat)
    requires ButHeaders(data, data', b, b + n)
    ensures SameBytes(data, data', b + HEADER, b + n)
  {
  }

  lemma MinimalBlock(t: nat)
    requires ValidBlockSize(t)
    ensures t >= HEADER
  {
  }

  lemma GrantedIs(live: Live, live': Live, q: Addr, n: nat)
    requires Granted(live, live', q, n)
    ensures q - HEADER !in live && q - HEADER in live' && live' == live[q - HEADER := live'[q - HEADER]]
    ensures TrueSize(n) <= live'[q - HEADER].room + HEADER
  {
  }

  /** A block that was granted beside block `b` takes its place. */
  lemma CopiedGrant(live: Live, live': Live, live'': Live, b: Addr, q: Addr, n: nat)
    requires Granted(live, live', q, n) && b in live
    requires q - HEADER in live'' && live'' == live'[q - HEADER := live''[q - HEADER]] - {b}
    requires live''[q - HEADER] == live'[q - HEADER].(body := live''[q - HEADER].body)
    requires KeepsBytes(live[b].body, live''[q - HEADER].body)
    ensures Regranted(live, live'', b + HEADER, q, n)
  {
    hide KeepsBytes;
    assert live'' == (live - {b})[q - HEADER := live''[q - HEADER]];
  }

  lemma ReserveStays(live: Live, live': Live, p: Addr, q: Addr, n: nat, r: Addr)
    requires Regranted(live, live', p, q, n) && r != p && (r == 0 || r - HEADER in live)
    ensures r == 0 || r - HEADER in live'
  {
  }

  lemma NearPrepend(s: Segment, segs: seq<Segment>)
    ensures NearSegments([s] + segs) <==> s.size < FAR && NearSegments(segs)
  {
    assert s == ([s] + segs)[0] && forall x :: x in [s] + segs <==> x == s || x in segs;
  }

  lemma NearReplace(segs: seq<Segment>, j: nat, s: Segment)
    requires j < |segs| && NearSegments(segs)
    ensures NearSegments(segs[j := s]) <==> s.size < FAR
  {
    assert segs[j := s][j] == s;
  }

  lemma NoneLost(prev: map<Addr, Tag>, b: Addr)
    ensures BeforeNoLost({}, prev, b)
  {
  }

  /** The client of a block may change what it holds, but not its room. */
  lemma SameTotal(live: Live, b: Addr, x: Piece)
    requires b in live && x.room == live[b].room
    ensures LiveTotal(live[b := x]) == LiveTotal(live)
  {
    LiveTotalRemove(live, b);
    LiveTotalRemove(live[b := x], b);
    assert live[b := x] - {b} == live - {b};
  }

  lemma OneSegment(segs: seq<Segment>)
    requires |segs| <= 1
    ensures SegmentTotal(segs) == if segs == [] then 0 else segs[0].size
  {
    assert segs != [] ==> segs[1..] == [];
  }

  lemma NoLiveTotal()
    ensures LiveTotal(map[]) == 0
  {
  }
}
