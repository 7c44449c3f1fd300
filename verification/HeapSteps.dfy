/** Steps of the heap's operations, as changes of a Heap value. */
module HeapSteps {
  import opened Sequences
  import opened Bits
  import opened Sizes
  import opened Tags
  import opened Rings
  import opened Memory
  import opened FreeListSpec
  import opened FreeListSteps
  import opened Tiling
  import opened HeapSpec

  /** ZEND_MM_BLOCK(b, t.kind, t.n). */
  function Tagged(h: Heap, b: Addr, t: Tag): Heap {
    h.(size := h.size[b := t], prev := h.prev[b + t.n := t])
  }

  lemma EmptyHeapOk(owner: Owners, size: map<Addr, Tag>, prev: map<Addr, Tag>, data: Data)
    requires FreeAddrs(owner) == {} && CachedAddrs(owner) == {}
    ensures HeapOk(Heap([], map[], size, prev, owner, map[], data, {}), {})
  {
    hide FreeAddrs; hide CachedAddrs;
    forall a
      ensures !InRest(owner, a)
    {
      Listed(owner, a);
    }
  }

  // ---- memory ----

  /** Live blocks find their bytes in `data'`. */
  lemma DataOk(h: Heap, hand: set<Addr>, data': Data)
    requires HeapOk(h, hand)
    requires forall a :: a in h.live ==> SameBytes(h.data, data', a + HEADER, a + HEADER + h.live[a].room)
    ensures HeapOk(h.(data := data'), hand)
  {
    hide Layout; hide Shared; hide LostOk; hide SegmentsBounded;
    forall a | a in h.live
      ensures BytesAt(data', a + HEADER, h.live[a].body)
    {
      assert SameBytes(h.data, data', a + HEADER, a + HEADER + h.live[a].room);
      assert BytesAt(h.data, a + HEADER, h.live[a].body);
    }
  }

  /** The bytes of blocks that are neither in the free lists nor `b` are the same. */
  ghost predicate OthersKept(h: Heap, b: Addr, data': Data) {
    forall a :: a in h.home && a in h.size && !MayOverwrite(h.owner, b, a) ==> SameBytes(h.data, data', a + HEADER, a + h.size[a].n)
  }

  /** The link fields of free blocks lie in their blocks. */
  lemma LinksInside(h: Heap, hand: set<Addr>, b: Addr, y: Addr)
    requires HeapOk(h, hand) && (b in h.home && b in h.size && h.size[b].kind != Guard) && MayOverwrite(h.owner, b, y)
    ensures y in h.home && y in h.size && LinksEnd(h.size, y) <= y + h.size[y].n
  {
    if y != b {
      Listed(h.owner, y);
      SharedFree(h, hand, y);
    }
    NextInHome(h.segs, h.home, h.size, h.prev, y);
    hide HeapOk;
  }

  /** Stores to link fields leave the bytes of other blocks alone. */
  lemma StoresKeep(h: Heap, hand: set<Addr>, b: Addr, s: Store, s': Store, size: map<Addr, Tag>)
    requires HeapOk(h, hand) && b in h.home && b in h.size && h.size[b].kind != Guard
    requires s.data == h.data && Untouched(s, s', h.owner, size, b) && size == h.size
    ensures OthersKept(h, b, s'.data)
  {
    hide HeapOk;
    forall a | a in h.home && a in h.size && !MayOverwrite(h.owner, b, a)
      ensures SameBytes(h.data, s'.data, a + HEADER, a + h.size[a].n)
    {
      forall x | a + HEADER <= x < a + h.size[a].n && x in h.data
        ensures !InLinks(h.owner, h.size, b, x)
      {
        if InLinks(h.owner, h.size, b, x) {
          var y :| MayOverwrite(h.owner, b, y) && y + HEADER <= x < LinksEnd(h.size, y);
          LinksInside(h, hand, b, y);
          BlocksApart(h, hand, a, y);
        }
      }
    }
  }

  lemma BlocksApart(h: Heap, hand: set<Addr>, a: Addr, y: Addr)
    requires HeapOk(h, hand) && a in h.home && y in h.home && a != y
    ensures a in h.size && y in h.size && (a + h.size[a].n <= y || y + h.size[y].n <= a)
  {
    hide Shared; hide LiveOk; hide Coalesced; hide BlocksOk; hide SegmentsApart;
    BlockBounded(h.segs, h.home, h.size, h.prev, a);
    BlockBounded(h.segs, h.home, h.size, h.prev, y);
  }

  lemma LiveKept(h: Heap, hand: set<Addr>, b: Addr, data': Data)
    requires HeapOk(h, hand) && OthersKept(h, b, data') && (b in hand || b in FreeAddrs(h.owner))
    ensures HeapOk(h.(data := data'), hand)
  {
    hide HeapOk;
    forall a | a in h.live
      ensures SameBytes(h.data, data', a + HEADER, a + HEADER + h.live[a].room)
    {
      SharedFree(h, hand, a);
      SharedFree(h, hand, b);
      Listed(h.owner, a);
      LiveRoom(h, hand, a);
      assert !MayOverwrite(h.owner, b, a);
    }
    DataOk(h, hand, data');
  }

  /** Headers are stored outside of the rooms of live blocks. */
  lemma HeadersKeep(h: Heap, hand: set<Addr>, c: Addr, d: Addr, data': Data)
    requires HeapOk(h, hand) && c in h.home && d in h.home && ButHeaders(h.data, data', c, d)
    ensures HeapOk(h.(data := data'), hand)
  {
    hide HeapOk;
    forall a | a in h.live
      ensures SameBytes(h.data, data', a + HEADER, a + HEADER + h.live[a].room)
    {
      RoomWithoutHeader(h, hand, a, c);
      RoomWithoutHeader(h, hand, a, d);
    }
    DataOk(h, hand, data');
  }

  lemma NoMoreBytes(s: Store, s': Store, owner: Owners, size: map<Addr, Tag>, b: Addr)
    requires Untouched(s, s', owner, size, b)
    ensures s'.data.Keys <= s.data.Keys
  {
    forall x | x in s'.data.Keys
      ensures x in s.data
    {
      assert x in s'.data;
    }
  }

  lemma KeptAt(h: Heap, b: Addr, data': Data, a: Addr)
    requires OthersKept(h, b, data') && a in h.home && a in h.size && a != b && Block(a) !in h.owner
    ensures SameBytes(h.data, data', a + HEADER, a + h.size[a].n)
  {
  }

  lemma BehindUsed(h: Heap, hand: set<Addr>, b: Addr)
    requires HeapOk(h, hand) && UsedBlock(h.home, h.size, b)
    ensures b + h.size[b].n in h.home
  {
    NextInHome(h.segs, h.home, h.size, h.prev, b);
  }

  lemma BehindFree(h: Heap, hand: set<Addr>, b: Addr)
    requires HeapOk(h, hand) && b in h.home && b in h.size && h.size[b].kind == Free
    ensures b + h.size[b].n in h.home
  {
    NextInHome(h.segs, h.home, h.size, h.prev, b);
  }

  lemma CutHome(h: Heap, b: Addr, n: nat)
    requires HeapOk(h, {b}) && b in h.home && b in h.size && h.size[b].kind != Guard && n <= h.size[b].n
    ensures b in Cut(h, b, n).home && b + n in Cut(h, b, n).home && b + h.size[b].n in Cut(h, b, n).home
  {
    NextInHome(h.segs, h.home, h.size, h.prev, b);
  }

  /** The headers of a cut touch no live block, and not the front part. */
  lemma CutKeep(h: Heap, b: Addr, mid: Addr, hi: Addr, data1: Data, data2: Data)
    requires HeapOk(h, {b, mid}) && b in h.home && mid in h.home && hi in h.home && b < mid < hi
    requires ButHeaders(h.data, data1, b, mid) && ButHeaders(data1, data2, mid, hi)
    ensures HeapOk(h.(data := data2), {b, mid})
    ensures SameBytes(h.data, data2, b + HEADER, mid)
  {
    hide HeapOk;
    HeadersKeep(h, {b, mid}, b, mid, data1);
    HeadersKeep(h.(data := data1), {b, mid}, mid, hi, data2);
  }

  lemma NotOwnedInHand(h: Heap, hand: set<Addr>, b: Addr)
    requires HeapOk(h, hand) && b in hand
    ensures Block(b) !in h.owner
  {
    NotOwned(h.home, h.size, h.owner, h.live, hand + h.lost, b);
  }

  /** No header lies in the room of a live block. */
  lemma RoomWithoutHeader(h: Heap, hand: set<Addr>, a: Addr, y: Addr)
    requires HeapOk(h, hand) && a in h.live && y in h.home
    ensures y + HEADER <= a + HEADER || a + HEADER + h.live[a].room <= y
  {
    hide Shared; hide LiveOk; hide LostOk; hide Coalesced; hide Apart;
    LiveRoom(h, hand, a);
    if y != a {
      BlocksApart(h, hand, a, y);
      Neighbours(h.segs, h.home, h.size, h.prev, y);
    }
  }

  // ---- blocks change hands ----

  lemma Listed(owner: Owners, b: Addr)
    ensures b in FreeAddrs(owner) <==> Block(b) in owner && !owner[Block(b)].CacheChain?
    ensures b in CachedAddrs(owner) <==> Block(b) in owner && owner[Block(b)].CacheChain?
  {
  }

  /** What being in a list, in the cache or with a client means for a block. */
  lemma SharedFree(h: Heap, hand: set<Addr>, b: Addr)
    requires HeapOk(h, hand)
    ensures b in FreeAddrs(h.owner) ==> FreeBlock(h.home, h.size, b) && b !in hand && b !in h.lost
    ensures b in CachedAddrs(h.owner) ==> UsedBlock(h.home, h.size, b) && b !in hand && b !in h.lost && b !in h.live
    ensures b in h.live ==> UsedBlock(h.home, h.size, b) && b !in hand && b !in h.lost
    ensures b in h.lost ==> FreeBlock(h.home, h.size, b) && b !in hand
    ensures FreeBlock(h.home, h.size, b) && b !in hand && b !in h.lost ==> b in FreeAddrs(h.owner)
    ensures b in hand ==> b !in h.live && b !in h.lost
  {
    hide Layout; hide LiveOk; hide SegmentsBounded; hide FreeAddrs; hide CachedAddrs;
    assert b in h.lost ==> LostAt(h.home, h.size, h.prev, h.live, b);
  }

  /** Headers may change where no block is listed and no guard is. */
  lemma RestFrame(h: Heap, hand: set<Addr>, size': map<Addr, Tag>)
    requires HeapOk(h, hand)
    requires forall x :: x in h.home && x in h.size && (Block(x) in h.owner || h.size[x].kind == Guard) ==> x in size' && size'[x] == h.size[x]
    ensures RestOk(h.owner, size')
  {
    forall a | InRest(h.owner, a)
      ensures LastFree(size', a)
    {
      Listed(h.owner, a);
      SharedFree(h, hand, a);
      NextInHome(h.segs, h.home, h.size, h.prev, a);
      assert LastFree(h.size, a);
    }
    hide HeapOk;
  }

  /** A free block leaves its list. */
  lemma TakeFreeOk(h: Heap, hand: set<Addr>, b: Addr, owner': Owners, data': Data)
    requires HeapOk(h, hand) && OthersKept(h, b, data')
    requires Block(b) in h.owner && !h.owner[Block(b)].CacheChain? && owner' == h.owner - {Block(b)}
    ensures HeapOk(h.(owner := owner', data := data'), hand + {b})
    ensures FreeBlock(h.home, h.size, b) && b !in hand && Block(b) !in owner'
    ensures CachedAddrs(owner') == CachedAddrs(h.owner)
  {
    hide Layout; hide FreeBlock; hide UsedBlock; hide OthersKept; hide LiveOk; hide LostOk; hide SegmentsBounded; hide Shared;
    hide FreeAddrs; hide CachedAddrs;
    AddrsRemove(h.owner, b);
    Listed(h.owner, b);
    LiveKept(h, hand, b, data');
    TakeInHand(h.home, h.size, FreeAddrs(h.owner), CachedAddrs(h.owner), h.live, hand + h.lost, b);
    SharedFree(h, hand, b);
    assert hand + h.lost + {b} == hand + {b} + h.lost;
  }

  /** A free block enters a list. */
  lemma GiveFreeOk(h: Heap, hand: set<Addr>, b: Addr, owner': Owners, data': Data)
    requires HeapOk(h, hand) && b in hand && FreeBlock(h.home, h.size, b) && OthersKept(h, b, data')
    requires FreeAddrs(owner') == FreeAddrs(h.owner) + {b} && CachedAddrs(owner') == CachedAddrs(h.owner)
    requires forall a :: InRest(owner', a) ==> InRest(h.owner, a) || (a == b && LastFree(h.size, b))
    ensures HeapOk(h.(owner := owner', data := data'), hand - {b})
  {
    hide Layout; hide FreeBlock; hide UsedBlock; hide OthersKept; hide LiveOk; hide LostOk; hide SegmentsBounded; hide Shared;
    hide FreeAddrs; hide CachedAddrs;
    LiveKept(h, hand, b, data');
    GiveAway(h.home, h.size, FreeAddrs(h.owner), CachedAddrs(h.owner), h.live, hand + h.lost, b, Piece(0, 0, []));
    assert hand + h.lost - {b} == hand - {b} + h.lost;
  }

  lemma TakeCachedOk(h: Heap, hand: set<Addr>, b: Addr, owner': Owners)
    requires HeapOk(h, hand)
    requires Block(b) in h.owner && h.owner[Block(b)].CacheChain? && owner' == h.owner - {Block(b)}
    ensures HeapOk(h.(owner := owner'), hand + {b})
    ensures UsedBlock(h.home, h.size, b) && b !in hand && Block(b) !in owner' && b !in h.live
  {
    hide Layout; hide LiveOk; hide LostOk; hide SegmentsBounded; hide Shared; hide FreeAddrs; hide CachedAddrs;
    AddrsRemove(h.owner, b);
    Listed(h.owner, b);
    SharedFree(h, hand, b);
    TakeInHand(h.home, h.size, FreeAddrs(h.owner), CachedAddrs(h.owner), h.live, hand + h.lost, b);
    assert hand + h.lost + {b} == hand + {b} + h.lost;
  }

  /** A used block enters the cache; its link field overwrites the first word of its room. */
  lemma GiveCachedOk(h: Heap, hand: set<Addr>, b: Addr, i: nat, s: Store, s': Store)
    requires HeapOk(h, hand) && b in hand && UsedBlock(h.home, h.size, b)
    requires s.data == h.data && Untouched(s, s', map[], map[], b)
    ensures Block(b) !in h.owner
    ensures HeapOk(h.(owner := h.owner[Block(b) := CacheChain(i)], data := s'.data), hand - {b})
  {
    hide Layout; hide LiveOk; hide LostOk; hide SegmentsBounded; hide Shared; hide FreeAddrs; hide CachedAddrs; hide Untouched;
    CachedKeep(h, hand, b, s, s');
    NotOwned(h.home, h.size, h.owner, h.live, hand + h.lost, b);
    AddrsAdd(h.owner, b, CacheChain(i));
    GiveAway(h.home, h.size, FreeAddrs(h.owner), CachedAddrs(h.owner), h.live, hand + h.lost, b, Piece(0, 0, []));
    assert hand + h.lost - {b} == hand - {b} + h.lost;
  }

  lemma LiveRoom(h: Heap, hand: set<Addr>, a: Addr)
    requires HeapOk(h, hand) && a in h.live
    ensures a in h.home && a in h.size && h.size[a].n == h.live[a].room + HEADER && |h.live[a].body| == h.live[a].room
    ensures h.live[a].asked <= h.live[a].room
    ensures BytesAt(h.data, a + HEADER, h.live[a].body)
  {
    hide Layout; hide Shared;
    SharedFree(h, hand, a);
  }

  lemma CachedKeep(h: Heap, hand: set<Addr>, b: Addr, s: Store, s': Store)
    requires HeapOk(h, hand) && b in hand && UsedBlock(h.home, h.size, b)
    requires s.data == h.data && Untouched(s, s', map[], map[], b)
    ensures HeapOk(h.(data := s'.data), hand)
  {
    NextInHome(h.segs, h.home, h.size, h.prev, b);
    forall a | a in h.live
      ensures SameBytes(h.data, s'.data, a + HEADER, a + HEADER + h.live[a].room)
    {
      SharedFree(h, hand, a);
      SharedFree(h, hand, b);
      BlocksApart(h, hand, a, b);
      LiveRoom(h, hand, a);
      forall x | InLinks(map[], map[], b, x)
        ensures b + HEADER <= x < b + h.size[b].n
      {
      }
    }
    DataOk(h, hand, s'.data);
    hide HeapOk;
  }

  /** No lost block lies behind block `b`. */
  ghost predicate BeforeNoLost(lost: set<Addr>, prev: map<Addr, Tag>, b: Addr) {
    forall a :: a in lost && a in prev ==> a - prev[a].n != b
  }

  lemma LostWithout(h: Heap, b: Addr)
    requires LostOk(h.lost, h.home, h.size, h.prev, h.live) && BeforeNoLost(h.lost, h.prev, b)
    ensures LostOk(h.lost, h.home, h.size, h.prev, h.live - {b})
  {
    forall a | a in h.lost
      ensures LostAt(h.home, h.size, h.prev, h.live - {b}, a)
    {
      assert LostAt(h.home, h.size, h.prev, h.live, a);
    }
  }

  lemma TakeLiveOk(h: Heap, hand: set<Addr>, b: Addr)
    requires HeapOk(h, hand) && b in h.live && BeforeNoLost(h.lost, h.prev, b)
    ensures HeapOk(h.(live := h.live - {b}), hand + {b})
    ensures UsedBlock(h.home, h.size, b) && h.size[b].n == h.live[b].room + HEADER && b !in hand && Block(b) !in h.owner
    ensures b in h.prev && ValidBlockSize(h.size[b].n) && h.size[b].n < WORD
    ensures BytesAt(h.data, b + HEADER, h.live[b].body)
  {
    hide Layout; hide LostOk; hide SegmentsBounded; hide FreeAddrs; hide CachedAddrs; hide Shared;
    hide BytesAt;
    LiveBlock(h, hand, b);
    LiveRoom(h, hand, b);
    LostWithout(h, b);
    TakeInHand(h.home, h.size, FreeAddrs(h.owner), CachedAddrs(h.owner), h.live, hand + h.lost, b);
    assert hand + h.lost + {b} == hand + {b} + h.lost;
    NotOwned(h.home, h.size, h.owner, h.live, hand + h.lost, b);
    SharedFree(h, hand, b);
  }

  lemma LiveBlock(h: Heap, hand: set<Addr>, b: Addr)
    requires HeapOk(h, hand) && b in h.live
    ensures UsedBlock(h.home, h.size, b) && b !in hand
    ensures b in h.prev && ValidBlockSize(h.size[b].n) && h.size[b].n < WORD
  {
    hide LostOk; hide LiveOk; hide Shared;
    SharedFree(h, hand, b);
    NextInHome(h.segs, h.home, h.size, h.prev, b);
    BlockBounded(h.segs, h.home, h.size, h.prev, b);
    AlignedBlockSize(h.size[b].n);
  }

  lemma GiveLiveOk(h: Heap, hand: set<Addr>, b: Addr, p: Piece)
    requires HeapOk(h, hand) && b in hand && UsedBlock(h.home, h.size, b)
    requires p.room + HEADER == h.size[b].n && p.asked <= p.room && |p.body| == p.room && BytesAt(h.data, b + HEADER, p.body)
    ensures HeapOk(h.(live := h.live[b := p]), hand - {b}) && b !in h.live
  {
    hide Layout; hide SegmentsBounded; hide FreeAddrs; hide CachedAddrs; hide Shared; hide BytesAt;
    GiveAway(h.home, h.size, FreeAddrs(h.owner), CachedAddrs(h.owner), h.live, hand + h.lost, b, p);
    SharedFree(h, hand, b);
    assert hand + h.lost - {b} == hand - {b} + h.lost;
    forall a | a in h.lost
      ensures LostAt(h.home, h.size, h.prev, h.live[b := p], a)
    {
      assert LostAt(h.home, h.size, h.prev, h.live, a);
    }
  }

  /** Headers of former blocks can be forgotten, and more bytes become known. */
  lemma ForgetOk(h: Heap, hand: set<Addr>, size': map<Addr, Tag>, prev': map<Addr, Tag>, data': Data)
    requires HeapOk(h, hand) && SameTags(h.home, h.size, size') && SameTags(h.home, h.prev, prev')
    requires forall x :: x in h.data ==> x in data' && data'[x] == h.data[x]
    ensures HeapOk(h.(size := size', prev := prev', data := data'), hand)
  {
    ForgetTiles(h.segs, h.home, h.size, h.prev, size', prev');
    ForgetShared(h, hand, size', prev');
    ForgetLost(h, hand, size', prev');
    hide Layout; hide Shared; hide LostOk; hide SameTags; hide LiveOk; hide SegmentsBounded;
    var h' := h.(size := size', prev := prev');
    RestFrame(h, hand, size');
    assert HeapOk(h', hand);
    DataOk(h', hand, data');
  }

  /** No block has words of use in [lo, hi): every block lies outside, or is one that is in
      no list and has its header before. */
  ghost predicate RangeClear(h: Heap, lo: Addr, hi: Addr) {
    forall x :: x in h.home && x in h.size ==> x + h.size[x].n <= lo || hi <= x || (x + HEADER <= lo && Block(x) !in h.owner)
  }

  lemma HeaderInside(h: Heap, hand: set<Addr>, y: Addr)
    requires HeapOk(h, hand) && y in h.home
    ensures y in h.size && h.size[y].n >= HEADER
  {
    hide Aligned;
    Neighbours(h.segs, h.home, h.size, h.prev, y);
  }

  lemma ListedHome(h: Heap, hand: set<Addr>, a: Addr)
    requires HeapOk(h, hand) && Block(a) in h.owner
    ensures a in h.home && a in h.size
  {
    hide HeapOk;
    Listed(h.owner, a);
    SharedFree(h, hand, a);
  }

  /** What lies there can be forgotten. */
  lemma VacateFrame(h: Heap, hand: set<Addr>, lo: Addr, hi: Addr)
    requires HeapOk(h, hand) && RangeClear(h, lo, hi)
    ensures ListsOutside(h.owner, h.size, lo, hi)
    ensures SameTags(h.home, h.size, TagsOutside(h.size, 0, lo, hi)) && SameTags(h.home, h.prev, TagsOutside(h.prev, PREV_SIZE, lo, hi))
    ensures SameSizes(h.owner, h.size, TagsOutside(h.size, 0, lo, hi))
  {
    hide HeapOk;
    forall a | Block(a) in h.owner
      ensures a in h.home && a in h.size && (a + h.size[a].n <= lo || hi <= a)
    {
      ListedHome(h, hand, a);
    }
    forall b | b in h.home
      ensures b in h.size && (b + HEADER <= lo || hi <= b)
    {
      HeaderInside(h, hand, b);
    }
  }

  /** The room of a block that is in no list. */
  lemma RoomClear(h: Heap, hand: set<Addr>, b: Addr)
    requires HeapOk(h, hand) && b in h.home && b in h.size && h.size[b].kind != Guard && Block(b) !in h.owner
    ensures (b + HEADER) % 8 == 0 && b + HEADER < b + h.size[b].n
    ensures RangeClear(h, b + HEADER, b + h.size[b].n)
  {
    BlockBoundedIn(h, hand, b);
    LiveAligned(h, hand, b);
    NextInHome(h.segs, h.home, h.size, h.prev, b);
    hide HeapOk; hide Aligned; hide ValidBlockSize;
    forall x | x in h.home && x in h.size && x != b
      ensures x + h.size[x].n <= b || b + h.size[b].n <= x
    {
      BlocksApart(h, hand, x, b);
    }
  }

  /** Memory that storage hands out. */
  lemma NewSegmentClear(h: Heap, hand: set<Addr>, s: Segment, lo: Addr)
    requires HeapOk(h, hand) && NewSegment(h.segs, s) && s.base <= lo
    ensures RangeClear(h, lo, s.base + s.size)
    ensures forall a :: a in h.live ==> a + HEADER + h.live[a].room <= s.base || s.base + s.size <= a + HEADER
  {
    hide HeapOk;
    forall x | x in h.home
      ensures x in h.size && (x + h.size[x].n <= s.base || s.base + s.size <= x)
    {
      BlockOutside(h, hand, s, x);
    }
    forall a | a in h.live
      ensures a in h.home && a in h.size && h.size[a].n == h.live[a].room + HEADER
    {
      LiveRoom(h, hand, a);
    }
  }

  lemma BlockOutside(h: Heap, hand: set<Addr>, s: Segment, x: Addr)
    requires HeapOk(h, hand) && NewSegment(h.segs, s) && x in h.home
    ensures x in h.size && (x + h.size[x].n <= s.base || s.base + s.size <= x)
  {
    hide BlocksOk; hide SegmentsApart; hide Apart; hide Aligned;
    Neighbours(h.segs, h.home, h.size, h.prev, x);
    BlockInSegment(h.home, h.size, h.prev, x);
    assert Disjoint(s, h.home[x]);
  }

  /** Blocks keep their headers. */
  ghost predicate SameTags(home: Home, tags: map<Addr, Tag>, tags': map<Addr, Tag>) {
    forall b :: b in home && b in tags ==> b in tags' && tags'[b] == tags[b]
  }

  lemma ForgetTiles(segs: seq<Segment>, home: Home, size: map<Addr, Tag>, prev: map<Addr, Tag>, size': map<Addr, Tag>,
                    prev': map<Addr, Tag>)
    requires Layout(segs, home, size, prev) && SameTags(home, size, size') && SameTags(home, prev, prev')
    ensures Layout(segs, home, size', prev')
  {
    hide Aligned; hide SegmentsApart; hide SegmentOk;
    forall b | b in home
      ensures home[b] in segs && BlockOk(home, size', prev', b) && b in size && b in prev
    {
      Neighbours(segs, home, size, prev, b);
    }
    hide BlockOk;
  }

  lemma ForgetShared(h: Heap, hand: set<Addr>, size': map<Addr, Tag>, prev': map<Addr, Tag>)
    requires HeapOk(h, hand) && SameTags(h.home, h.size, size')
    ensures Shared(h.home, size', FreeAddrs(h.owner), CachedAddrs(h.owner), h.live, hand + h.lost)
    ensures LiveOk(size', h.live, h.data)
  {
    hide FreeAddrs; hide CachedAddrs;
    forall a | a in h.home
      ensures a in h.size && a in size' && size'[a] == h.size[a]
    {
      BlockBounded(h.segs, h.home, h.size, h.prev, a);
    }
    hide Layout;
  }

  lemma ForgetLost(h: Heap, hand: set<Addr>, size': map<Addr, Tag>, prev': map<Addr, Tag>)
    requires HeapOk(h, hand) && SameTags(h.home, h.size, size') && SameTags(h.home, h.prev, prev')
    ensures LostOk(h.lost, h.home, size', prev', h.live)
  {
    forall a | a in h.lost
      ensures LostAt(h.home, size', prev', h.live, a)
    {
      SharedFree(h, hand, a);
      NextInHome(h.segs, h.home, h.size, h.prev, a);
      assert LostAt(h.home, h.size, h.prev, h.live, a);
    }
    hide Layout; hide Shared; hide LiveOk;
  }

  /** What a client may count on. */
  lemma LiveAligned(h: Heap, hand: set<Addr>, b: Addr)
    requires HeapOk(h, hand) && b in h.home
    ensures b > 0 && b % ALIGNMENT == 0 && (b + HEADER) % ALIGNMENT == 0
  {
    Neighbours(h.segs, h.home, h.size, h.prev, b);
    BlockBounded(h.segs, h.home, h.size, h.prev, b);
    assert Aligned(b);
    AlignedSum(b, HEADER);
  }

  lemma ListedFree(h: Heap, hand: set<Addr>, b: Addr)
    requires HeapOk(h, hand) && Block(b) in h.owner && !h.owner[Block(b)].CacheChain?
    ensures FreeBlock(h.home, h.size, b)
  {
    assert b in FreeAddrs(h.owner);
  }

  /** A free block as it is. */
  lemma AsTagged(h: Heap, b: Addr)
    requires HeapOk(h, {b}) && b in h.home && b in h.size && h.size[b].kind != Guard
    ensures Tagged(h, b, h.size[b]) == h
    ensures b + h.size[b].n in h.size && b + h.size[b].n in h.home && h.size[b].n > 0
    ensures h.size[b].kind == Free ==> h.size[b + h.size[b].n].kind != Free
  {
    NextInHome(h.segs, h.home, h.size, h.prev, b);
    var t := h.size[b];
    assert h.size[b := t] == h.size;
    assert h.prev[b + t.n := t] == h.prev;
  }

  /** The bytes of block `b` and of a free block behind it. */
  function Span(size: map<Addr, Tag>, b: Addr): nat {
    if b !in size then 0
    else size[b].n + (if b + size[b].n in size && size[b + size[b].n].kind == Free then size[b + size[b].n].n else 0)
  }

  /** The bytes of a free block right before block `b`. */
  function RoomBefore(prev: map<Addr, Tag>, b: Addr): nat {
    if b in prev && prev[b].kind == Free then prev[b].n else 0
  }

  /** A free block behind block `b` left its list. */
  ghost predicate TookBehind(size: map<Addr, Tag>, b: Addr, bits: nat, v: View, bits': nat, v': View) {
    && b in size && b + size[b].n in size
    && var next := b + size[b].n; Absorbed(size, size[next].kind == Free, next, size[next].n, bits, v, bits', v')
  }

  lemma NothingTaken(size: map<Addr, Tag>, b: Addr, bits: nat, v: View)
    requires b in size && b + size[b].n in size && size[b + size[b].n].kind != Free
    ensures TookBehind(size, b, bits, v, bits, v)
  {
  }

  /** A free block before block `b` left its list. */
  ghost predicate TookBefore(size: map<Addr, Tag>, prev: map<Addr, Tag>, b: Addr, bits: nat, v: View, bits': nat, v': View) {
    b in prev && Absorbed(size, prev[b].kind == Free, b - prev[b].n, prev[b].n, bits, v, bits', v')
  }

  /** Both left, the one behind first or last. */
  ghost predicate TookBoth(size: map<Addr, Tag>, prev: map<Addr, Tag>, b: Addr, behindFirst: bool,
                           bits: nat, v: View, bits': nat, v': View)
  {
    if behindFirst then
      exists bits1, v1 :: TookBehind(size, b, bits, v, bits1, v1) && TookBefore(size, prev, b, bits1, v1, bits', v')
    else
      exists bits1, v1 :: TookBefore(size, prev, b, bits, v, bits1, v1) && TookBehind(size, b, bits1, v1, bits', v')
  }

  lemma TakenBoth(size: map<Addr, Tag>, prev: map<Addr, Tag>, b: Addr, bits: nat, v: View, bits1: nat, v1: View, bits': nat, v': View)
    requires b in size && b in prev && b + size[b].n in size
    ensures TookBehind(size, b, bits, v, bits1, v1) && TookBefore(size, prev, b, bits1, v1, bits', v') ==>
      TookBoth(size, prev, b, true, bits, v, bits', v')
    ensures TookBefore(size, prev, b, bits, v, bits1, v1) && TookBehind(size, b, bits1, v1, bits', v') ==>
      TookBoth(size, prev, b, false, bits, v, bits', v')
  {
    hide TookBehind; hide TookBefore;
  }

  lemma FreedAs(size: map<Addr, Tag>, prev: map<Addr, Tag>, b: Addr, behindFirst: bool, stays: bool, bits: nat, v: View,
                bits1: nat, v1: View, bits': nat, v': View, count: nat)
    requires TookBoth(size, prev, b, behindFirst, bits, v, bits1, v1)
    requires if stays then Entered(false, count, b - RoomBefore(prev, b), RoomBefore(prev, b) + Span(size, b), bits1, v1, bits', v')
             else bits' == bits1 && v' == v1
    ensures FreedLists(size, prev, b, behindFirst, stays, bits, v, bits', v')
  {
    hide TookBoth; hide PutIn; hide KeptBits; hide PutInRest;
  }

  /** The lists after the release of used block `b`: its free neighbours left theirs, and the
      whole entered that of its size, unless the segment went. */
  ghost predicate FreedLists(size: map<Addr, Tag>, prev: map<Addr, Tag>, b: Addr, behindFirst: bool, stays: bool,
                             bits: nat, v: View, bits': nat, v': View)
  {
    exists bits1, v1 :: TookBoth(size, prev, b, behindFirst, bits, v, bits1, v1) &&
      if stays then Entered(false, 0, b - RoomBefore(prev, b), RoomBefore(prev, b) + Span(size, b), bits1, v1, bits', v')
      else bits' == bits1 && v' == v1
  }

  /** Of `n` bytes at `b` the first `t` are used; what is left, when it is enough for a block,
      entered the rest ring or the list of its size. */
  ghost predicate LeftOver(b: Addr, n: nat, t: nat, rest: bool, count: nat, bits: nat, v: View, bits': nat, v': View) {
    if n >= t + MIN_BLOCK then Entered(rest, count, b + t, n - t, bits, v, bits', v') else bits' == bits && v' == v
  }

  /** The lists after free block `b` served `t` bytes. */
  ghost predicate ServedLists(size: map<Addr, Tag>, b: Addr, t: nat, bits: nat, v: View, bits': nat, v': View) {
    && b in size
    && exists bits1, v1 :: Absorbed(size, true, b, size[b].n, bits, v, bits1, v1) && LeftOver(b, size[b].n, t, false, 0, bits1, v1, bits', v')
  }

  lemma ServedAs(size: map<Addr, Tag>, b: Addr, t: nat, bits: nat, v: View, bits1: nat, v1: View, bits': nat, v': View, count: nat)
    requires b in size && Absorbed(size, true, b, size[b].n, bits, v, bits1, v1)
    requires LeftOver(b, size[b].n, t, false, count, bits1, v1, bits', v')
    ensures ServedLists(size, b, t, bits, v, bits', v')
  {
    hide Absorbed; hide PutIn; hide KeptBits; hide PutInRest;
    assert LeftOver(b, size[b].n, t, false, 0, bits1, v1, bits', v');
  }

  /** The lists after used block `b` was cut to `t` bytes, or grew to them at its place. */
  ghost predicate ResizedLists(size: map<Addr, Tag>, b: Addr, t: nat, rest: bool, bits: nat, v: View, bits': nat, v': View) {
    exists bits1, v1 :: TookBehind(size, b, bits, v, bits1, v1) && RestRing in v1.rings &&
      LeftOver(b, Span(size, b), t, rest, CountLarge(v1.rings[RestRing], size), bits1, v1, bits', v')
  }

  lemma ResizedAs(size: map<Addr, Tag>, b: Addr, t: nat, rest: bool, bits: nat, v: View, bits1: nat, v1: View, bits': nat, v': View, count: nat)
    requires TookBehind(size, b, bits, v, bits1, v1) && RestRing in v1.rings
    requires LeftOver(b, Span(size, b), t, rest, count, bits1, v1, bits', v') && (rest ==> count == CountLarge(v1.rings[RestRing], size))
    ensures ResizedLists(size, b, t, rest, bits, v, bits', v')
  {
    hide TookBehind; hide PutIn; hide KeptBits; hide PutInRest; hide Span;
    assert LeftOver(b, Span(size, b), t, rest, CountLarge(v1.rings[RestRing], size), bits1, v1, bits', v');
  }

  /** A block that is resized where it is hides at most the bucket of the block behind it. */
  lemma ResizedShows(size: map<Addr, Tag>, b: Addr, t: nat, rest: bool, bits: nat, v: View, bits': nat, v': View, i: nat)
    requires ResizedLists(size, b, t, rest, bits, v, bits', v') && Shows(bits, v.rings, i)
    ensures b in size && b + size[b].n in size
    ensures Shows(bits', v'.rings, i) <==>
      !(size[b + size[b].n].kind == Free && Block(b + size[b].n) in v.owner &&
        Hides(v.rings, v.owner[Block(b + size[b].n)], size[b + size[b].n].n, i))
  {
    hide Shows; hide TakenOut; hide PutIn; hide PutInRest; hide Hides; hide SmallCount; hide CountLarge; hide RestWithout; hide Span;
    var bits1, v1 :| TookBehind(size, b, bits, v, bits1, v1) && RestRing in v1.rings &&
      LeftOver(b, Span(size, b), t, rest, CountLarge(v1.rings[RestRing], size), bits1, v1, bits', v');
    assert Shows(bits', v'.rings, i) <==> Shows(bits1, v1.rings, i);
    if size[b + size[b].n].kind == Free {
      assert Shows(bits1, v1.rings, i) <==> ShowsWithout(bits, v.rings, v.owner[Block(b + size[b].n)], size[b + size[b].n].n, i);
    }
  }

  /** The lists after the segment that block `b` filled became one with its block at `b'`. */
  ghost predicate MovedLists(size: map<Addr, Tag>, b: Addr, b': Addr, whole: nat, t: nat, bits: nat, v: View, bits': nat, v': View) {
    exists bits1, v1 :: TookBehind(size, b, bits, v, bits1, v1) && RestRing in v1.rings &&
      LeftOver(b', whole, t, true, CountLarge(v1.rings[RestRing], size), bits1, v1, bits', v')
  }

  lemma MovedAs(size: map<Addr, Tag>, b: Addr, b': Addr, whole: nat, t: nat, bits: nat, v: View, bits1: nat, v1: View, bits': nat, v': View)
    requires TookBehind(size, b, bits, v, bits1, v1) && RestRing in v1.rings
    requires LeftOver(b', whole, t, true, CountLarge(v1.rings[RestRing], size), bits1, v1, bits', v')
    ensures MovedLists(size, b, b', whole, t, bits, v, bits', v')
  {
    hide TookBehind; hide LeftOver;
  }

  lemma AbsorbedBehind(size: map<Addr, Tag>, b: Addr, bits: nat, v: View, bits': nat, v': View)
    requires b in size && b + size[b].n in size && size[b + size[b].n].kind == Free
    requires Absorbed(size, true, b + size[b].n, size[b + size[b].n].n, bits, v, bits', v')
    ensures TookBehind(size, b, bits, v, bits', v')
  {
    hide Absorbed;
  }

  /** What the removal of one block does to the bits, whatever is left over of it. */
  lemma ServedShows(size: map<Addr, Tag>, b: Addr, t: nat, bits: nat, v: View, bits': nat, v': View, i: nat)
    requires ServedLists(size, b, t, bits, v, bits', v') && Shows(bits, v.rings, i)
    ensures b in size && Block(b) in v.owner
    ensures Shows(bits', v'.rings, i) <==> !Hides(v.rings, v.owner[Block(b)], size[b].n, i)
  {
    hide Shows; hide TakenOut; hide PutIn; hide PutInRest; hide Hides; hide SmallCount;
    var bits1, v1 :| Absorbed(size, true, b, size[b].n, bits, v, bits1, v1) && LeftOver(b, size[b].n, t, false, 0, bits1, v1, bits', v');
    assert Shows(bits1, v1.rings, i) <==> ShowsWithout(bits, v.rings, v.owner[Block(b)], size[b].n, i);
    assert Shows(bits', v'.rings, i) <==> Shows(bits1, v1.rings, i);
  }

  /** Block `b` and at most one free block behind it fill their segment. */
  predicate Fills(size: map<Addr, Tag>, prev: map<Addr, Tag>, b: Addr) {
    && b in size && b in prev && prev[b] == FIRST && b + size[b].n in size
    && var next := b + size[b].n;
    (size[next].kind == Guard || (size[next].kind == Free && next + size[next].n in size && size[next + size[next].n].kind == Guard))
  }

  /** That does not change while blocks keep their headers. */
  lemma FillsStill(h: Heap, hand: set<Addr>, b: Addr, size': map<Addr, Tag>, prev': map<Addr, Tag>)
    requires HeapOk(h, hand) && UsedBlock(h.home, h.size, b) && Fills(h.size, h.prev, b)
    requires SameTags(h.home, h.size, size') && SameTags(h.home, h.prev, prev')
    ensures Fills(size', prev', b) && Span(size', b) == Span(h.size, b)
  {
    NextInHome(h.segs, h.home, h.size, h.prev, b);
    if h.size[b + h.size[b].n].kind == Free {
      NextInHome(h.segs, h.home, h.size, h.prev, b + h.size[b].n);
    }
    hide HeapOk;
  }

  lemma FillsAlone(h: Heap, b: Addr)
    requires HeapOk(h, {}) && h.lost == {} && b in h.live
    ensures b in h.home && b in h.size
    ensures Fills(h.size, h.prev, b) <==> forall x :: x in h.home && h.home[x] == h.home[b] && x in h.size && h.size[x].kind != Guard ==>
      x == b || (x == b + h.size[b].n && h.size[x].kind == Free)
  {
    hide Shared; hide LiveOk; hide LostOk; hide Aligned; hide Apart; hide BlocksOk; hide SegmentsApart;
    BehindLive(h, b);
    Neighbours(h.segs, h.home, h.size, h.prev, b);
    var next := b + h.size[b].n;
    Neighbours(h.segs, h.home, h.size, h.prev, next);
    if Fills(h.size, h.prev, b) {
      var hi := if h.size[next].kind == Guard then next else next + h.size[next].n;
      forall x | x in h.home && h.home[x] == h.home[b] && x in h.size && h.size[x].kind != Guard
        ensures x == b || (x == next && h.size[x].kind == Free)
      {
        WholeSegment(h.segs, h.home, h.size, h.prev, b, hi, x);
        OnlyBetween(h, b, x);
        if h.size[next].kind == Free {
          OnlyBetween(h, next, x);
        }
      }
    }
    if forall x :: x in h.home && h.home[x] == h.home[b] && x in h.size && h.size[x].kind != Guard ==>
      x == b || (x == next && h.size[x].kind == Free)
    {
      var first := h.home[b].First();
      assert SegmentOk(h.home, h.home[b]);
      Neighbours(h.segs, h.home, h.size, h.prev, first);
      assert first == b;
      if h.size[next].kind == Free {
        var last := next + h.size[next].n;
        Neighbours(h.segs, h.home, h.size, h.prev, last);
        assert h.size[last].kind == Guard;
      }
    }
  }

  /** No block begins inside another. */
  lemma OnlyBetween(h: Heap, b: Addr, x: Addr)
    requires HeapOk(h, {}) && b in h.home && x in h.home
    ensures b in h.size && (x <= b || b + h.size[b].n <= x)
  {
    Neighbours(h.segs, h.home, h.size, h.prev, b);
    if x != b {
      BlocksApart(h, {}, b, x);
      Neighbours(h.segs, h.home, h.size, h.prev, x);
    }
  }

  lemma BehindHand(h: Heap, b: Addr)
    requires HeapOk(h, {b}) && b in h.home && b in h.size && h.size[b].kind != Guard
    ensures b in h.prev && h.size[b].n >= MIN_BLOCK
    ensures var next := b + h.size[b].n;
      next in h.size && (h.size[next].kind == Free ==> next + h.size[next].n in h.size && h.size[next + h.size[next].n].kind != Free)
  {
    NextInHome(h.segs, h.home, h.size, h.prev, b);
    if h.size[b + h.size[b].n].kind == Free {
      NextInHome(h.segs, h.home, h.size, h.prev, b + h.size[b].n);
    }
  }

  lemma SizeInHand(h: Heap, b: Addr)
    requires HeapOk(h, {b}) && b in h.home && b in h.size && h.size[b].kind != Guard
    ensures h.size[b].n >= MIN_BLOCK
  {
    NextInHome(h.segs, h.home, h.size, h.prev, b);
  }

  /** What the tags behind a live block say. */
  lemma BehindLive(h: Heap, b: Addr)
    requires HeapOk(h, {}) && b in h.live && h.lost == {}
    ensures UsedBlock(h.home, h.size, b) && b in h.prev && h.size[b].n == h.live[b].room + HEADER
    ensures ValidBlockSize(h.size[b].n) && h.size[b].n < WORD
    ensures var next := b + h.size[b].n;
      next in h.home && next in h.size && (h.size[next].kind == Free ==>
        && Block(next) in h.owner && !h.owner[Block(next)].CacheChain?
        && next + h.size[next].n in h.size && h.size[next + h.size[next].n].kind != Free)
    ensures b > 0 && (b + HEADER) % ALIGNMENT == 0
    ensures h.live[b].asked <= h.live[b].room == |h.live[b].body|
  {
    LiveBlock(h, {}, b);
    LiveAligned(h, {}, b);
    NextInHome(h.segs, h.home, h.size, h.prev, b);
    var next := b + h.size[b].n;
    if h.size[next].kind == Free {
      assert FreeBlock(h.home, h.size, next) && next in FreeAddrs(h.owner);
      NextInHome(h.segs, h.home, h.size, h.prev, next);
    }
  }

  lemma SameShared(h: Heap, b: Addr, p: Piece)
    requires HeapOk(h, {}) && b in h.live
    ensures Shared(h.home, h.size, FreeAddrs(h.owner), CachedAddrs(h.owner), h.live[b := p], {} + h.lost)
  {
    hide Layout; hide LiveOk; hide FreeAddrs; hide CachedAddrs;
  }

  /** A client's block holds something else, or its client is content with another size of
      the same room. */
  lemma RewriteOk(h: Heap, b: Addr, p: Piece, data': Data)
    requires HeapOk(h, {}) && b in h.live
    requires p.room == h.live[b].room && p.asked <= p.room && |p.body| == p.room && BytesAt(data', b + HEADER, p.body)
    requires forall x :: x in h.data && !(b + HEADER <= x < b + HEADER + p.room) ==> x in data' && data'[x] == h.data[x]
    ensures HeapOk(h.(live := h.live[b := p], data := data'), {})
  {
    hide Layout; hide Shared; hide SegmentsBounded; hide BytesAt; hide LostAt; hide LiveOk; hide RestOk;
    RewrittenLive(h, b, p, data');
    forall a | a in h.lost
      ensures LostAt(h.home, h.size, h.prev, h.live[b := p], a)
    {
      SameLost(h.home, h.size, h.prev, h.live, h.live[b := p], a);
    }
    SameShared(h, b, p);
  }

  lemma SameLost(home: Home, size: map<Addr, Tag>, prev: map<Addr, Tag>, live: Live, live': Live, a: Addr)
    requires LostAt(home, size, prev, live, a) && live'.Keys == live.Keys
    ensures LostAt(home, size, prev, live', a)
  {
  }

  lemma RewrittenLive(h: Heap, b: Addr, p: Piece, data': Data)
    requires HeapOk(h, {}) && b in h.live
    requires p.room == h.live[b].room && p.asked <= p.room && |p.body| == p.room && BytesAt(data', b + HEADER, p.body)
    requires forall x :: x in h.data && !(b + HEADER <= x < b + HEADER + p.room) ==> x in data' && data'[x] == h.data[x]
    ensures LiveOk(h.size, h.live[b := p], data')
  {
    hide Layout; hide Shared; hide SegmentsBounded; hide LostOk; hide RestOk;
    forall a | a in h.live
      ensures BytesAt(data', a + HEADER, h.live[b := p][a].body)
    {
      LiveRoom(h, {}, a);
      LiveRoom(h, {}, b);
      if a != b {
        BlocksApart(h, {}, a, b);
      }
    }
    hide BytesAt;
  }

  // ---- headers change ----

  /** A block in hand becomes a used block. */
  lemma UseWholeOk(h: Heap, b: Addr)
    requires h.lost == {} && HeapOk(h, {b}) && b in h.home && b in h.size && h.size[b].kind != Guard
    ensures var h' := Tagged(h, b, Tag(h.size[b].n, Used));
      HeapOk(h', {b}) && UsedBlock(h'.home, h'.size, b) && Block(b) !in h.owner
  {
    hide Layout; hide Shared; hide LiveOk; hide SegmentsBounded; hide FreeAddrs; hide CachedAddrs;
    assert {b} + h.lost == {b};
    UseWhole(h.segs, h.home, h.size, h.prev, FreeAddrs(h.owner), CachedAddrs(h.owner), h.live, {b}, b);
    NotOwned(h.home, h.size, h.owner, h.live, {b}, b);
    SharedFree(h, {b}, b);
    RestFrame(h, {b}, h.size[b := Tag(h.size[b].n, Used)]);
    MergeLive(h, b, Tag(h.size[b].n, Used));
  }

  /** The two blocks that a cut makes: used, then free. */
  function Cut(h: Heap, b: Addr, n: nat): Heap
    requires b in h.home && b in h.size && n <= h.size[b].n
  {
    var mid := b + n;
    var h' := h.(home := h.home[mid := h.home[b]]);
    Tagged(Tagged(h', b, Tag(n, Used)), mid, Tag(h.size[b].n - n, Free))
  }

  lemma CutOk(h: Heap, b: Addr, n: nat)
    requires h.lost == {} && HeapOk(h, {b}) && b in h.home && b in h.size
    requires h.size[b].kind == Free || (h.size[b].kind == Used && b + h.size[b].n in h.size && h.size[b + h.size[b].n].kind != Free)
    requires ValidBlockSize(n) && h.size[b].n >= n + MIN_BLOCK
    ensures var h' := Cut(h, b, n); var mid := b + n;
      && HeapOk(h', {b, mid}) && UsedBlock(h'.home, h'.size, b) && FreeBlock(h'.home, h'.size, mid)
      && ValidBlockSize(h'.size[mid].n) && h'.size[mid].n < WORD
      && mid !in h.home && Block(b) !in h.owner && Block(mid) !in h.owner
  {
    hide Layout; hide Shared; hide LiveOk; hide SegmentsBounded; hide FreeAddrs; hide CachedAddrs; hide ValidBlockSize;
    assert {b} + h.lost == {b};
    UseSplit(h.segs, h.home, h.size, h.prev, FreeAddrs(h.owner), CachedAddrs(h.owner), h.live, {b}, b, n);
    NotOwned(h.home, h.size, h.owner, h.live, {b}, b);
    NotOwned(h.home, h.size, h.owner, h.live, {b}, b + n);
    BlockBoundedIn(h, {b}, b);
    SharedFree(h, {b}, b);
    SharedFree(h, {b}, b + n);
    RestFrame(h, {b}, h.size[b := Tag(n, Used)][b + n := Tag(h.size[b].n - n, Free)]);
    MergeLive(h, b, Tag(n, Used));
    MergeLive(h.(size := h.size[b := Tag(n, Used)]), b + n, Tag(h.size[b].n - n, Free));
    assert {b} + {b + n} == {b, b + n} == {b, b + n} + h.lost;
    assert b + n + (h.size[b].n - n) == b + h.size[b].n;
  }

  /** The blocks from `lo` to `hi` become one block. */
  ghost function Merged(h: Heap, lo: Addr, hi: Addr, kind: Kind): Heap
    requires lo <= hi
  {
    Tagged(h.(home := Without(h.home, lo, hi)), lo, Tag(hi - lo, kind))
  }

  lemma MergeOk(h: Heap, hand: set<Addr>, lo: Addr, hi: Addr, kind: Kind)
    requires HeapOk(h, hand)
    requires lo in h.home && hi in h.home && lo < hi && h.home[lo] == h.home[hi] && lo in h.prev && hi in h.size
    requires lo in hand && (forall x :: x in h.home && lo < x < hi ==> x in hand) && (forall x :: x in hand ==> lo <= x < hi)
    requires forall x :: x in hand ==> x in h.home
    requires kind != Guard && (kind == Free ==> h.prev[lo].kind != Free && h.size[hi].kind != Free) && (kind == Used ==> h.lost == {})
    ensures var h' := Merged(h, lo, hi, kind);
      && HeapOk(h', {lo}) && lo in h'.home && h'.home[lo] == h.home[lo]
      && hi in h'.home && ValidBlockSize(hi - lo) && hi - lo < WORD
      && Block(lo) !in h.owner
  {
    hide Without; hide ValidBlockSize; hide Shared; hide LiveOk;
    hide LostOk; hide SegmentsBounded; hide FreeAddrs; hide CachedAddrs;
    hide Tiles; hide Coalesced;
    BlockBounded(h.segs, h.home, h.size, h.prev, lo);
    MergeLayout(h.segs, h.home, h.size, h.prev, lo, hi, Tag(hi - lo, kind));
    WithoutSpec(h.home, lo, hi);
    MergeHand(h, hand, lo, hi);
    SharedFree(h, hand, lo);
    MergeShared(h.home, h.size, FreeAddrs(h.owner), CachedAddrs(h.owner), h.live, hand + h.lost, lo, hi, Tag(hi - lo, kind), {lo} + h.lost);
    NotOwned(h.home, h.size, h.owner, h.live, hand + h.lost, lo);
    MergeLost(h, hand, lo, hi, kind);
    MergeRest(h, hand, lo, hi, Tag(hi - lo, kind));
    MergeLive(h, lo, Tag(hi - lo, kind));
    var h' := Merged(h, lo, hi, kind);
    BlockBounded(h'.segs, h'.home, h'.size, h'.prev, lo);
    NextInHome(h'.segs, h'.home, h'.size, h'.prev, lo);
    AlignedBlockSize(hi - lo);
  }

  lemma MergeHand(h: Heap, hand: set<Addr>, lo: Addr, hi: Addr)
    requires HeapOk(h, hand)
    requires lo in hand && (forall x :: x in h.home && lo < x < hi ==> x in hand) && (forall x :: x in hand ==> lo <= x < hi)
    ensures forall x :: x in h.home && lo < x < hi ==> x in hand + h.lost
    ensures {lo} + h.lost == set x | x in hand + h.lost && !(lo < x < hi)
  {
    hide HeapOk;
    forall x | x in h.lost
      ensures x in h.home && x !in hand
    {
      SharedFree(h, hand, x);
    }
  }

  lemma MergeRest(h: Heap, hand: set<Addr>, lo: Addr, hi: Addr, t: Tag)
    requires HeapOk(h, hand) && lo in hand && lo in h.home && hi in h.home && lo < hi && h.home[lo] == h.home[hi]
    ensures RestOk(h.owner, h.size[lo := t])
  {
    NotOwnedInHand(h, hand, lo);
    assert lo in h.size && h.size[lo].kind != Guard by {
      Neighbours(h.segs, h.home, h.size, h.prev, lo);
      Neighbours(h.segs, h.home, h.size, h.prev, hi);
      hide Shared; hide LiveOk; hide Coalesced; hide SegmentsApart; hide Aligned;
    }
    RestFrame(h, hand, h.size[lo := t]);
    hide HeapOk;
  }

  lemma MergeLive(h: Heap, lo: Addr, t: Tag)
    requires LiveOk(h.size, h.live, h.data) && lo !in h.live
    ensures LiveOk(h.size[lo := t], h.live, h.data)
  {
    hide BytesAt;
  }

  lemma MergeLost(h: Heap, hand: set<Addr>, lo: Addr, hi: Addr, kind: Kind)
    requires HeapOk(h, hand)
    requires lo in h.home && hi in h.home && lo < hi && h.home[lo] == h.home[hi] && hi in h.size
    requires lo in hand && (forall x :: x in h.home && lo < x < hi ==> x in hand)
    requires kind == Free ==> h.size[hi].kind != Free
    requires kind == Used ==> h.lost == {}
    requires kind != Guard
    ensures var t := Tag(hi - lo, kind); LostOk(h.lost, Without(h.home, lo, hi), h.size[lo := t], h.prev[hi := t], h.live)
  {
    hide Shared; hide LiveOk; hide Without; hide Aligned; hide Apart; hide SegmentsApart; hide Coalesced;
    hide BlocksOk;
    var t := Tag(hi - lo, kind);
    WithoutSpec(h.home, lo, hi);
    Neighbours(h.segs, h.home, h.size, h.prev, lo);
    Neighbours(h.segs, h.home, h.size, h.prev, hi);
    forall a | a in h.lost
      ensures LostAt(Without(h.home, lo, hi), h.size[lo := t], h.prev[hi := t], h.live, a)
    {
      SharedFree(h, hand, a);
      assert LostAt(h.home, h.size, h.prev, h.live, a);
    }
  }

  /** The linkage check holds of every block. */
  lemma LinkageOk(h: Heap, hand: set<Addr>, b: Addr)
    requires HeapOk(h, hand) && b in h.home && b in h.size && h.size[b].kind != Guard && NearHome(h.home, b)
    ensures b in h.prev && b + h.size[b].n in h.prev && h.prev[b + h.size[b].n] == h.size[b]
    ensures h.prev[b] != FIRST ==> b - IntCast(h.prev[b].n) in h.size && h.size[b - IntCast(h.prev[b].n)] == h.prev[b]
  {
    NextInHome(h.segs, h.home, h.size, h.prev, b);
    if h.prev[b] != FIRST {
      PrevInHome(h.segs, h.home, h.size, h.prev, b);
      BlockBounded(h.segs, h.home, h.size, h.prev, b - h.prev[b].n);
    }
  }

  // ---- runs of blocks in hand ----

  /** The blocks of `hand` are those from `lo` up to block `lo + n`, in one segment. */
  ghost predicate Run(h: Heap, hand: set<Addr>, lo: Addr, n: nat) {
    && n > 0 && lo in hand && lo in h.home && lo + n in h.home && h.home[lo] == h.home[lo + n]
    && lo in h.prev && lo + n in h.size && lo + n in h.prev
    && (forall x :: x in h.home && lo < x < lo + n ==> x in hand)
    && (forall x :: x in hand ==> lo <= x < lo + n && x in h.home)
  }

  lemma RunOne(h: Heap, b: Addr)
    requires HeapOk(h, {b}) && b in h.home && b in h.size && h.size[b].kind != Guard
    ensures Run(h, {b}, b, h.size[b].n) && h.prev[b + h.size[b].n] == h.size[b]
  {
    NextInHome(h.segs, h.home, h.size, h.prev, b);
  }

  /** A used block and perhaps the free block behind it, up to the guard. */
  lemma SegmentRun(h: Heap, hand: set<Addr>, b: Addr, free: bool)
    requires HeapOk(h, hand) && b in h.home && b in h.size && h.size[b].kind == Used
    requires b + h.size[b].n in h.size && (free <==> h.size[b + h.size[b].n].kind == Free)
    requires hand == (if free then {b + h.size[b].n} else {}) + {b}
    ensures Run(h, hand, b, if free then h.size[b].n + h.size[b + h.size[b].n].n else h.size[b].n)
  {
    NextInHome(h.segs, h.home, h.size, h.prev, b);
    if free {
      NextInHome(h.segs, h.home, h.size, h.prev, b + h.size[b].n);
    }
  }

  lemma FreeSize(h: Heap, hand: set<Addr>, b: Addr)
    requires HeapOk(h, hand) && FreeBlock(h.home, h.size, b)
    ensures ValidBlockSize(h.size[b].n) && h.size[b].n < WORD
  {
    NextInHome(h.segs, h.home, h.size, h.prev, b);
    BlockBounded(h.segs, h.home, h.size, h.prev, b);
    AlignedBlockSize(h.size[b].n);
  }

  /** The block behind a run: free blocks are in the lists. */
  lemma RunNext(h: Heap, hand: set<Addr>, lo: Addr, n: nat)
    requires HeapOk(h, hand) && Run(h, hand, lo, n)
    ensures lo + n !in h.lost
    ensures h.size[lo + n].kind == Free ==> Block(lo + n) in h.owner && !h.owner[Block(lo + n)].CacheChain?
    ensures h.size[lo + n].kind == Free ==>
      Run(h, hand + {lo + n}, lo, n + h.size[lo + n].n) && h.size[lo + n + h.size[lo + n].n].kind != Free
  {
    hide Shared; hide LiveOk; hide LostOk; hide FreeAddrs; hide CachedAddrs;
    NotLostBehind(h, hand, lo, n);
    if h.size[lo + n].kind == Free {
      SharedFree(h, hand, lo + n);
      Listed(h.owner, lo + n);
      NextInHome(h.segs, h.home, h.size, h.prev, lo + n);
    }
  }

  /** Before a lost block there is a live one, and not one in hand. */
  lemma NotLostBehind(h: Heap, hand: set<Addr>, lo: Addr, n: nat)
    requires HeapOk(h, hand) && Run(h, hand, lo, n)
    ensures lo + n !in h.lost
  {
    hide Shared; hide LiveOk; hide Aligned;
    if lo + n in h.lost {
      assert LostAt(h.home, h.size, h.prev, h.live, lo + n);
      PrevInHome(h.segs, h.home, h.size, h.prev, lo + n);
      var p := lo + n - h.prev[lo + n].n;
      SharedFree(h, hand, p);
      hide BlocksOk;
      assert false;
    }
  }

  lemma BlockBoundedIn(h: Heap, hand: set<Addr>, b: Addr)
    requires HeapOk(h, hand) && b in h.home
    ensures b in h.size && h.size[b].n < h.home[b].size < WORD && b > 0
  {
    BlockBounded(h.segs, h.home, h.size, h.prev, b);
  }

  /** Behind a lost block there is a guard, and no run. */
  lemma NotLostBefore(h: Heap, hand: set<Addr>, lo: Addr, n: nat)
    requires HeapOk(h, hand) && Run(h, hand, lo, n) && h.prev[lo].kind == Free
    ensures lo - h.prev[lo].n !in h.lost && lo - h.prev[lo].n !in hand
  {
    hide Shared; hide LiveOk; hide Apart; hide SegmentsApart; hide Aligned;
    hide BlocksOk;
    var p := lo - h.prev[lo].n;
    PrevInHome(h.segs, h.home, h.size, h.prev, lo);
    Neighbours(h.segs, h.home, h.size, h.prev, lo);
    Neighbours(h.segs, h.home, h.size, h.prev, lo + n);
    assert p in h.lost ==> LostAt(h.home, h.size, h.prev, h.live, p);
  }

  lemma RunPrevRun(h: Heap, hand: set<Addr>, lo: Addr, n: nat)
    requires HeapOk(h, hand) && Run(h, hand, lo, n) && h.prev[lo].kind == Free
    ensures var p := lo - h.prev[lo].n;
      p in h.size && h.size[p] == h.prev[lo] && Run(h, hand + {p}, p, n + h.prev[lo].n) && h.prev[p].kind != Free
  {
    hide Shared; hide LiveOk; hide LostOk;
    hide BlocksOk; hide SegmentsApart;
    PrevInHome(h.segs, h.home, h.size, h.prev, lo);
  }

  /** The block before a run. */
  lemma RunPrev(h: Heap, hand: set<Addr>, lo: Addr, n: nat)
    requires HeapOk(h, hand) && Run(h, hand, lo, n) && NearHome(h.home, lo)
    ensures h.prev[lo].kind == Free ==> IntCast(h.prev[lo].n) == h.prev[lo].n
    ensures h.prev[lo].kind == Free ==> var p := lo - h.prev[lo].n;
      && Block(p) in h.owner && !h.owner[Block(p)].CacheChain? && p in h.size && h.size[p] == h.prev[lo]
      && Run(h, hand + {p}, p, n + h.prev[lo].n) && h.prev[p].kind != Free
  {
    hide Shared; hide LiveOk; hide LostOk; hide SegmentsBounded; hide FreeAddrs; hide CachedAddrs;
    if h.prev[lo].kind == Free {
      var p := lo - h.prev[lo].n;
      PrevInHome(h.segs, h.home, h.size, h.prev, lo);
      BlockBoundedIn(h, hand, p);
      NotLostBefore(h, hand, lo, n);
      SharedFree(h, hand, p);
      Listed(h.owner, p);
      RunPrevRun(h, hand, lo, n);
    }
    hide Layout;
  }

  /** The block before a run is not in the rest ring. */
  lemma RestNotBefore(h: Heap, hand: set<Addr>, lo: Addr, n: nat)
    requires HeapOk(h, hand) && Run(h, hand, lo, n) && h.prev[lo].kind == Free
    ensures !InRest(h.owner, lo - h.prev[lo].n)
  {
    hide Shared; hide LiveOk; hide Aligned; hide Apart; hide SegmentsApart;
    hide BlocksOk;
    var p := lo - h.prev[lo].n;
    PrevInHome(h.segs, h.home, h.size, h.prev, lo);
    Neighbours(h.segs, h.home, h.size, h.prev, lo);
    Neighbours(h.segs, h.home, h.size, h.prev, lo + n);
    assert InRest(h.owner, p) ==> LastFree(h.size, p);
  }

  /** Blocks only went; those that stay are in the segments they were in. */
  ghost predicate Shrunk(home: Home, home': Home) {
    forall x :: x in home' ==> x in home && home'[x] == home[x]
  }

  lemma ShrunkSteps(home: Home, lo: Addr, hi: Addr, s: Segment)
    ensures Shrunk(home, home) && Shrunk(home, Without(home, lo, hi)) && Shrunk(home, DropSegment(home, s))
  {
  }

  /** No other block of the segment of `b` is in use. */
  ghost predicate Alone(home: Home, size: map<Addr, Tag>, b: Addr) {
    b in home && forall x :: x in home && home[x] == home[b] && x != b && x in size ==> size[x].kind != Used
  }

  /** A run of `b` and free blocks between blocks in use or the ends fills the segment
      exactly when no other block of the segment is in use. */
  lemma RunAlone(h: Heap, hand: set<Addr>, lo: Addr, n: nat, b: Addr)
    requires HeapOk(h, hand) && Run(h, hand, lo, n) && b in hand
    requires forall x :: x in hand && x != b ==> x in h.size && h.size[x].kind == Free
    requires h.prev[lo].kind != Free && h.size[lo + n].kind != Free
    ensures h.prev[lo] == FIRST && h.size[lo + n].kind == Guard <==> Alone(h.home, h.size, b)
  {
    hide Aligned;
    Neighbours(h.segs, h.home, h.size, h.prev, lo);
    SameHome(h, hand, lo, n);
    if h.prev[lo] == FIRST && h.size[lo + n].kind == Guard {
      forall x | x in h.home && h.home[x] == h.home[b] && x != b && x in h.size
        ensures h.size[x].kind != Used
      {
        WholeSegment(h.segs, h.home, h.size, h.prev, lo, lo + n, x);
      }
    } else if h.prev[lo] != FIRST {
      PrevInHome(h.segs, h.home, h.size, h.prev, lo);
      assert h.size[lo - h.prev[lo].n].kind == Used;
    } else {
      assert h.size[lo + n].kind == Used && lo + n != b;
    }
  }

  /** The blocks of a run are of one segment. */
  lemma SameHome(h: Heap, hand: set<Addr>, lo: Addr, n: nat)
    requires HeapOk(h, hand) && Run(h, hand, lo, n)
    ensures forall x :: x in hand ==> h.home[x] == h.home[lo]
  {
    hide Aligned; hide Shared; hide LiveOk; hide Coalesced; hide Apart;
    Neighbours(h.segs, h.home, h.size, h.prev, lo);
    Neighbours(h.segs, h.home, h.size, h.prev, lo + n);
    forall x | x in hand
      ensures h.home[x] == h.home[lo]
    {
      Neighbours(h.segs, h.home, h.size, h.prev, x);
      if h.home[x] != h.home[lo] {
        SegmentsDisjoint(h.segs, h.home[x], h.home[lo]);
      }
    }
  }

  lemma PrevInHome(segs: seq<Segment>, home: Home, size: map<Addr, Tag>, prev: map<Addr, Tag>, b: Addr)
    requires Tiles(segs, home, size, prev) && b in home && b in prev && prev[b] != FIRST
    ensures var p := b - prev[b].n; p in home && home[p] == home[b] && p in size && size[p] == prev[b] && p in prev && p < b
  {
    hide Aligned;
    Neighbours(segs, home, size, prev, b);
  }

  // ---- what a release leaves behind ----

  /** What a heap is at some point: all but memory and what clients hold. */
  datatype Past = Past(segs: seq<Segment>, home: Home, size: map<Addr, Tag>, prev: map<Addr, Tag>, cache: seq<Ptr>, cached: nat,
                       realPeak: nat, used: nat, peak: nat, rests: nat, bits: nat, view: View)

  /** The segments that have a block in use. */
  ghost function UsedHomes(home: Home, size: map<Addr, Tag>): set<Segment> {
    set a | a in home && a in size && size[a].kind == Used :: home[a]
  }

  /** The segments of a list but for those that were in use and are no more, in their order. */
  ghost function Only(segs: seq<Segment>, used: set<Segment>, still: set<Segment>): (r: seq<Segment>)
    ensures forall x :: x in r <==> x in segs && (x in still || x !in used)
  {
    if segs == [] then []
    else (if segs[0] in still || segs[0] !in used then [segs[0]] else []) + Only(segs[1..], used, still)
  }

  lemma {:induction false} OnlyAgain(segs: seq<Segment>, u: set<Segment>, u': set<Segment>, u'': set<Segment>)
    requires u'' <= u' <= u
    ensures Only(Only(segs, u, u'), u', u'') == Only(segs, u, u'')
  {
    if segs != [] {
      OnlyAgain(segs[1..], u, u', u'');
      var r := Only(segs[1..], u, u');
      assert ([segs[0]] + r)[1..] == r && [] + r == r;
    }
  }

  lemma {:induction false} OnlySame(segs: seq<Segment>, u: set<Segment>, u': set<Segment>, w: set<Segment>, w': set<Segment>)
    requires forall x :: x in segs ==> ((x in u' || x !in u) <==> (x in w' || x !in w))
    ensures Only(segs, u, u') == Only(segs, w, w')
  {
    if segs != [] {
      OnlySame(segs[1..], u, u', w, w');
    }
  }

  lemma {:induction false} OnlyAll(segs: seq<Segment>, u: set<Segment>)
    ensures Only(segs, u, u) == segs
  {
    if segs != [] {
      OnlyAll(segs[1..], u);
    }
  }

  lemma {:induction false} OnlyRemoved(segs: seq<Segment>, j: nat)
    requires j < |segs| && forall i :: 0 <= i < |segs| && i != j ==> segs[i] != segs[j]
    ensures Remove(segs, j) == Only(segs, {segs[j]}, {})
  {
    if j == 0 {
      OnlySame(segs[1..], {segs[0]}, {}, {}, {});
      OnlyAll(segs[1..], {});
      assert Remove(segs, 0) == segs[1..];
    } else {
      OnlyRemoved(segs[1..], j - 1);
      assert Remove(segs, j) == [segs[0]] + Remove(segs[1..], j - 1);
    }
  }

  ghost predicate NoSmallRest(s: Past) {
    forall a :: InRest(s.view.owner, a) && a in s.size ==> !SmallSize(s.size[a].n)
  }

  /** Blocks were released: a segment went exactly when it was in use and is no more, the rest
      ring got nothing, and the small bitmap stayed right if there is no small block in it. */
  ghost predicate Tidied(s: Past, s': Past) {
    && UsedHomes(s'.home, s'.size) <= UsedHomes(s.home, s.size)
    && s'.segs == Only(s.segs, UsedHomes(s.home, s.size), UsedHomes(s'.home, s'.size))
    && (forall a :: InRest(s'.view.owner, a) ==> InRest(s.view.owner, a) && SameAt(s.size, s'.size, a))
    && (NoSmallRest(s) ==> forall i: nat :: Shows(s.bits, s.view.rings, i) ==> Shows(s'.bits, s'.view.rings, i))
  }

  lemma TidiedTrans(s: Past, s': Past, s'': Past)
    requires Tidied(s, s') && Tidied(s', s'')
    ensures Tidied(s, s'')
  {
    hide UsedHomes; hide Shows; hide InRest; hide Only;
    OnlyAgain(s.segs, UsedHomes(s.home, s.size), UsedHomes(s'.home, s'.size), UsedHomes(s''.home, s''.size));
    if NoSmallRest(s) {
      assert NoSmallRest(s');
    }
  }

  lemma TidiedRefl(s: Past, s': Past)
    requires s'.segs == s.segs && s'.home == s.home && s'.size == s.size && s'.bits == s.bits
    requires forall a :: InRest(s'.view.owner, a) ==> InRest(s.view.owner, a)
    requires forall i: nat :: SmallCount(s'.view.rings, i) == SmallCount(s.view.rings, i)
    ensures Tidied(s, s')
  {
    hide UsedHomes; hide InRest; hide SmallCount; hide Only;
    OnlyAll(s.segs, UsedHomes(s.home, s.size));
  }

  /** The counters and the heads of the cache do not matter. */
  lemma TidiedAs(s: Past, s1: Past, s': Past, s1': Past)
    requires Tidied(s1, s1')
    requires s.segs == s1.segs && s.home == s1.home && s.size == s1.size && s.bits == s1.bits && s.view == s1.view
    requires s'.segs == s1'.segs && s'.home == s1'.home && s'.size == s1'.size && s'.bits == s1'.bits && s'.view == s1'.view
    ensures Tidied(s, s')
  {
    hide UsedHomes; hide InRest; hide Shows;
  }

  /** A block went to the cache or came from there. */
  lemma TidiedCache(s: Past, s': Past, b: Addr, n: nat)
    requires CachedAs(s.view, s'.view, b, n) || UncachedAs(s.view, s'.view, b, n)
    requires s'.segs == s.segs && s'.home == s.home && s'.size == s.size && s'.bits == s.bits
    ensures Tidied(s, s')
  {
    TidiedRefl(s, s');
    hide Tidied;
  }

  /** A free block left its list, or none did. */
  lemma TidiedTook(s: Past, s': Past, b: Addr)
    requires TookBehind(s.size, b, s.bits, s.view, s'.bits, s'.view)
    requires s'.segs == s.segs && s'.home == s.home && s'.size == s.size
    ensures Tidied(s, s')
  {
    hide UsedHomes; hide Shows; hide TakenOut; hide RestWithout; hide SmallCount; hide Only;
    OnlyAll(s.segs, UsedHomes(s.home, s.size));
  }

  /** A free block entered the list of its size. */
  lemma TidiedEntered(s: Past, s': Past, b: Addr, n: nat, count: nat)
    requires Entered(false, count, b, n, s.bits, s.view, s'.bits, s'.view)
    requires s'.segs == s.segs && s'.home == s.home && s'.size == s.size
    ensures Tidied(s, s')
  {
    hide UsedHomes; hide Shows; hide SmallCount; hide PutIn; hide Only;
    OnlyAll(s.segs, UsedHomes(s.home, s.size));
    PutInNoRest(s.view, s'.view, b, n);
  }

  /** The used blocks are those that were, but for block `b`. */
  ghost predicate UsedBut(home: Home, size: map<Addr, Tag>, home': Home, size': map<Addr, Tag>, b: Addr) {
    forall x :: UsedBlock(home', size', x) <==> UsedBlock(home, size, x) && x != b
  }

  lemma MergedGone(home: Home, size: map<Addr, Tag>, hand: set<Addr>, b: Addr, lo: Addr, n: nat)
    requires b in hand && lo in hand && forall x :: x in hand && x != b ==> x in size && size[x].kind == Free
    requires (forall x :: x in home && lo < x < lo + n ==> x in hand) && (forall x :: x in hand ==> lo <= x < lo + n)
    ensures UsedBut(home, size, Without(home, lo, lo + n), size[lo := Tag(n, Free)], b)
  {
    hide Without;
    WithoutSpec(home, lo, lo + n);
  }

  lemma DroppedGone(home: Home, size: map<Addr, Tag>, b: Addr)
    requires b in home && Alone(home, size, b)
    ensures UsedBut(home, size, DropSegment(home, home[b]), size, b)
  {
  }

  lemma DroppedToo(home: Home, size: map<Addr, Tag>, home': Home, size': map<Addr, Tag>, b: Addr)
    requires b in home && Alone(home, size, b) && UsedBut(home, size, home', size', b) && Shrunk(home, home')
    ensures UsedBut(home, size, DropSegment(home', home[b]), size', b)
  {
  }

  /** Used block `b` was released, and no other. */
  lemma TidiedRelease(s: Past, s': Past, b: Addr)
    requires UsedBlock(s.home, s.size, b) && Shrunk(s.home, s'.home)
    requires UsedBut(s.home, s.size, s'.home, s'.size, b)
    requires s'.segs == if Alone(s.home, s.size, b) then Only(s.segs, {s.home[b]}, {}) else s.segs
    requires forall a :: InRest(s'.view.owner, a) ==> InRest(s.view.owner, a) && SameAt(s.size, s'.size, a)
    requires NoSmallRest(s) ==> forall i: nat :: Shows(s.bits, s.view.rings, i) ==> Shows(s'.bits, s'.view.rings, i)
    ensures Tidied(s, s')
  {
    hide Shows; hide InRest; hide SameAt; hide NoSmallRest; hide Only;
    var u, u' := UsedHomes(s.home, s.size), UsedHomes(s'.home, s'.size);
    forall x | x in u'
      ensures x in u
    {
      var a :| UsedBlock(s'.home, s'.size, a) && s'.home[a] == x;
      assert UsedBlock(s.home, s.size, a) && s.home[a] == x;
    }
    forall x | x in u && (x != s.home[b] || !Alone(s.home, s.size, b))
      ensures x in u'
    {
      if x == s.home[b] {
        var a :| a in s.home && s.home[a] == x && a != b && a in s.size && s.size[a].kind == Used;
        assert UsedBlock(s'.home, s'.size, a) && s'.home[a] == x;
      } else {
        var a :| UsedBlock(s.home, s.size, a) && s.home[a] == x;
        assert UsedBlock(s'.home, s'.size, a) && s'.home[a] == x;
      }
    }
    forall a | UsedBlock(s'.home, s'.size, a) && Alone(s.home, s.size, b)
      ensures s'.home[a] != s.home[b]
    {
      assert UsedBlock(s.home, s.size, a) && a != b;
    }
    assert s.home[b] in u;
    if Alone(s.home, s.size, b) {
      OnlySame(s.segs, u, u', {s.home[b]}, {});
    } else {
      OnlyAll(s.segs, u);
      OnlySame(s.segs, u, u', u, u);
    }
  }

  /** The lists of a release get nothing into the rest ring. */
  lemma FreedRest(size: map<Addr, Tag>, prev: map<Addr, Tag>, b: Addr, behindFirst: bool, stays: bool, bits: nat, v: View, bits': nat, v': View)
    requires FreedLists(size, prev, b, behindFirst, stays, bits, v, bits', v')
    ensures forall a :: InRest(v'.owner, a) ==> InRest(v.owner, a) && (stays ==> a != b - RoomBefore(prev, b))
  {
    hide KeptBits; hide TookBits; hide TakenOut; hide RestWithout; hide Span; hide RoomBefore;
    var bits1, v1 :| TookBoth(size, prev, b, behindFirst, bits, v, bits1, v1) &&
      if stays then Entered(false, 0, b - RoomBefore(prev, b), RoomBefore(prev, b) + Span(size, b), bits1, v1, bits', v')
      else bits' == bits1 && v' == v1;
    TookNoRest(size, prev, b, behindFirst, bits, v, bits1, v1);
    if stays {
      PutInNoRest(v1, v', b - RoomBefore(prev, b), RoomBefore(prev, b) + Span(size, b));
    }
    hide TookBoth; hide Entered;
  }

  lemma TookNoRest(size: map<Addr, Tag>, prev: map<Addr, Tag>, b: Addr, behindFirst: bool, bits: nat, v: View, bits': nat, v': View)
    requires TookBoth(size, prev, b, behindFirst, bits, v, bits', v')
    ensures forall a :: InRest(v'.owner, a) ==> InRest(v.owner, a)
  {
    hide TookBits; hide TakenOut; hide RestWithout;
  }

  /** No bucket is hidden when the block behind is not a small one in the rest ring. */
  lemma FreedShown(size: map<Addr, Tag>, prev: map<Addr, Tag>, b: Addr, behindFirst: bool, stays: bool, bits: nat, v: View, bits': nat, v': View)
    requires FreedLists(size, prev, b, behindFirst, stays, bits, v, bits', v')
    requires b in size && b + size[b].n in size && (InRest(v.owner, b + size[b].n) ==> !SmallSize(size[b + size[b].n].n))
    requires b in prev && (prev[b].kind == Free ==> !InRest(v.owner, b - prev[b].n))
    ensures forall i: nat :: Shows(bits, v.rings, i) ==> Shows(bits', v'.rings, i)
  {
    hide Shows; hide TakenOut; hide RestWithout; hide PutIn; hide SmallCount;
  }

  lemma PutInNoRest(v: View, v': View, b: Addr, n: nat)
    requires PutIn(v, v', b, n)
    ensures forall a :: InRest(v'.owner, a) ==> InRest(v.owner, a) && a != b
  {
  }

  // ---- segments come and go ----

  ghost function Dropped(h: Heap, segs': seq<Segment>, s: Segment): Heap {
    h.(segs := segs', home := DropSegment(h.home, s))
  }

  /** A segment of which everything is in hand: what is in hand is of it, and nothing lost is. */
  lemma SegmentInHand(h: Heap, hand: set<Addr>, lo: Addr, hi: Addr)
    requires HeapOk(h, hand)
    requires lo in h.home && hi in h.home && h.home[lo] == h.home[hi] && lo < hi
    requires lo in h.prev && h.prev[lo] == FIRST && hi in h.size && h.size[hi].kind == Guard
    requires forall x :: x in h.home && lo <= x < hi ==> x in hand
    requires forall x :: x in hand ==> lo <= x < hi && x in h.home
    ensures h.home[lo] in h.segs && h.home[lo].First() == lo && h.home[lo].Last() == hi
    ensures forall x :: x in h.home && h.home[x] == h.home[lo] && x in h.size && h.size[x].kind != Guard ==> x in hand
    ensures forall x :: x in hand ==> x in h.home && h.home[x] == h.home[lo]
    ensures forall x :: x in h.lost ==> x in h.home && h.home[x] != h.home[lo]
  {
    hide Shared; hide LiveOk; hide LostOk; hide Coalesced; hide Apart; hide SegmentsApart;
    hide BlocksOk; hide BlockOk;
    forall x | x in h.home
      ensures h.home[x] == h.home[lo] <==> lo <= x <= hi
    {
      WholeSegment(h.segs, h.home, h.size, h.prev, lo, hi, x);
    }
    WholeSegment(h.segs, h.home, h.size, h.prev, lo, hi, lo);
    Neighbours(h.segs, h.home, h.size, h.prev, lo);
    forall x | x in h.lost
      ensures x in h.home && x != hi && x !in hand
    {
      SharedFree(h, hand, x);
    }
  }

  lemma DropLost(h: Heap, hand: set<Addr>, s: Segment)
    requires HeapOk(h, hand)
    requires forall x :: x in hand ==> x in h.home && h.home[x] == s
    requires forall x :: x in h.lost ==> x in h.home && h.home[x] != s
    ensures LostOk(h.lost, DropSegment(h.home, s), h.size, h.prev, h.live)
    ensures {} + h.lost == set x | x in hand + h.lost && x in h.home && h.home[x] != s
  {
    hide Layout; hide Shared; hide LiveOk;
    forall a | a in h.lost
      ensures LostAt(DropSegment(h.home, s), h.size, h.prev, h.live, a)
    {
      assert LostAt(h.home, h.size, h.prev, h.live, a);
    }
    var rest := set x | x in hand + h.lost && x in h.home && h.home[x] != s;
    assert forall x :: x in rest <==> x in h.lost;
    assert rest == {} + h.lost;
  }

  lemma DropBounded(segs: seq<Segment>, segs': seq<Segment>)
    requires SegmentsBounded(segs) && forall x :: x in segs' ==> x in segs
    ensures SegmentsBounded(segs')
  {
  }

  /** A segment goes when everything in it is in hand. */
  lemma DropOk(h: Heap, hand: set<Addr>, segs': seq<Segment>, lo: Addr, hi: Addr)
    requires HeapOk(h, hand)
    requires lo in h.home && hi in h.home && h.home[lo] == h.home[hi] && lo < hi
    requires lo in h.prev && h.prev[lo] == FIRST && hi in h.size && h.size[hi].kind == Guard
    requires forall x :: x in h.home && lo <= x < hi ==> x in hand
    requires forall x :: x in hand ==> lo <= x < hi && x in h.home
    requires SegmentsApart(segs') && forall x :: x in segs' <==> x in h.segs && x != h.home[lo]
    ensures HeapOk(Dropped(h, segs', h.home[lo]), {})
    ensures h.home[lo] in h.segs && h.home[lo].First() == lo && h.home[lo].Last() == hi
  {
    hide Shared; hide LiveOk; hide LostOk; hide SegmentsBounded; hide FreeAddrs; hide CachedAddrs; hide Tiles; hide Coalesced;
    hide DropSegment;
    var s := h.home[lo];
    SegmentInHand(h, hand, lo, hi);
    DropSegmentTiles(h.segs, segs', h.home, h.size, h.prev, s);
    DropCoalesced(h.home, h.size, h.prev, s);
    DropSegmentShared(h.home, h.size, FreeAddrs(h.owner), CachedAddrs(h.owner), h.live, hand + h.lost, s);
    DropLost(h, hand, s);
    DropBounded(h.segs, segs');
  }

  lemma BasesDiffer(segs: seq<Segment>, i: nat, j: nat)
    requires SegmentsApart(segs) && i < j < |segs| && segs[i].size > 0 && segs[j].size > 0
    ensures segs[i].base != segs[j].base
  {
  }

  /** Segments are told apart by their addresses. */
  lemma SegmentAt(h: Heap, hand: set<Addr>, i: nat, j: nat)
    requires HeapOk(h, hand) && i < |h.segs| && j < |h.segs| && h.segs[i].base == h.segs[j].base
    ensures i == j
  {
    assert SegmentOk(h.home, h.segs[i]) && SegmentOk(h.home, h.segs[j]);
    if i < j {
      BasesDiffer(h.segs, i, j);
    } else if j < i {
      BasesDiffer(h.segs, j, i);
    }
  }

  lemma HomeIndex(h: Heap, hand: set<Addr>, lo: Addr) returns (i: nat)
    requires HeapOk(h, hand) && lo in h.home && lo in h.prev && h.prev[lo] == FIRST
    ensures i < |h.segs| && h.segs[i] == h.home[lo] && h.segs[i].base == lo - SEGMENT_HEADER
  {
    Neighbours(h.segs, h.home, h.size, h.prev, lo);
    i :| 0 <= i < |h.segs| && h.segs[i] == h.home[lo];
  }

  lemma UnlinkedOk(h: Heap, hand: set<Addr>, i: nat)
    requires HeapOk(h, hand) && i < |h.segs|
    ensures SegmentsApart(Remove(h.segs, i)) && forall x :: x in Remove(h.segs, i) <==> x in h.segs && x != h.segs[i]
  {
    var r := Remove(h.segs, i);
    forall j | 0 <= j < |h.segs| && j != i
      ensures h.segs[j] in r && h.segs[j] != h.segs[i]
    {
      assert r[if j < i then j else j - 1] == h.segs[j];
      if h.segs[j] == h.segs[i] {
        SegmentAt(h, hand, i, j);
      }
    }
  }

  /** A segment that storage may hand out. */
  ghost predicate NewSegment(segs: seq<Segment>, s: Segment) {
    && Aligned(s.base) && Aligned(s.size) && 0 < s.base && SEGMENT_HEADER + MIN_BLOCK + HEADER <= s.size < WORD
    && forall x :: x in segs ==> Disjoint(s, x)
  }

  function FirstSize(s: Segment): int {
    s.size - SEGMENT_HEADER - HEADER
  }

  /** A new segment: a first block, its header not yet written, and the guard. */
  ghost function Grown(h: Heap, segs': seq<Segment>, s: Segment): Heap {
    h.(segs := segs', home := h.home[s.First() := s][s.Last() := s],
       size := h.size[s.Last() := GUARD], prev := h.prev[s.First() := FIRST])
  }

  /** The old list of segments does not matter. */
  lemma GrownAs(h: Heap, h': Heap, segs': seq<Segment>, s: Segment)
    requires h' == h.(segs := h'.segs)
    ensures Grown(h, segs', s) == Grown(h', segs', s)
  {
  }

  lemma GrowOk(h: Heap, segs': seq<Segment>, s: Segment)
    requires h.lost == {} && HeapOk(h, {}) && NewSegment(h.segs, s)
    requires SegmentsApart(segs') && forall x :: x in segs' <==> x in h.segs || x == s
    ensures FirstSize(s) >= 0 && s.First() + FirstSize(s) == s.Last()
    ensures var h' := Grown(h, segs', s);
      && HeapOk(Tagged(h', s.First(), Tag(FirstSize(s), Free)), {s.First()})
      && s.First() in h'.home && s.First() !in h.home && s.Last() !in h.home && Block(s.First()) !in h.owner && Block(s.Last()) !in h.owner
  {
    hide Shared; hide LiveOk; hide FreeAddrs; hide CachedAddrs; hide Tiles; hide Coalesced; hide SegmentsApart;
    var t := Tag(FirstSize(s), Free);
    var h' := Tagged(Grown(h, segs', s), s.First(), t);
    AddSegmentTiles(h.segs, segs', h.home, h.size, h.prev, s, t);
    AddCoalesced(h.home, h.size, h.prev, s, t);
    assert {} + h.lost == {} && {} + {s.First()} == {s.First()} == {s.First()} + h.lost;
    AddSegmentShared(h.home, h.size, FreeAddrs(h.owner), CachedAddrs(h.owner), h.live, {}, s, t);
    NotOwned(h.home, h.size, h.owner, h.live, {}, s.First());
    NotOwned(h.home, h.size, h.owner, h.live, {}, s.Last());
    SharedFree(h, {}, s.First());
    SharedFree(h, {}, s.Last());
    assert h'.size == h.size[s.First() := t][s.Last() := GUARD];
    assert h'.prev == h.prev[s.First() := FIRST][s.Last() := t];
    RestFrame(h, {}, h'.size);
    MergeLive(h, s.First(), t);
    MergeLive(h.(size := h.size[s.First() := t]), s.Last(), GUARD);
  }

  lemma HomeNear(h: Heap, hand: set<Addr>, b: Addr)
    requires HeapOk(h, hand) && NearSegments(h.segs)
    ensures NearHome(h.home, b)
  {
    if b in h.home {
      BlockBounded(h.segs, h.home, h.size, h.prev, b);
    }
    hide HeapOk;
  }

  /** A block that was live before a segment came is not in that segment. */
  lemma StillNear(h: Heap, h': Heap, b: Addr, s: Segment)
    requires HeapOk(h, {}) && h.lost == {} && HeapOk(h', {}) && h'.lost == {} && b in h.live && b in h'.live
    requires h'.segs == h.segs || (h'.segs == [s] + h.segs && NewSegment(h.segs, s))
    requires NearSegments(h.segs)
    ensures NearHome(h'.home, b)
  {
    hide HeapOk;
    LiveInside(h, b);
    LiveInside(h', b);
  }

  lemma PrependOk(h: Heap, s: Segment)
    requires HeapOk(h, {}) && NewSegment(h.segs, s)
    ensures SegmentsApart([s] + h.segs) && forall x :: x in [s] + h.segs <==> x in h.segs || x == s
  {
    var r := [s] + h.segs;
    assert forall i :: 1 <= i < |r| ==> r[i] == h.segs[i - 1] && r[i] in h.segs;
  }

  lemma SegmentTotalPrepend(s: Segment, segs: seq<Segment>)
    ensures SegmentTotal([s] + segs) == s.size + SegmentTotal(segs)
  {
    assert ([s] + segs)[1..] == segs;
  }

  /** A segment in the place of one that went. */
  lemma RelinkedOk(h: Heap, segs: seq<Segment>, j: nat, s: Segment)
    requires j < |segs| && h.segs == Remove(segs, j) && SegmentsApart(h.segs) && NewSegment(h.segs, s)
    ensures SegmentsApart(segs[j := s]) && forall x :: x in segs[j := s] <==> x in h.segs || x == s
  {
    var r := segs[j := s];
    forall i | 0 <= i < |segs| && i != j
      ensures r[i] in h.segs && r[i] == h.segs[if i < j then i else i - 1] && Disjoint(s, r[i]) && Disjoint(r[i], s)
    {
      assert h.segs[if i < j then i else i - 1] == segs[i];
    }
    forall x | x in h.segs
      ensures x in r
    {
      var i :| 0 <= i < |h.segs| && h.segs[i] == x;
      assert r[if i < j then i else i + 1] == x;
    }
    assert r[j] == s;
  }

  lemma SegmentTotalUpdate(segs: seq<Segment>, j: nat, s: Segment)
    requires j < |segs|
    ensures SegmentTotal(segs[j := s]) == SegmentTotal(segs) + s.size - segs[j].size
  {
    SegmentTotalRemove(segs, j);
    SegmentTotalRemove(segs[j := s], j);
    assert Remove(segs, j) == Remove(segs[j := s], j);
  }

  /** A new segment at the front of the list. */
  lemma PrependedOk(h: Heap, s: Segment)
    requires h.lost == {} && HeapOk(h, {}) && NewSegment(h.segs, s)
    ensures FirstSize(s) >= 0 && s.First() + FirstSize(s) == s.Last()
    ensures var h' := Grown(h, [s] + h.segs, s);
      && HeapOk(Tagged(h', s.First(), Tag(FirstSize(s), Free)), {s.First()})
      && s.First() in h'.home && Block(s.First()) !in h.owner && Block(s.Last()) !in h.owner
  {
    hide HeapOk; hide NewSegment; hide SegmentsApart; hide Grown;
    PrependOk(h, s);
    GrowOk(h, [s] + h.segs, s);
    assert s.First() in Grown(h, [s] + h.segs, s).home;
  }

  /** The bytes under the headers of a new segment are nobody's. */
  lemma GrownKeep(h: Heap, segs': seq<Segment>, s: Segment, data': Data)
    requires FirstSize(s) >= 0 && s.First() + FirstSize(s) == s.Last()
    requires HeapOk(Tagged(Grown(h, segs', s), s.First(), Tag(FirstSize(s), Free)), {s.First()})
    requires ButHeaders(h.data, data', s.First(), s.Last())
    ensures HeapOk(Tagged(Grown(h, segs', s).(data := data'), s.First(), Tag(FirstSize(s), Free)), {s.First()})
  {
    hide HeapOk;
    var h' := Tagged(Grown(h, segs', s), s.First(), Tag(FirstSize(s), Free));
    HeadersKeep(h', {s.First()}, s.First(), s.Last(), data');
  }

  /** A segment that its block fills goes, to come back elsewhere. */
  lemma ReplacedOut(h: Heap, hand: set<Addr>, j: nat, lo: Addr, n: nat)
    requires h.lost == {} && HeapOk(h, hand) && j < |h.segs|
    requires Run(h, hand, lo, n) && h.prev[lo] == FIRST && h.size[lo + n].kind == Guard && h.segs[j] == h.home[lo]
    ensures HeapOk(Dropped(h, Remove(h.segs, j), h.segs[j]), {})
    ensures h.prev[lo := FIRST] == h.prev && SegmentsApart(Remove(h.segs, j)) && lo == h.segs[j].First() && lo + n == h.segs[j].Last()
  {
    hide HeapOk; hide SegmentsApart;
    UnlinkedOk(h, hand, j);
    DropOk(h, hand, Remove(h.segs, j), lo, lo + n);
  }

  lemma ReplacedIn(h1: Heap, segs: seq<Segment>, j: nat, s: Segment)
    requires h1.lost == {} && HeapOk(h1, {}) && j < |segs| && h1.segs == Remove(segs, j) && NewSegment(h1.segs, s)
    ensures FirstSize(s) >= 0 && s.First() + FirstSize(s) == s.Last()
    ensures var h' := Grown(h1, segs[j := s], s);
      && HeapOk(Tagged(h', s.First(), Tag(FirstSize(s), Free)), {s.First()})
      && s.First() in h'.home && Block(s.First()) !in h1.owner && Block(s.Last()) !in h1.owner
  {
    hide HeapOk; hide NewSegment; hide SegmentsApart; hide Grown;
    SegmentsOf(h1);
    RelinkedOk(h1, segs, j, s);
    GrowOk(h1, segs[j := s], s);
    assert s.First() in Grown(h1, segs[j := s], s).home;
  }

  lemma SegmentsOf(h: Heap)
    requires HeapOk(h, {})
    ensures SegmentsApart(h.segs)
  {
  }

  /** The memory of a segment moves, but for the segment's own header and that of its first
      block: nobody's bytes are lost. */
  lemma MovedOk(h1: Heap, from: Segment, s: Segment, data': Data)
    requires HeapOk(h1, {}) && NewSegment(h1.segs, s) && NewSegment(h1.segs, from)
    requires data' == Relocated(h1.data, from.base, from.size, s.base, s.size, SEGMENT_HEADER + HEADER)
    ensures var lo, hi := s.base + SEGMENT_HEADER + HEADER, s.base + s.size;
      && ListsOutside(h1.owner, h1.size, lo, hi)
      && SameSizes(h1.owner, h1.size, TagsOutside(h1.size, 0, lo, hi))
      && HeapOk(h1.(size := TagsOutside(h1.size, 0, lo, hi), prev := TagsOutside(h1.prev, PREV_SIZE, lo, hi), data := data'), {})
  {
    hide HeapOk; hide TagsOutside; hide SameTags; hide Relocated; hide NewSegment; hide ListsOutside;
    var lo, hi := s.base + SEGMENT_HEADER + HEADER, s.base + s.size;
    RelocatedIs(h1.data, from.base, from.size, s.base, s.size, SEGMENT_HEADER + HEADER);
    NewSegmentClear(h1, {}, s, lo);
    NewSegmentClear(h1, {}, from, from.base);
    VacateFrame(h1, {}, lo, hi);
    var h2 := h1.(size := TagsOutside(h1.size, 0, lo, hi), prev := TagsOutside(h1.prev, PREV_SIZE, lo, hi));
    ForgetOk(h1, {}, h2.size, h2.prev, h1.data);
    assert h2.(data := h1.data) == h2;
    forall a | a in h2.live
      ensures SameBytes(h2.data, data', a + HEADER, a + HEADER + h2.live[a].room)
    {
    }
    DataOk(h2, {}, data');
  }

  /** A segment of the list is as good as a new one for a heap without segments. */
  lemma OldSegment(h: Heap, hand: set<Addr>, j: nat)
    requires HeapOk(h, hand) && j < |h.segs|
    ensures NewSegment(Remove(h.segs, j), h.segs[j])
  {
    assert SegmentOk(h.home, h.segs[j]);
    forall x | x in Remove(h.segs, j)
      ensures Disjoint(h.segs[j], x)
    {
      UnlinkedOk(h, hand, j);
      SegmentsDisjoint(h.segs, h.segs[j], x);
    }
  }

  lemma KeptSegment(h: Heap, i: nat)
    requires HeapOk(h, {}) && i < |h.segs|
    ensures NewSegment([], h.segs[i])
  {
    assert SegmentOk(h.home, h.segs[i]);
  }

  // ---- a free block that is lost ----

  /** A detached free block between a live block and its segment's guard is given up. */
  lemma LoseOk(h: Heap, a: Addr, b: Addr)
    requires h.lost == {} && HeapOk(h, {a}) && FreeBlock(h.home, h.size, a)
    requires b in h.live && b in h.size && a == b + h.size[b].n
    requires a + h.size[a].n in h.size && h.size[a + h.size[a].n].kind == Guard
    ensures HeapOk(h.(lost := {a}), {})
  {
    hide Shared; hide LiveOk; hide SegmentsBounded; hide FreeAddrs; hide CachedAddrs;
    LiveRoom(h, {a}, b);
    SharedFree(h, {a}, b);
    NextInHome(h.segs, h.home, h.size, h.prev, b);
    assert {a} + {} == {} + {a};
    hide Layout;
    assert LostAt(h.home, h.size, h.prev, h.live, a);
  }

  /** Only the block right before it is before a lost block. */
  lemma LostBehind(h: Heap, a: Addr, b: Addr, c: Addr)
    requires HeapOk(h, {}) && h.lost == {a} && b in h.live && c != b && a == b + HEADER + h.live[b].room
    ensures BeforeNoLost(h.lost, h.prev, c)
  {
    hide Shared; hide SegmentsBounded; hide FreeAddrs; hide CachedAddrs; hide LiveOk;
    assert LostAt(h.home, h.size, h.prev, h.live, a);
    LiveRoom(h, {}, b);
    PrevInHome(h.segs, h.home, h.size, h.prev, a);
    var p := a - h.prev[a].n;
    if p != b {
      BlocksApart(h, {}, p, b);
      LiveRoom(h, {}, p);
    }
  }

  lemma LostIsUnlisted(h: Heap, a: Addr)
    requires HeapOk(h, {}) && a in h.lost
    ensures FreeBlock(h.home, h.size, a) && Block(a) !in h.owner
  {
    hide Layout; hide Shared; hide LiveOk;
    SharedFree(h, {}, a);
    Listed(h.owner, a);
    assert a in FreeAddrs(h.owner) ==> a !in h.lost;
    assert a in CachedAddrs(h.owner) ==> UsedBlock(h.home, h.size, a);
  }

  /** With a free block in no list the heap is not what it should be, whoever is thought to
      hold what. */
  lemma UnlistedBreaks(h: Heap, a: Addr)
    requires FreeBlock(h.home, h.size, a) && Block(a) !in h.owner && h.lost == {}
    ensures !HeapOk(h, {})
  {
    Listed(h.owner, a);
    if HeapOk(h, {}) {
      SharedFree(h, {}, a);
    }
  }

  // ---- what the invariant means ----

  /** Every block but the guards is free and in exactly one list, or cached, or live;
      the lists, the cache and the clients hold nothing else. */
  lemma EveryBlockHasAPlace(h: Heap, a: Addr)
    requires HeapOk(h, {}) && h.lost == {} && a in h.home
    ensures a in h.size
    ensures h.size[a].kind == Free <==> a in FreeAddrs(h.owner)
    ensures h.size[a].kind == Used <==> (a in CachedAddrs(h.owner) || a in h.live)
    ensures !(a in FreeAddrs(h.owner) && a in CachedAddrs(h.owner)) && !(a in CachedAddrs(h.owner) && a in h.live)
    ensures h.size[a].kind == Guard <==> a == h.home[a].Last()
  {
    BlockBounded(h.segs, h.home, h.size, h.prev, a);
    Neighbours(h.segs, h.home, h.size, h.prev, a);
    hide Layout; hide FreeAddrs; hide CachedAddrs; hide Aligned;
    assert FreeBlock(h.home, h.size, a) || UsedBlock(h.home, h.size, a) || h.size[a].kind == Guard;
  }

  lemma OnlyBlocks(h: Heap, a: Addr)
    requires HeapOk(h, {}) && h.lost == {}
    requires a in FreeAddrs(h.owner) || a in CachedAddrs(h.owner) || a in h.live
    ensures a in h.home && a in h.size && h.size[a].kind != Guard
  {
    hide Layout; hide FreeAddrs; hide CachedAddrs;
  }

  /** The room of a live block is aligned, inside its segment and at least as large as was
      asked for. */
  lemma LiveInside(h: Heap, a: Addr)
    requires HeapOk(h, {}) && h.lost == {} && a in h.live
    ensures (a + HEADER) % ALIGNMENT == 0 && h.live[a].asked <= h.live[a].room
    ensures a in h.home && h.home[a] in h.segs && h.home[a].base < a && a + HEADER + h.live[a].room <= h.home[a].Last()
  {
    hide SegmentsApart; hide Coalesced; hide Shared; hide Aligned;
    hide ValidBlockSize; hide Apart; hide FreeAddrs; hide CachedAddrs;
    BehindLive(h, a);
    Neighbours(h.segs, h.home, h.size, h.prev, a);
    assert BlockOk(h.home, h.size, h.prev, a + h.size[a].n);
  }

  /** A block is no larger than a block that fills its segment. */
  lemma InsideSegment(h: Heap, a: Addr)
    requires HeapOk(h, {}) && a in h.home && a in h.size && h.size[a].kind != Guard
    ensures h.size[a].n <= FirstSize(h.home[a])
  {
    hide SegmentsApart; hide Coalesced; hide Shared; hide Aligned; hide Apart;
    Neighbours(h.segs, h.home, h.size, h.prev, a);
    assert BlockOk(h.home, h.size, h.prev, a + h.size[a].n);
  }

  /** With one segment and its first block as large as the segment there is no other. */
  lemma InOnlySegment(h: Heap, b: Addr)
    requires HeapOk(h, {}) && |h.segs| <= 1 && FreeBlock(h.home, h.size, b)
    requires h.segs != [] ==>
      h.segs[0].First() in h.home && h.segs[0].First() in h.size && h.size[h.segs[0].First()].n == FirstSize(h.segs[0])
    ensures h.segs != [] && b == h.segs[0].First()
  {
    hide SegmentsApart; hide Coalesced; hide Shared; hide Aligned; hide BlocksOk;
    Neighbours(h.segs, h.home, h.size, h.prev, b);
  }

  /** No header, no link field of a free or cached block, and no room of another live block
      reaches into the room of a live block. */
  lemma LiveApart(h: Heap, a: Addr, y: Addr)
    requires HeapOk(h, {}) && h.lost == {} && a in h.live && y in h.home && y != a
    ensures y + HEADER <= a || a + HEADER + h.live[a].room <= y
    ensures y in FreeAddrs(h.owner) + CachedAddrs(h.owner) ==> LinksEnd(h.size, y) <= a || a + HEADER + h.live[a].room <= y
    ensures y in h.live ==> y + HEADER + h.live[y].room <= a || a + HEADER + h.live[a].room <= y
  {
    hide HeapOk; hide FreeAddrs; hide CachedAddrs;
    LiveRoom(h, {}, a);
    BlocksApart(h, {}, a, y);
    HeaderInside(h, {}, y);
    SharedFree(h, {}, y);
    if y in h.live {
      LiveRoom(h, {}, y);
    } else if h.size[y].kind != Guard {
      BlockSizeOk(h, y);
    }
  }

  lemma BlockSizeOk(h: Heap, y: Addr)
    requires HeapOk(h, {}) && y in h.home && y in h.size && h.size[y].kind != Guard
    ensures h.size[y].n >= MIN_BLOCK
  {
    NextInHome(h.segs, h.home, h.size, h.prev, y);
  }

  /** No free block follows a free block. */
  lemma NoFreeNeighbours(h: Heap, hand: set<Addr>, a: Addr)
    requires HeapOk(h, hand) && a in h.home && a in h.size && h.size[a].kind == Free
    ensures a + h.size[a].n in h.home && a + h.size[a].n in h.size && h.size[a + h.size[a].n].kind != Free
    ensures a in h.prev && h.prev[a].kind != Free
  {
    NextInHome(h.segs, h.home, h.size, h.prev, a);
  }
}
