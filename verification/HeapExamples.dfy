/** Small heaps, built step by step: segments come as one used block, used blocks are cut in
    two, and become free. */
module HeapExamples {
  import opened Sizes
  import opened Tags
  import opened Rings
  import opened FreeListSpec
  import opened FreeListSteps
  import opened Memory
  import opened Tiling
  import opened HeapSpec
  import opened HeapSteps

  const TOP: Addr := 65536

  /** Memory that is all zero. */
  ghost function Zeros(): Data {
    map x: Addr | 0 <= x < TOP && Addressed(x) :: 0 as bv8
  }

  predicate Addressed(x: Addr) {
    0 <= x < TOP
  }

  /** The room of a used block of `n` bytes. */
  function Room(n: nat): Piece
    requires n >= HEADER
  {
    Piece(n - HEADER, n - HEADER, seq(n - HEADER, _ => 0 as bv8))
  }

  lemma ZeroRoom(b: Addr, n: nat)
    requires 0 <= b && HEADER <= n && b + n <= TOP
    ensures BytesAt(Zeros(), b + HEADER, Room(n).body) && |Room(n).body| == n - HEADER
  {
  }

  ghost predicate Built(h: Heap) {
    HeapOk(h, {}) && h.lost == {} && h.data == Zeros()
  }

  /** No segments. */
  ghost function NoHeap(): Heap {
    Heap([], map[], map[], map[], InitView().owner, map[], Zeros(), {})
  }

  lemma InitOwners()
    ensures FreeAddrs(InitView().owner) == {} && CachedAddrs(InitView().owner) == {}
    ensures forall a: Addr :: Block(a) !in InitView().owner
  {
  }

  lemma NoHeapBuilt()
    ensures Built(NoHeap()) && Neat(NoHeap())
  {
    hide InitView; hide FreeAddrs; hide CachedAddrs;
    InitOwners();
    EmptyHeapOk(InitView().owner, map[], map[], Zeros());
  }

  /** A segment that is one used block. */
  ghost function WithSegment(h: Heap, s: Segment): Heap {
    var b, n := s.First(), FirstSize(s);
    if n < HEADER then h
    else h.(segs := [s] + h.segs, home := h.home[b := s][s.Last() := s], size := h.size[s.Last() := GUARD][b := Tag(n, Used)],
       prev := h.prev[b := FIRST][s.Last() := Tag(n, Used)], live := h.live[b := Room(n)])
  }

  lemma SegmentBuilt(h: Heap, s: Segment)
    requires Built(h) && NewSegment(h.segs, s) && s.base + s.size <= TOP
    ensures FirstSize(s) >= HEADER && Built(WithSegment(h, s)) && LiveAt(WithSegment(h, s), s.First(), FirstSize(s))
  {
    hide HeapOk;
    hide Room; hide Zeros;
    var b, n := s.First(), FirstSize(s);
    PrependedOk(h, s);
    var t, u := Tag(n, Free), Tag(n, Used);
    var h1 := Tagged(Grown(h, [s] + h.segs, s), b, t);
    assert b in h1.home && b in h1.size && h1.size[b] == t;
    UseWholeOk(h1, b);
    var h2 := Tagged(h1, b, u);
    ZeroRoom(b, n);
    assert h2.size[b] == u && Room(n).room == n - HEADER by {
      RoomIs(n);
    }
    RoomIs(n);
    GiveLiveOk(h2, {b}, b, Room(n));
    assert {b} - {b} == {};
    assert h2.size == WithSegment(h, s).size && h2.prev == WithSegment(h, s).prev;
    assert h2.(live := h2.live[b := Room(n)]) == WithSegment(h, s);
  }

  lemma RoomIs(n: nat)
    requires n >= HEADER
    ensures Room(n).room == Room(n).asked == n - HEADER == |Room(n).body|
  {
  }

  /** Block `b` is live, `n` bytes long, and what is behind it is not free. */
  ghost predicate LiveAt(h: Heap, b: Addr, n: nat) {
    && 0 <= b && b + n <= TOP && b in h.live && b in h.home && b in h.size && h.size[b].n == n
    && b + n in h.size && h.size[b + n].kind != Free
  }

  /** Used block `b` becomes a used block of `n` bytes and one behind it. */
  ghost function Split(h: Heap, b: Addr, n: nat): Heap {
    if b !in h.home || b !in h.size || n < HEADER || h.size[b].n < n + HEADER then h
    else
      var c, m := b + n, h.size[b].n - n;
      h.(home := h.home[c := h.home[b]], size := h.size[b := Tag(n, Used)][c := Tag(m, Used)],
       prev := h.prev[c := Tag(n, Used)][b + h.size[b].n := Tag(m, Used)], live := h.live[b := Room(n)][c := Room(m)])
  }

  lemma SplitBuilt(h: Heap, b: Addr, n: nat)
    requires Built(h) && b in h.size && LiveAt(h, b, h.size[b].n) && ValidBlockSize(n) && n + MIN_BLOCK <= h.size[b].n
    ensures Built(Split(h, b, n)) && LiveAt(Split(h, b, n), b + n, h.size[b].n - n)
  {
    hide HeapOk; hide Room; hide Zeros;
    var c, m := b + n, h.size[b].n - n;
    var h3 := CutInTwo(h, b, n);
    UseWholeOk(h3, c);
    var h4 := Tagged(h3, c, Tag(m, Used));
    ZeroRoom(c, m);
    RoomIs(m);
    GiveLiveOk(h4, {c}, c, Room(m));
    assert {c} - {c} == {};
    var h5, h' := h4.(live := h4.live[c := Room(m)]), Split(h, b, n);
    assert h5.size == h'.size && h5.prev == h'.prev && h5.live == h'.live && h5.home == h'.home;
    assert h5 == h';
  }

  /** The cut, before what is behind it is used. */
  lemma CutInTwo(h: Heap, b: Addr, n: nat) returns (h3: Heap)
    requires Built(h) && b in h.size && LiveAt(h, b, h.size[b].n) && ValidBlockSize(n) && n + MIN_BLOCK <= h.size[b].n
    ensures var c, m := b + n, h.size[b].n - n;
      && HeapOk(h3, {c}) && h3 == h.(home := h3.home, size := h3.size, prev := h3.prev, live := h3.live)
      && h3.home == h.home[c := h.home[b]] && h3.size == h.size[b := Tag(n, Used)][c := Tag(m, Free)]
      && h3.prev == h.prev[c := Tag(n, Used)][b + h.size[b].n := Tag(m, Free)]
      && h3.live == h.live[b := Room(n)] && m >= MIN_BLOCK
  {
    hide HeapOk; hide Room; hide Zeros;
    var c, m := b + n, h.size[b].n - n;
    assert BeforeNoLost(h.lost, h.prev, b);
    TakeLiveOk(h, {}, b);
    assert {} + {b} == {b};
    var h1 := h.(live := h.live - {b});
    CutOk(h1, b, n);
    var h2 := Cut(h1, b, n);
    ZeroRoom(b, n);
    RoomIs(n);
    GiveLiveOk(h2, {b, c}, b, Room(n));
    assert {b, c} - {b} == {c};
    h3 := h2.(live := h2.live[b := Room(n)]);
    assert c + m == b + h.size[b].n;
    assert h3.live == h.live[b := Room(n)];
  }

  /** Used block `b` becomes a free block in list `k`. */
  ghost function Freed(h: Heap, b: Addr, k: Key): Heap {
    if b !in h.size then h
    else
      var t := Tag(h.size[b].n, Free);
      h.(size := h.size[b := t], prev := h.prev[b + t.n := t], owner := h.owner[Block(b) := k], live := h.live - {b})
  }

  lemma FreedBuilt(h: Heap, b: Addr, k: Key)
    requires Built(h) && b in h.size && LiveAt(h, b, h.size[b].n) && b in h.prev && h.prev[b].kind != Free
    requires !k.CacheChain? && (k == RestRing ==> h.size[b + h.size[b].n].kind == Guard)
    ensures Built(Freed(h, b, k)) && Block(b) !in h.owner
  {
    hide FreeAddrs; hide CachedAddrs; hide Zeros; hide HeapOk; hide Shared; hide InRest;
    var h2 := Unused(h, b);
    var h' := Freed(h, b, k);
    AddrsAdd(h.owner, b, k);
    SameKept(h2, b);
    RestAdd(h.owner, b, k);
    GiveFreeOk(h2, {b}, b, h'.owner, h2.data);
    assert {b} - {b} == {};
    assert h2.(owner := h'.owner, data := h2.data) == h';
  }

  lemma RestAdd(owner: Owners, b: Addr, k: Key)
    ensures forall a :: InRest(owner[Block(b) := k], a) ==> InRest(owner, a) || (a == b && k == RestRing)
  {
  }

  lemma SameKept(h: Heap, b: Addr)
    ensures OthersKept(h, b, h.data)
  {
  }

  /** The block is in hand, and free. */
  lemma Unused(h: Heap, b: Addr) returns (h2: Heap)
    requires Built(h) && b in h.live && b in h.size && b in h.prev && h.prev[b].kind != Free
    requires b + h.size[b].n in h.size && h.size[b + h.size[b].n].kind != Free
    ensures HeapOk(h2, {b}) && FreeBlock(h2.home, h2.size, b) && Block(b) !in h.owner && h.size[b].n >= MIN_BLOCK
    ensures var t := Tag(h.size[b].n, Free);
      h2 == h.(size := h.size[b := t], prev := h.prev[b + t.n := t], live := h.live - {b})
  {
    hide HeapOk; hide Zeros;
    var n := h.size[b].n;
    var h1 := h.(live := h.live - {b});
    assert BeforeNoLost(h.lost, h.prev, b);
    TakeLiveOk(h, {}, b);
    assert {} + {b} == {b};
    RunOne(h1, b);
    MinimalSize(n);
    MergeOk(h1, {b}, b, b + n, Free);
    BlockAlone(h1, {b}, b);
    assert Without(h1.home, b, b + n) == h1.home;
    h2 := Merged(h1, b, b + n, Free);
  }

  lemma MinimalSize(n: nat)
    requires ValidBlockSize(n)
    ensures n >= MIN_BLOCK
  {
  }

  /** No block begins inside another one. */
  lemma BlockAlone(h: Heap, hand: set<Addr>, b: Addr)
    requires HeapOk(h, hand) && b in h.home && b in h.size
    ensures forall x :: x in h.home ==> !(b < x < b + h.size[b].n)
  {
    hide HeapOk;
    forall x | x in h.home && x != b
      ensures !(b < x < b + h.size[b].n)
    {
      BlocksApart(h, hand, b, x);
      HeaderInside(h, hand, x);
    }
  }

  // ---- what the heaps are ----

  /** Block `b` has these header words. */
  ghost predicate Has(h: Heap, b: Addr, t: Tag, p: Tag) {
    b in h.home && b in h.size && h.size[b] == t && b in h.prev && h.prev[b] == p
  }

  /** There are no other headers. */
  ghost predicate Neat(h: Heap) {
    h.size.Keys == h.home.Keys && h.prev.Keys == h.home.Keys
  }

  lemma HasLive(h: Heap, b: Addr, n: nat, p: Tag, u: Tag, q: Tag)
    requires Has(h, b, Tag(n, Used), p) && Has(h, b + n, u, q) && u.kind != Free && b in h.live && 0 <= b && b + n <= TOP
    ensures LiveAt(h, b, n) && b in h.size && h.size[b] == Tag(n, Used)
  {
  }

  lemma SegmentHas(h: Heap, s: Segment)
    requires FirstSize(s) >= HEADER && s.First() !in h.home && s.Last() !in h.home
    ensures var h', n := WithSegment(h, s), FirstSize(s);
      && Has(h', s.First(), Tag(n, Used), FIRST) && Has(h', s.Last(), GUARD, Tag(n, Used))
      && (forall x, t, p :: Has(h, x, t, p) ==> Has(h', x, t, p))
      && h'.owner == h.owner && h'.live == h.live[s.First() := Room(n)] && h'.segs == [s] + h.segs
      && h'.home.Keys == h.home.Keys + {s.First(), s.Last()} && (Neat(h) ==> Neat(h'))
  {
    hide Room;
  }

  lemma SplitHas(h: Heap, b: Addr, n: nat, m: nat, p: Tag, u: Tag, q: Tag)
    requires n >= HEADER && m >= HEADER && Has(h, b, Tag(n + m, Used), p) && Has(h, b + n + m, u, q) && b + n !in h.home
    ensures var h', c := Split(h, b, n), b + n;
      && Has(h', b, Tag(n, Used), p) && Has(h', c, Tag(m, Used), Tag(n, Used)) && Has(h', c + m, u, Tag(m, Used))
      && (forall x, t, r :: Has(h, x, t, r) && x != b && x != c + m ==> Has(h', x, t, r))
      && h'.owner == h.owner && h'.live == h.live[b := Room(n)][c := Room(m)] && h'.segs == h.segs
      && h'.home.Keys == h.home.Keys + {c} && (Neat(h) ==> Neat(h'))
  {
    hide Room;
  }

  lemma FreedHas(h: Heap, b: Addr, k: Key, n: nat, p: Tag, u: Tag, q: Tag)
    requires n > 0 && Has(h, b, Tag(n, Used), p) && Has(h, b + n, u, q)
    ensures var h' := Freed(h, b, k);
      && Has(h', b, Tag(n, Free), p) && Has(h', b + n, u, Tag(n, Free))
      && (forall x, t, r :: Has(h, x, t, r) && x != b && x != b + n ==> Has(h', x, t, r))
      && h'.owner == h.owner[Block(b) := k] && h'.live == h.live - {b} && h'.segs == h.segs
      && h'.home.Keys == h.home.Keys && (Neat(h) ==> Neat(h'))
  {
  }

  /** One step of building with what comes of it. */
  lemma Begin(h: Heap, s: Segment)
    requires Built(h) && NewSegment(h.segs, s) && s.base + s.size <= TOP
    ensures var h', n := WithSegment(h, s), FirstSize(s);
      && n >= HEADER && Built(h') && Has(h', s.First(), Tag(n, Used), FIRST) && Has(h', s.Last(), GUARD, Tag(n, Used))
      && (forall x, t, p :: Has(h, x, t, p) ==> Has(h', x, t, p))
      && h'.owner == h.owner && h'.live == h.live[s.First() := Room(n)] && h'.segs == [s] + h.segs
      && h'.home.Keys == h.home.Keys + {s.First(), s.Last()} && (Neat(h) ==> Neat(h'))
  {
    hide HeapOk; hide Has; hide WithSegment; hide NewSegment; hide Room;
    SegmentBuilt(h, s);
    PrependedFresh(h, s);
    SegmentHas(h, s);
  }

  lemma PrependedFresh(h: Heap, s: Segment)
    requires Built(h) && NewSegment(h.segs, s)
    ensures s.First() !in h.home && s.Last() !in h.home
  {
    hide HeapOk;
    PrependOk(h, s);
    GrowOk(h, [s] + h.segs, s);
  }

  lemma CutStep(h: Heap, b: Addr, n: nat, m: nat, p: Tag, u: Tag, q: Tag)
    requires Built(h) && Has(h, b, Tag(n + m, Used), p) && Has(h, b + n + m, u, q) && u.kind != Free && b in h.live
    requires ValidBlockSize(n) && m >= MIN_BLOCK && 0 <= b && b + n + m <= TOP && b + n !in h.home
    ensures var h', c := Split(h, b, n), b + n;
      && Built(h') && Has(h', b, Tag(n, Used), p) && Has(h', c, Tag(m, Used), Tag(n, Used)) && Has(h', c + m, u, Tag(m, Used))
      && (forall x, t, r :: Has(h, x, t, r) && x != b && x != c + m ==> Has(h', x, t, r))
      && h'.owner == h.owner && h'.live == h.live[b := Room(n)][c := Room(m)] && h'.segs == h.segs
      && h'.home.Keys == h.home.Keys + {c} && (Neat(h) ==> Neat(h'))
  {
    hide HeapOk; hide Has; hide Split; hide Room; hide LiveAt;
    MinimalSize(n);
    HasLive(h, b, n + m, p, u, q);
    SplitBuilt(h, b, n);
    SplitHas(h, b, n, m, p, u, q);
  }

  lemma FreeStep(h: Heap, b: Addr, k: Key, n: nat, p: Tag, u: Tag, q: Tag)
    requires Built(h) && Has(h, b, Tag(n, Used), p) && Has(h, b + n, u, q) && u.kind != Free && p.kind != Free && b in h.live
    requires n > 0 && 0 <= b && b + n <= TOP && !k.CacheChain? && (k == RestRing ==> u.kind == Guard)
    ensures var h' := Freed(h, b, k);
      && Built(h') && Has(h', b, Tag(n, Free), p) && Has(h', b + n, u, Tag(n, Free))
      && (forall x, t, r :: Has(h, x, t, r) && x != b && x != b + n ==> Has(h', x, t, r))
      && h'.owner == h.owner[Block(b) := k] && h'.live == h.live - {b} && h'.segs == h.segs
      && h'.home.Keys == h.home.Keys && (Neat(h) ==> Neat(h'))
  {
    HasLive(h, b, n, p, u, q);
    FreedBuilt(h, b, k);
    FreedHas(h, b, k, n, p, u, q);
    hide HeapOk; hide Has; hide Freed;
  }

  /** The rooms of the live blocks. */
  ghost predicate InRoom(live: Live, x: Addr) {
    exists a :: a in live && a + HEADER <= x < a + HEADER + live[a].room
  }

  ghost function Rooms(live: Live): Data {
    map x | x in Zeros() && InRoom(live, x) :: 0 as bv8
  }

  /** The heap when nothing is known of memory but the rooms. */
  lemma KnownBuilt(h: Heap)
    requires Built(h) && forall a :: a in h.live ==> 0 <= a && a + HEADER + h.live[a].room <= TOP
    ensures HeapOk(h.(data := Rooms(h.live)), {})
  {
    hide HeapOk;
    DataOk(h, {}, Rooms(h.live));
  }

  /** And then no header lies where something is known. */
  lemma KnownApart(h: Heap)
    requires Built(h) && Neat(h)
    ensures HeadersApart(h.size, h.prev, Rooms(h.live))
  {
    hide HeapOk;
    forall x | x in Rooms(h.live)
      ensures !IsHeader(h.size, h.prev, x)
    {
      var a :| a in h.live && a + HEADER <= x < a + HEADER + h.live[a].room;
      forall y | y in h.home
        ensures y + HEADER <= x || x < y
      {
        RoomWithoutHeader(h, {}, a, y);
      }
      assert x == WordAt(x) + (x - WordAt(x));
    }
  }
}
