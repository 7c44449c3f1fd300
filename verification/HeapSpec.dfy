/** The heap as values: which blocks are free, cached, live or in hand, and what each step
    of allocation and release does to them. */
module HeapSpec {
  import opened Bits
  import opened Sizes
  import opened Tags
  import opened Rings
  import opened Memory
  import opened FreeListSpec
  import opened Tiling

  /** A block as its client sees it: what was asked for, the room there is, and what the
      room holds. */
  datatype Piece = Piece(asked: nat, room: nat, body: seq<bv8>)

  type Live = map<Addr, Piece>

  /** A heap but for the words of its free lists. `home` tells the segment of each block,
      `owner` the list of each listed block, `live` what the clients hold, `data` the bytes
      in memory that are known, `lost` the free blocks that are in no list. */
  datatype Heap = Heap(segs: seq<Segment>, home: Home, size: map<Addr, Tag>, prev: map<Addr, Tag>, owner: Owners, live: Live,
                       data: Data, lost: set<Addr>)

  /** What the heap does not write down: the segment of each block, what the clients hold,
      the bytes of cached blocks that flushes released without lowering `size`, and the
      free blocks that a failed reallocation unlinked for good. */
  datatype Books = Books(home: Home, live: Live, flushed: nat, lost: set<Addr>)

  ghost predicate FreeBlock(home: Home, size: map<Addr, Tag>, a: Addr) {
    a in home && a in size && size[a].kind == Free
  }

  ghost predicate UsedBlock(home: Home, size: map<Addr, Tag>, a: Addr) {
    a in home && a in size && size[a].kind == Used
  }

  /** The free lists hold exactly the free blocks, the cache and the clients share the
      used ones; blocks of `hand` are with the running operation. */
  ghost predicate Shared(home: Home, size: map<Addr, Tag>, free: set<Addr>, cached: set<Addr>, live: Live, hand: set<Addr>) {
    && (forall a :: a in free <==> FreeBlock(home, size, a) && a !in hand)
    && (forall a :: a in cached ==> UsedBlock(home, size, a) && a !in hand)
    && (forall a :: a in live <==> UsedBlock(home, size, a) && a !in cached && a !in hand)
  }

  /** The headers and the memory agree with what the clients believe. */
  ghost predicate LiveOk(size: map<Addr, Tag>, live: Live, data: Data) {
    forall a :: a in live ==>
      && a in size && size[a].n == live[a].room + HEADER && live[a].asked <= live[a].room
      && |live[a].body| == live[a].room && BytesAt(data, a + HEADER, live[a].body)
  }

  ghost predicate Layout(segs: seq<Segment>, home: Home, size: map<Addr, Tag>, prev: map<Addr, Tag>) {
    Tiles(segs, home, size, prev) && Coalesced(home, size, prev)
  }

  // ---- taking blocks in hand and giving them away ----

  lemma TakeInHand(home: Home, size: map<Addr, Tag>, free: set<Addr>, cached: set<Addr>, live: Live, hand: set<Addr>, b: Addr)
    requires Shared(home, size, free, cached, live, hand)
    ensures b in free ==> Shared(home, size, free - {b}, cached, live, hand + {b})
    ensures b in cached ==> Shared(home, size, free, cached - {b}, live, hand + {b})
    ensures b in live ==> Shared(home, size, free, cached, live - {b}, hand + {b})
  {
  }

  lemma GiveAway(home: Home, size: map<Addr, Tag>, free: set<Addr>, cached: set<Addr>, live: Live, hand: set<Addr>, b: Addr, n: Piece)
    requires Shared(home, size, free, cached, live, hand) && b in hand
    ensures FreeBlock(home, size, b) ==> Shared(home, size, free + {b}, cached, live, hand - {b})
    ensures UsedBlock(home, size, b) ==> Shared(home, size, free, cached + {b}, live, hand - {b})
    ensures UsedBlock(home, size, b) ==> Shared(home, size, free, cached, live[b := n], hand - {b})
  {
  }

  // ---- changing the layout ----

  lemma MergeLayout(segs: seq<Segment>, home: Home, size: map<Addr, Tag>, prev: map<Addr, Tag>, lo: Addr, hi: Addr, t: Tag)
    requires Layout(segs, home, size, prev)
    requires lo in home && hi in home && lo < hi && home[lo] == home[hi]
    requires lo in prev && hi in size
    requires t.n == hi - lo && t.kind != Guard
    requires t.kind == Free ==> prev[lo].kind != Free && size[hi].kind != Free
    ensures Layout(segs, Without(home, lo, hi), size[lo := t], prev[hi := t])
  {
    hide Tiles; hide Coalesced;
    MergeTiles(segs, home, size, prev, lo, hi, t);
    MergeCoalesced(home, size, prev, lo, hi, t);
  }

  /** The blocks merged away, and the merged one when it changes its kind, are in hand. */
  lemma MergeShared(home: Home, size: map<Addr, Tag>, free: set<Addr>, cached: set<Addr>, live: Live, hand: set<Addr>,
                    lo: Addr, hi: Addr, t: Tag, hand': set<Addr>)
    requires Shared(home, size, free, cached, live, hand)
    requires lo in home && lo in size && lo < hi
    requires forall x :: x in home && lo < x < hi ==> x in hand
    requires lo in hand || (size[lo].kind == Used && t.kind == Used)
    requires hand' == set x | x in hand && !(lo < x < hi)
    ensures Shared(Without(home, lo, hi), size[lo := t], free, cached, live, hand')
  {
    hide Without;
    WithoutSpec(home, lo, hi);
  }

  lemma SplitLayout(segs: seq<Segment>, home: Home, size: map<Addr, Tag>, prev: map<Addr, Tag>, lo: Addr, mid: Addr, t: Tag, u: Tag)
    requires Layout(segs, home, size, prev)
    requires lo in home && lo in size && size[lo].kind != Guard
    requires lo < mid && t.n == mid - lo && u.n == size[lo].n - t.n
    requires t.n >= MIN_BLOCK && Aligned(t.n) && u.n >= MIN_BLOCK && Aligned(u.n) && t.kind == Used && u.kind == Free
    requires lo + size[lo].n in size ==> size[lo + size[lo].n].kind != Free
    ensures mid !in home
    ensures Layout(segs, home[mid := home[lo]], size[lo := t][mid := u], prev[mid := t][lo + size[lo].n := u])
  {
    hide Aligned;
    SplitTiles(segs, home, size, prev, lo, mid, t, u);
    Neighbours(segs, home, size, prev, lo);
    var hi := lo + size[lo].n;
    assert hi in size;
    SplitCoalesced(home, size, prev, lo, mid, hi, home[lo], t, u);
    hide Tiles; hide Coalesced;
  }

  lemma SplitShared(home: Home, size: map<Addr, Tag>, free: set<Addr>, cached: set<Addr>, live: Live, hand: set<Addr>,
                    lo: Addr, mid: Addr, s: Segment, t: Tag, u: Tag)
    requires Shared(home, size, free, cached, live, hand)
    requires lo in home && lo in size && lo != mid && mid !in home && mid !in hand
    requires lo in hand || size[lo].kind == Used
    requires t.kind == Used && u.kind == Free
    ensures Shared(home[mid := s], size[lo := t][mid := u], free, cached, live, hand + {mid})
  {
  }

  lemma AddSegmentShared(home: Home, size: map<Addr, Tag>, free: set<Addr>, cached: set<Addr>, live: Live,
                         hand: set<Addr>, s: Segment, t: Tag)
    requires Shared(home, size, free, cached, live, hand)
    requires s.First() !in home && s.Last() !in home && s.First() < s.Last()
    requires t.kind != Guard
    ensures Shared(home[s.First() := s][s.Last() := s], size[s.First() := t][s.Last() := GUARD], free, cached, live,
                   hand + {s.First()})
  {
  }

  /** A segment whose blocks are all in hand goes. */
  lemma DropSegmentShared(home: Home, size: map<Addr, Tag>, free: set<Addr>, cached: set<Addr>, live: Live, hand: set<Addr>,
                          s: Segment)
    requires Shared(home, size, free, cached, live, hand)
    requires forall x :: x in home && home[x] == s && x in size && size[x].kind != Guard ==> x in hand
    ensures Shared(DropSegment(home, s), size, free, cached, live, set x | x in hand && x in home && home[x] != s)
  {
  }

  // ---- carving ----

  /** ZEND_MM_BLOCK(b, ZEND_MM_USED_BLOCK, its whole size). */
  lemma UseWhole(segs: seq<Segment>, home: Home, size: map<Addr, Tag>, prev: map<Addr, Tag>,
                 free: set<Addr>, cached: set<Addr>, live: Live, hand: set<Addr>, b: Addr)
    requires Layout(segs, home, size, prev) && Shared(home, size, free, cached, live, hand)
    requires b in hand && b in home && b in size && size[b].kind != Guard
    ensures var n := size[b].n; var t := Tag(n, Used);
      && Layout(segs, home, size[b := t], prev[b + n := t])
      && Shared(home, size[b := t], free, cached, live, hand)
      && UsedBlock(home, size[b := t], b)
  {
    hide Shared; hide Aligned; hide BlockOk; hide Coalesced;
    var n := size[b].n;
    NextInHome(segs, home, size, prev, b);
    NothingBetween(home, size, b);
    MergeLayout(segs, home, size, prev, b, b + n, Tag(n, Used));
    WithoutSpec(home, b, b + n);
    assert (set x | x in hand && !(b < x < b + n)) <= hand;
    RetagShared(home, size, free, cached, live, hand, b, Tag(n, Used));
  }

  lemma RetagShared(home: Home, size: map<Addr, Tag>, free: set<Addr>, cached: set<Addr>, live: Live, hand: set<Addr>, b: Addr, t: Tag)
    requires Shared(home, size, free, cached, live, hand) && b in hand
    ensures Shared(home, size[b := t], free, cached, live, hand)
  {
  }

  lemma NextInHome(segs: seq<Segment>, home: Home, size: map<Addr, Tag>, prev: map<Addr, Tag>, b: Addr)
    requires Tiles(segs, home, size, prev) && b in home && b in size && size[b].kind != Guard
    ensures b in prev && size[b].n >= MIN_BLOCK && Aligned(size[b].n)
    ensures b + size[b].n in home && home[b + size[b].n] == home[b] && b + size[b].n in size && b + size[b].n in prev
    ensures prev[b + size[b].n] == size[b] && prev[b + size[b].n] != FIRST
  {
    hide Aligned;
    Neighbours(segs, home, size, prev, b);
  }

  /** ZEND_MM_BLOCK(b, ZEND_MM_USED_BLOCK, n) and a free block for the rest. */
  lemma UseSplit(segs: seq<Segment>, home: Home, size: map<Addr, Tag>, prev: map<Addr, Tag>,
                 free: set<Addr>, cached: set<Addr>, live: Live, hand: set<Addr>, b: Addr, n: nat)
    requires Layout(segs, home, size, prev) && Shared(home, size, free, cached, live, hand)
    requires b in home && b in size && size[b].kind != Guard
    requires b in hand || size[b].kind == Used
    requires hand <= home.Keys
    requires ValidBlockSize(n) && size[b].n >= n + MIN_BLOCK
    requires size[b].kind == Free || (b + size[b].n in size && size[b + size[b].n].kind != Free)
    ensures var mid, t, u := b + n, Tag(n, Used), Tag(size[b].n - n, Free);
      && mid !in home
      && Layout(segs, home[mid := home[b]], size[b := t][mid := u], prev[mid := t][b + size[b].n := u])
      && Shared(home[mid := home[b]], size[b := t][mid := u], free, cached, live, hand + {mid})
      && UsedBlock(home[mid := home[b]], size[b := t][mid := u], b)
      && FreeBlock(home[mid := home[b]], size[b := t][mid := u], mid)
      && ValidBlockSize(u.n)
  {
    NextInHome(segs, home, size, prev, b);
    AlignedSum(size[b].n, n);
    AlignedBlockSize(n);
    AlignedBlockSize(size[b].n - n);
    assert size[b].kind == Free ==> size[b + size[b].n].kind != Free;
    hide Aligned; hide Shared; hide Layout; hide ValidBlockSize; hide Tiles;
    SplitLayout(segs, home, size, prev, b, b + n, Tag(n, Used), Tag(size[b].n - n, Free));
    SplitShared(home, size, free, cached, live, hand, b, b + n, home[b], Tag(n, Used), Tag(size[b].n - n, Free));
  }

  /** Blocks in hand or unknown are in no list. */
  lemma NotOwned(home: Home, size: map<Addr, Tag>, owner: Owners, live: Live, hand: set<Addr>, b: Addr)
    requires Shared(home, size, FreeAddrs(owner), CachedAddrs(owner), live, hand)
    requires b in hand || b !in home || b in live
    ensures Block(b) !in owner
  {
    assert Block(b) in owner ==> b in FreeAddrs(owner) || b in CachedAddrs(owner);
  }

  /** Storage never hands out the NULL address, or more than there is. */
  ghost predicate SegmentsBounded(segs: seq<Segment>) {
    forall s :: s in segs ==> 0 < s.base && s.size < WORD
  }

  /** In segments below 2 GiB ZEND_MM_PREV_BLOCK finds the block before. */
  const FAR: nat := 0x8000_0000

  ghost predicate NearSegments(segs: seq<Segment>) {
    forall s :: s in segs ==> s.size < FAR
  }

  ghost predicate NearHome(home: Home, b: Addr) {
    b in home ==> home[b].size < FAR
  }

  /** A lost block lies between a live block and the guard of its segment. */
  ghost predicate LostOk(lost: set<Addr>, home: Home, size: map<Addr, Tag>, prev: map<Addr, Tag>, live: Live) {
    forall a :: a in lost ==> LostAt(home, size, prev, live, a)
  }

  ghost predicate LostAt(home: Home, size: map<Addr, Tag>, prev: map<Addr, Tag>, live: Live, a: Addr) {
    && FreeBlock(home, size, a) && a in prev && prev[a] != FIRST && a - prev[a].n in live
    && a + size[a].n in size && size[a + size[a].n].kind == Guard
  }

  /** The blocks of the rest ring lie before the guards of their segments. */
  ghost predicate RestOk(owner: Owners, size: map<Addr, Tag>) {
    forall a :: InRest(owner, a) ==> LastFree(size, a)
  }

  ghost predicate LastFree(size: map<Addr, Tag>, a: Addr) {
    a in size && a + size[a].n in size && size[a + size[a].n].kind == Guard
  }

  /** What holds between the steps of an operation that has the blocks `hand` in work. */
  ghost predicate HeapOk(h: Heap, hand: set<Addr>) {
    && Layout(h.segs, h.home, h.size, h.prev)
    && Shared(h.home, h.size, FreeAddrs(h.owner), CachedAddrs(h.owner), h.live, hand + h.lost)
    && LiveOk(h.size, h.live, h.data)
    && SegmentsBounded(h.segs) && RestOk(h.owner, h.size)
    && LostOk(h.lost, h.home, h.size, h.prev, h.live) && hand !! h.lost
  }

  lemma BlockBounded(segs: seq<Segment>, home: Home, size: map<Addr, Tag>, prev: map<Addr, Tag>, b: Addr)
    requires Tiles(segs, home, size, prev) && SegmentsBounded(segs) && b in home
    ensures b in size && size[b].n < home[b].size < WORD && b > 0 && home[b] in segs
  {
    hide Aligned;
    Neighbours(segs, home, size, prev, b);
    assert home[b].size < WORD;
  }

  /** From `live` to `live'`, a client got pointer `p` for `n` bytes, and nothing else changed. */
  ghost predicate Granted(live: Live, live': Live, p: Addr, n: nat) {
    && p - HEADER !in live && p - HEADER in live' && live' == live[p - HEADER := live'[p - HEADER]]
    && p > HEADER && p % ALIGNMENT == 0 && Fits(live'[p - HEADER], n)
  }

  /** Room for `n` bytes, and not for a minimal block more. */
  ghost predicate Fits(x: Piece, n: nat) {
    x.asked == n && n <= x.room && TrueSize(n) <= x.room + HEADER < TrueSize(n) + MIN_BLOCK
  }

  /** From `live` to `live'`, the block of pointer `p` became that of pointer `q`, for `n`
      bytes; it keeps its bytes as far as both reach, and nothing else changed. */
  ghost predicate Regranted(live: Live, live': Live, p: Addr, q: Addr, n: nat) {
    && p - HEADER in live && (q == p || q - HEADER !in live)
    && q - HEADER in live' && live' == (live - {p - HEADER})[q - HEADER := live'[q - HEADER]]
    && q > HEADER && q % ALIGNMENT == 0 && Fits(live'[q - HEADER], n)
    && KeepsBytes(live[p - HEADER].body, live'[q - HEADER].body)
  }

  ghost predicate KeepsBytes(x: seq<bv8>, y: seq<bv8>) {
    forall k :: 0 <= k < |x| && k < |y| ==> y[k] == x[k]
  }

  // ---- runs ----

  /** What the clients hold after a failure that released the reserve. */
  function AfterError(live: Live, reserve: Addr): Live {
    if reserve == 0 then live else live - {reserve - HEADER}
  }

  /** What an operation did for the clients; a failure releases the reserve. */
  datatype Act = Got(p: Addr, n: nat) | Moved(p: Addr, q: Addr, n: nat) | Released(p: Addr) | Wrote(p: Addr, body: seq<bv8>)
    | Failed(reserve: Addr) | Nothing

  ghost predicate Did(live: Live, a: Act, live': Live) {
    match a
    case Got(p, n) => Granted(live, live', p, n)
    case Moved(p, q, n) => Regranted(live, live', p, q, n)
    case Released(p) => live' == live - {p - HEADER}
    case Wrote(p, body) => p - HEADER in live && live' == live[p - HEADER := live[p - HEADER].(body := body)]
    case Failed(reserve) => live' == AfterError(live, reserve)
    case Nothing => live' == live
  }

  ghost predicate IsRun(states: seq<Live>, acts: seq<Act>) {
    |states| == |acts| + 1 && forall i :: 0 <= i < |acts| ==> Did(states[i], acts[i], states[i + 1])
  }

  predicate Touches(a: Act, p: Addr) {
    match a
    case Got(_, _) => false
    case Moved(q, _, _) => q == p
    case Released(q) => q == p
    case Wrote(q, _) => q == p
    case Failed(reserve) => reserve == p
    case Nothing => false
  }

  /** Over any run, a block keeps its place, its room and its bytes until its own client
      reallocates, frees or writes it. */
  lemma {:induction false} OthersKeepTheirs(states: seq<Live>, acts: seq<Act>, p: Addr)
    requires IsRun(states, acts) && p - HEADER in states[0]
    requires forall a :: a in acts ==> !Touches(a, p)
    ensures p - HEADER in states[|acts|] && states[|acts|][p - HEADER] == states[0][p - HEADER]
    decreases |acts|
  {
    if acts != [] {
      var n := |acts| - 1;
      assert IsRun(states[..n + 1], acts[..n]);
      assert forall a :: a in acts[..n] ==> a in acts;
      OthersKeepTheirs(states[..n + 1], acts[..n], p);
      assert !Touches(acts[n], p) && Did(states[n], acts[n], states[n + 1]);
    }
  }

  // ---- totals ----

  lemma NonEmpty(live: Live)
    ensures live == map[] || exists x :: x in live
  {
    if !exists x :: x in live {
      assert forall x :: x !in live;
      assert live == map[];
    }
  }

  ghost function Pick(live: Live): (x: Addr)
    requires live != map[]
    ensures x in live
  {
    NonEmpty(live);
    var x :| x in live;
    x
  }

  /** The bytes of the live blocks, headers included. */
  ghost function LiveTotal(live: Live): nat {
    if live == map[] then 0 else live[Pick(live)].room + HEADER + LiveTotal(live - {Pick(live)})
  }

  lemma {:induction false} LiveTotalRemove(live: Live, b: Addr)
    requires b in live
    ensures LiveTotal(live) == live[b].room + HEADER + LiveTotal(live - {b})
    decreases |live|
  {
    var x := Pick(live);
    if x != b {
      LiveTotalRemove(live - {x}, b);
      LiveTotalRemove(live - {b}, x);
      assert live - {x} - {b} == live - {b} - {x};
    }
  }

  lemma LiveTotalAdd(live: Live, b: Addr, p: Piece)
    requires b !in live
    ensures LiveTotal(live[b := p]) == p.room + HEADER + LiveTotal(live)
  {
    LiveTotalRemove(live[b := p], b);
    assert live[b := p] - {b} == live;
  }

  /** The bytes in the cache: chain `i` holds blocks of class `i`. */
  ghost function CacheTotal(rings: Lists, n: nat): nat {
    if n == 0 then 0
    else CacheTotal(rings, n - 1) + ClassSize(n - 1) * (if CacheChain(n - 1) in rings then |rings[CacheChain(n - 1)]| else 0)
  }

  lemma {:induction false} CacheTotalUpdate(rings: Lists, n: nat, i: nat, c: seq<Ptr>)
    requires i < n && CacheChain(i) in rings
    ensures CacheTotal(rings[CacheChain(i) := c], n) == CacheTotal(rings, n) + ClassSize(i) * (|c| - |rings[CacheChain(i)]|)
  {
    if i < n - 1 {
      CacheTotalUpdate(rings, n - 1, i, c);
    } else {
      CacheTotalFrame(rings, rings[CacheChain(i) := c], n - 1);
    }
  }

  lemma {:induction false} CacheTotalFrame(rings: Lists, rings': Lists, n: nat)
    requires forall i :: 0 <= i < n ==> (CacheChain(i) in rings <==> CacheChain(i) in rings')
    requires forall i :: 0 <= i < n && CacheChain(i) in rings ==> rings'[CacheChain(i)] == rings[CacheChain(i)]
    ensures CacheTotal(rings', n) == CacheTotal(rings, n)
  {
    if n > 0 {
      CacheTotalFrame(rings, rings', n - 1);
    }
  }

  lemma {:induction false} NoCacheTotal(rings: Lists, n: nat)
    requires forall i :: 0 <= i < n && CacheChain(i) in rings ==> rings[CacheChain(i)] == []
    ensures CacheTotal(rings, n) == 0
  {
    if n > 0 {
      NoCacheTotal(rings, n - 1);
    }
  }

  lemma SameCacheTotal(v: View, v': View)
    requires SameCache(v, v') && forall i :: 0 <= i < NUM_BUCKETS ==> CacheChain(i) in v.rings
    ensures CacheTotal(v'.rings, NUM_BUCKETS) == CacheTotal(v.rings, NUM_BUCKETS) && v'.heads == v.heads
  {
    CacheTotalFrame(v.rings, v'.rings, NUM_BUCKETS);
  }

  ghost function SegmentTotal(segs: seq<Segment>): nat {
    if segs == [] then 0 else segs[0].size + SegmentTotal(segs[1..])
  }

  lemma {:induction false} SegmentTotalRemove(segs: seq<Segment>, i: nat)
    requires i < |segs|
    ensures SegmentTotal(segs) == segs[i].size + SegmentTotal(segs[..i] + segs[i + 1..])
  {
    if i == 0 {
      assert segs[..0] + segs[1..] == segs[1..];
    } else {
      SegmentTotalRemove(segs[1..], i - 1);
      var r := segs[..i] + segs[i + 1..];
      assert r[0] == segs[0] && r[1..] == segs[1..][..i - 1] + segs[1..][i..];
    }
  }
}
