/** How blocks tile segments: boundary tags, first blocks and guards. */
module Tiling {
  import opened Sizes
  import opened Tags

  datatype Segment = Segment(base: Addr, size: nat) {
    function First(): Addr {
      base + SEGMENT_HEADER
    }

    /** Where the guard block is. */
    function Last(): Addr {
      base + size - HEADER
    }
  }

  type Home = map<Addr, Segment>

  ghost predicate Disjoint(s: Segment, t: Segment) {
    s.base + s.size <= t.base || t.base + t.size <= s.base
  }

  ghost predicate SegmentsApart(segs: seq<Segment>) {
    forall i, j :: 0 <= i < j < |segs| ==> Disjoint(segs[i], segs[j])
  }

  predicate Aligned(x: int) {
    x % ALIGNMENT == 0
  }

  lemma AlignedSum(x: int, y: int)
    ensures Aligned(x) && Aligned(y) ==> Aligned(x + y) && Aligned(x - y)
    ensures Aligned(HEADER) && Aligned(SEGMENT_HEADER) && Aligned(SEGMENT_HEADER + HEADER)
  {
    if Aligned(x) && Aligned(y) {
      var i, j := x / 8, y / 8;
      assert x == 8 * i && y == 8 * j;
      Eights(i + j);
      Eights(i - j);
    }
  }

  lemma Eights(k: int)
    ensures Aligned(8 * k)
  {
  }

  lemma AlignedBlockSize(n: nat)
    ensures ValidBlockSize(n) <==> n >= MIN_BLOCK && Aligned(n)
  {
  }

  /** Block `b` agrees with its neighbours' tags and stays inside its segment. */
  ghost predicate BlockOk(home: Home, size: map<Addr, Tag>, prev: map<Addr, Tag>, b: Addr)
    requires b in home
  {
    && b in size && b in prev
    && home[b].First() <= b <= home[b].Last()
    && Aligned(b)
    && (size[b].kind == Guard <==> b == home[b].Last())
    && (prev[b] == FIRST <==> b == home[b].First())
    && (size[b].kind == Guard ==> size[b] == GUARD)
    && (size[b].kind != Guard ==>
          && size[b].n >= MIN_BLOCK && Aligned(size[b].n) && b + size[b].n in home && home[b + size[b].n] == home[b]
          && b + size[b].n in prev && prev[b + size[b].n] == size[b])
    && (prev[b] != FIRST ==>
          && b - prev[b].n in home && home[b - prev[b].n] == home[b]
          && b - prev[b].n in size && size[b - prev[b].n] == prev[b] && prev[b].kind != Guard)
  }

  ghost predicate SegmentOk(home: Home, s: Segment) {
    && Aligned(s.base) && Aligned(s.size) && s.size >= SEGMENT_HEADER + MIN_BLOCK + HEADER
    && s.First() in home && home[s.First()] == s
    && s.Last() in home && home[s.Last()] == s
  }

  /** Blocks do not overlap. */
  ghost predicate Apart(home: Home, size: map<Addr, Tag>) {
    forall b, c :: b in home && c in home && b in size && b < c ==> b + size[b].n <= c
  }

  ghost predicate BlocksOk(segs: seq<Segment>, home: Home, size: map<Addr, Tag>, prev: map<Addr, Tag>) {
    forall b {:trigger BlockOk(home, size, prev, b)} :: b in home ==> home[b] in segs && BlockOk(home, size, prev, b)
  }

  /** Every segment is tiled by the blocks whose home it is. */
  ghost predicate Tiles(segs: seq<Segment>, home: Home, size: map<Addr, Tag>, prev: map<Addr, Tag>) {
    && SegmentsApart(segs)
    && (forall s :: s in segs ==> SegmentOk(home, s))
    && BlocksOk(segs, home, size, prev)
    && Apart(home, size)
  }

  /** Free blocks are coalesced: no free block follows a free block. */
  ghost predicate Coalesced(home: Home, size: map<Addr, Tag>, prev: map<Addr, Tag>) {
    forall b :: b in home && b in size && b in prev ==> !(size[b].kind == Free && prev[b].kind == Free)
  }

  // ---- changing the tiling of a stretch ----

  /** The blocks that stay when [lo, hi) becomes one block. */
  ghost function Without(home: Home, lo: Addr, hi: Addr): Home {
    map x | x in home && !(lo < x < hi) :: home[x]
  }

  /** ZEND_MM_BLOCK at `lo`, up to block `hi` of the same segment. */
  lemma MergeTiles(segs: seq<Segment>, home: Home, size: map<Addr, Tag>, prev: map<Addr, Tag>, lo: Addr, hi: Addr, t: Tag)
    requires Tiles(segs, home, size, prev)
    requires lo in home && hi in home && lo < hi && home[lo] == home[hi]
    requires t.n == hi - lo && t.kind != Guard
    ensures Tiles(segs, Without(home, lo, hi), size[lo := t], prev[hi := t])
  {
    hide SegmentsApart; hide SegmentOk; hide Apart; hide BlockOk; hide ValidBlockSize; hide Without;
    var home', size', prev' := Without(home, lo, hi), size[lo := t], prev[hi := t];
    assert BlockOk(home, size, prev, lo);
    assert BlockOk(home, size, prev, hi);
    MergedSize(home, size, prev, lo, hi);
    WithoutSpec(home, lo, hi);
    forall b | b in home'
      ensures BlockOk(home', size', prev', b) && home'[b] in segs
    {
      Neighbours(segs, home, size, prev, b);
      MergeBlock(home, size, prev, lo, hi, t, b);
    }
    forall s | s in segs
      ensures SegmentOk(home', s)
    {
      FirstAndLast(home, s);
      assert BlockOk(home, size, prev, s.First()) && BlockOk(home, size, prev, s.Last());
      MergeSegment(segs, home, size, prev, lo, hi, s);
    }
    MergeApart(home, size, lo, hi, t);
  }

  lemma WithoutSpec(home: Home, lo: Addr, hi: Addr)
    ensures forall b :: b in Without(home, lo, hi) <==> b in home && !(lo < b < hi)
    ensures forall b :: b in Without(home, lo, hi) ==> Without(home, lo, hi)[b] == home[b]
  {
  }

  /** Nothing lies between a block and the next. */
  lemma NothingBetween(home: Home, size: map<Addr, Tag>, b: Addr)
    requires Apart(home, size) && b in home && b in size
    ensures Without(home, b, b + size[b].n) == home
  {
  }

  lemma FirstAndLast(home: Home, s: Segment)
    requires SegmentOk(home, s)
    ensures s.First() in home && home[s.First()] == s && s.Last() in home && home[s.Last()] == s
  {
  }

  /** The neighbours that the tags of a block name are blocks. */
  ghost predicate NeighboursOk(home: Home, size: map<Addr, Tag>, prev: map<Addr, Tag>, b: Addr) {
    && b in size && b in prev
    && (prev[b] != FIRST ==> b - prev[b].n in home && BlockOk(home, size, prev, b - prev[b].n))
    && (size[b].kind != Guard ==> b + size[b].n in home && BlockOk(home, size, prev, b + size[b].n))
  }

  lemma Neighbours(segs: seq<Segment>, home: Home, size: map<Addr, Tag>, prev: map<Addr, Tag>, b: Addr)
    requires BlocksOk(segs, home, size, prev) && b in home
    ensures home[b] in segs && BlockOk(home, size, prev, b) && NeighboursOk(home, size, prev, b)
  {
    hide Aligned;
  }

  lemma MergedSize(home: Home, size: map<Addr, Tag>, prev: map<Addr, Tag>, lo: Addr, hi: Addr)
    requires lo in home && hi in home && lo < hi && Apart(home, size) && home[lo] == home[hi]
    requires BlockOk(home, size, prev, lo) && BlockOk(home, size, prev, hi)
    ensures hi - lo >= MIN_BLOCK && Aligned(hi - lo)
  {
    hide Aligned; hide ValidBlockSize;
    AlignedSum(hi, lo);
  }

  lemma MergeSegment(segs: seq<Segment>, home: Home, size: map<Addr, Tag>, prev: map<Addr, Tag>, lo: Addr, hi: Addr, s: Segment)
    requires SegmentsApart(segs) && s in segs && SegmentOk(home, s)
    requires lo in home && hi in home && lo < hi && home[lo] == home[hi] && home[lo] in segs
    requires BlockOk(home, size, prev, lo) && BlockOk(home, size, prev, hi)
    ensures SegmentOk(Without(home, lo, hi), s)
  {
    hide Aligned; hide ValidBlockSize;
    hide SegmentsApart;
    if s != home[lo] {
      SegmentsDisjoint(segs, s, home[lo]);
    }
  }

  lemma SegmentsDisjoint(segs: seq<Segment>, s: Segment, t: Segment)
    requires SegmentsApart(segs) && s in segs && t in segs && s != t
    ensures Disjoint(s, t)
  {
    var i :| 0 <= i < |segs| && segs[i] == s;
    var j :| 0 <= j < |segs| && segs[j] == t;
    assert Disjoint(segs[i], segs[j]) || Disjoint(segs[j], segs[i]);
  }

  lemma MergeApart(home: Home, size: map<Addr, Tag>, lo: Addr, hi: Addr, t: Tag)
    requires Apart(home, size) && lo in home && hi in home && lo < hi && t.n == hi - lo
    ensures Apart(Without(home, lo, hi), size[lo := t])
  {
  }

  lemma MergeBlock(home: Home, size: map<Addr, Tag>, prev: map<Addr, Tag>, lo: Addr, hi: Addr, t: Tag, b: Addr)
    requires Apart(home, size)
    requires lo in home && hi in home && lo < hi && home[lo] == home[hi]
    requires BlockOk(home, size, prev, lo) && BlockOk(home, size, prev, hi)
    requires b in home && !(lo < b < hi) && BlockOk(home, size, prev, b)
    requires NeighboursOk(home, size, prev, b)
    requires t.n == hi - lo && t.kind != Guard && t.n >= MIN_BLOCK && Aligned(t.n)
    ensures b in Without(home, lo, hi) && BlockOk(Without(home, lo, hi), size[lo := t], prev[hi := t], b)
  {
    hide Aligned; hide Without;
    if b == lo {
      assert prev[b] != FIRST ==> b - prev[b].n < lo;
      hide Apart;
      MergeLo(home, size, prev, lo, hi, t);
    } else if b == hi {
      hide Apart; hide NeighboursOk;
      MergeHi(home, size, prev, lo, hi, t);
    } else {
      assert b < lo ==> b + size[b].n <= lo;
      assert prev[b] != FIRST && b - prev[b].n < hi ==> b <= hi;
      hide Apart;
      MergeOther(home, size, prev, lo, hi, t, b);
    }
  }

  lemma MergeLo(home: Home, size: map<Addr, Tag>, prev: map<Addr, Tag>, lo: Addr, hi: Addr, t: Tag)
    requires lo in home && hi in home && lo < hi && home[lo] == home[hi]
    requires BlockOk(home, size, prev, lo) && BlockOk(home, size, prev, hi)
    requires prev[lo] != FIRST ==> lo - prev[lo].n < lo
    requires t.n == hi - lo && t.kind != Guard && t.n >= MIN_BLOCK && Aligned(t.n)
    ensures lo in Without(home, lo, hi) && BlockOk(Without(home, lo, hi), size[lo := t], prev[hi := t], lo)
  {
    hide Without; hide Aligned;
    WithoutSpec(home, lo, hi);
  }

  lemma MergeHi(home: Home, size: map<Addr, Tag>, prev: map<Addr, Tag>, lo: Addr, hi: Addr, t: Tag)
    requires lo in home && hi in home && lo < hi && home[lo] == home[hi]
    requires BlockOk(home, size, prev, lo) && BlockOk(home, size, prev, hi)
    requires t.n == hi - lo && t.kind != Guard
    ensures hi in Without(home, lo, hi) && BlockOk(Without(home, lo, hi), size[lo := t], prev[hi := t], hi)
  {
    hide Without; hide Aligned;
    WithoutSpec(home, lo, hi);
  }

  lemma MergeOther(home: Home, size: map<Addr, Tag>, prev: map<Addr, Tag>, lo: Addr, hi: Addr, t: Tag, b: Addr)
    requires lo in home && hi in home && lo < hi && b in home && (b < lo || hi < b)
    requires BlockOk(home, size, prev, b) && NeighboursOk(home, size, prev, b)
    requires b < lo ==> b + size[b].n <= lo
    requires prev[b] != FIRST && b - prev[b].n < hi ==> b <= hi
    ensures b in Without(home, lo, hi) && BlockOk(Without(home, lo, hi), size[lo := t], prev[hi := t], b)
  {
    hide Without; hide Aligned;
    WithoutSpec(home, lo, hi);
  }

  /** A block cut in two: ZEND_MM_BLOCK at `lo` and at `mid`. */
  lemma SplitTiles(segs: seq<Segment>, home: Home, size: map<Addr, Tag>, prev: map<Addr, Tag>, lo: Addr, mid: Addr, t: Tag, u: Tag)
    requires Tiles(segs, home, size, prev)
    requires lo in home && lo in size && size[lo].kind != Guard
    requires lo < mid && t.n == mid - lo && u.n == size[lo].n - t.n
    requires t.n >= MIN_BLOCK && Aligned(t.n) && u.n >= MIN_BLOCK && Aligned(u.n) && t.kind != Guard && u.kind != Guard
    ensures mid !in home
    ensures Tiles(segs, home[mid := home[lo]], size[lo := t][mid := u], prev[mid := t][lo + size[lo].n := u])
  {
    hide SegmentsApart; hide SegmentOk; hide ValidBlockSize; hide Aligned;
    var hi := lo + size[lo].n;
    Neighbours(segs, home, size, prev, lo);
    assert mid !in home;
    SplitApart(home, size, lo, mid, t, u);
    hide BlockOk; hide Apart; hide NeighboursOk;
    SplitBlocks(segs, home, size, prev, lo, mid, t, u);
    hide BlocksOk;
    forall s | s in segs
      ensures SegmentOk(home[mid := home[lo]], s)
    {
      SplitSegment(home, mid, home[lo], s);
    }
  }

  lemma SplitBlocks(segs: seq<Segment>, home: Home, size: map<Addr, Tag>, prev: map<Addr, Tag>, lo: Addr, mid: Addr, t: Tag, u: Tag)
    requires BlocksOk(segs, home, size, prev) && Apart(home, size)
    requires lo in home && lo in size && size[lo].kind != Guard && mid !in home
    requires lo < mid && t.n == mid - lo && u.n == size[lo].n - t.n
    requires t.n >= MIN_BLOCK && Aligned(t.n) && u.n >= MIN_BLOCK && Aligned(u.n) && t.kind != Guard && u.kind != Guard
    ensures BlocksOk(segs, home[mid := home[lo]], size[lo := t][mid := u], prev[mid := t][lo + size[lo].n := u])
  {
    hide Aligned; hide BlockOk; hide Apart; hide NeighboursOk;
    var home', size', prev' := home[mid := home[lo]], size[lo := t][mid := u], prev[mid := t][lo + size[lo].n := u];
    Neighbours(segs, home, size, prev, lo);
    SplitMid(home, size, prev, lo, mid, t, u);
    forall b | b in home && b != mid
      ensures home'[b] in segs && BlockOk(home', size', prev', b)
    {
      Neighbours(segs, home, size, prev, b);
      SplitBlock(home, size, prev, lo, mid, t, u, b);
    }
  }

  lemma SplitSegment(home: Home, mid: Addr, h: Segment, s: Segment)
    requires SegmentOk(home, s) && mid !in home
    ensures SegmentOk(home[mid := h], s)
  {
  }

  lemma SplitMid(home: Home, size: map<Addr, Tag>, prev: map<Addr, Tag>, lo: Addr, mid: Addr, t: Tag, u: Tag)
    requires lo in home && BlockOk(home, size, prev, lo) && size[lo].kind != Guard && NeighboursOk(home, size, prev, lo)
    requires lo < mid && t.n == mid - lo && u.n == size[lo].n - t.n && mid !in home
    requires t.n >= MIN_BLOCK && Aligned(t.n) && u.n >= MIN_BLOCK && Aligned(u.n) && t.kind != Guard && u.kind != Guard
    ensures BlockOk(home[mid := home[lo]], size[lo := t][mid := u], prev[mid := t][lo + size[lo].n := u], mid)
  {
    hide Aligned; hide ValidBlockSize;
    AlignedSum(lo, t.n);
  }

  lemma SplitBlock(home: Home, size: map<Addr, Tag>, prev: map<Addr, Tag>, lo: Addr, mid: Addr, t: Tag, u: Tag, b: Addr)
    requires lo in home && BlockOk(home, size, prev, lo) && size[lo].kind != Guard
    requires NeighboursOk(home, size, prev, lo)
    requires lo < mid && t.n == mid - lo && u.n == size[lo].n - t.n && mid !in home
    requires t.n >= MIN_BLOCK && Aligned(t.n) && u.n >= MIN_BLOCK && Aligned(u.n) && t.kind != Guard && u.kind != Guard
    requires b in home && BlockOk(home, size, prev, b)
    ensures BlockOk(home[mid := home[lo]], size[lo := t][mid := u], prev[mid := t][lo + size[lo].n := u], b)
  {
    hide Aligned; hide BlockOk;
    if b == lo {
      SplitFront(home, size, prev, lo, mid, t, u);
    } else if b == lo + SizeAt(size, lo) {
      SplitBehind(home, size, prev, lo, mid, t, u);
    } else {
      SplitOther(home, size, prev, lo, mid, t, u, b);
    }
  }

  function SizeAt(size: map<Addr, Tag>, b: Addr): nat {
    if b in size then size[b].n else 0
  }

  lemma SplitFront(home: Home, size: map<Addr, Tag>, prev: map<Addr, Tag>, lo: Addr, mid: Addr, t: Tag, u: Tag)
    requires lo in home && BlockOk(home, size, prev, lo) && size[lo].kind != Guard
    requires NeighboursOk(home, size, prev, lo)
    requires lo < mid && t.n == mid - lo && u.n == size[lo].n - t.n && mid !in home
    requires t.n >= MIN_BLOCK && Aligned(t.n) && u.n >= MIN_BLOCK && Aligned(u.n) && t.kind != Guard && u.kind != Guard
    ensures BlockOk(home[mid := home[lo]], size[lo := t][mid := u], prev[mid := t][lo + size[lo].n := u], lo)
  {
    hide Aligned;
  }

  lemma SplitBehind(home: Home, size: map<Addr, Tag>, prev: map<Addr, Tag>, lo: Addr, mid: Addr, t: Tag, u: Tag)
    requires lo in home && BlockOk(home, size, prev, lo) && size[lo].kind != Guard
    requires NeighboursOk(home, size, prev, lo)
    requires lo < mid && t.n == mid - lo && u.n == size[lo].n - t.n && mid !in home
    requires t.n >= MIN_BLOCK && Aligned(t.n) && u.n >= MIN_BLOCK && Aligned(u.n) && t.kind != Guard && u.kind != Guard
    ensures lo in size && lo + size[lo].n in home
    ensures BlockOk(home[mid := home[lo]], size[lo := t][mid := u], prev[mid := t][lo + size[lo].n := u], lo + size[lo].n)
  {
    hide Aligned;
  }

  lemma SplitOther(home: Home, size: map<Addr, Tag>, prev: map<Addr, Tag>, lo: Addr, mid: Addr, t: Tag, u: Tag, b: Addr)
    requires lo in home && BlockOk(home, size, prev, lo) && size[lo].kind != Guard
    requires NeighboursOk(home, size, prev, lo)
    requires lo < mid && t.n == mid - lo && u.n == size[lo].n - t.n && mid !in home
    requires t.n >= MIN_BLOCK && Aligned(t.n) && u.n >= MIN_BLOCK && Aligned(u.n) && t.kind != Guard && u.kind != Guard
    requires b in home && BlockOk(home, size, prev, b) && b != lo && b != lo + size[lo].n
    ensures BlockOk(home[mid := home[lo]], size[lo := t][mid := u], prev[mid := t][lo + size[lo].n := u], b)
  {
    hide Aligned;
  }

  lemma SplitApart(home: Home, size: map<Addr, Tag>, lo: Addr, mid: Addr, t: Tag, u: Tag)
    requires Apart(home, size) && lo in home && lo in size && mid !in home
    requires lo < mid && t.n == mid - lo && t.n + u.n == size[lo].n
    ensures Apart(home[mid := home[lo]], size[lo := t][mid := u])
  {
  }

  // ---- segments come and go ----

  /** A new segment, one block and its guard, anywhere in the list. */
  lemma AddSegmentTiles(segs: seq<Segment>, segs': seq<Segment>, home: Home, size: map<Addr, Tag>, prev: map<Addr, Tag>, s: Segment, t: Tag)
    requires Tiles(segs, home, size, prev)
    requires SegmentsApart(segs') && forall x :: x in segs' <==> x in segs || x == s
    requires forall x :: x in segs ==> Disjoint(s, x)
    requires Aligned(s.base) && Aligned(s.size) && s.size >= SEGMENT_HEADER + MIN_BLOCK + HEADER
    requires t.kind != Guard && t.n == s.size - SEGMENT_HEADER - HEADER
    ensures s.First() !in home && s.Last() !in home
    ensures Tiles(segs', home[s.First() := s][s.Last() := s], size[s.First() := t][s.Last() := GUARD],
                  prev[s.First() := FIRST][s.Last() := t])
  {
    hide SegmentsApart; hide Aligned; hide BlockOk; hide Apart; hide SegmentOk;
    hide BlocksOk;
    var f, l := s.First(), s.Last();
    forall b | b in home
      ensures b in size && (b + size[b].n <= s.base || s.base + s.size <= b)
    {
      Neighbours(segs, home, size, prev, b);
      BlockInSegment(home, size, prev, b);
      assert Disjoint(s, home[b]);
    }
    assert f !in home && l !in home;
    NewSegmentBlocks(segs, segs', home, size, prev, s, t);
    forall x | x in segs'
      ensures SegmentOk(home[f := s][l := s], x)
    {
      NewSegmentSegment(home, s, x);
    }
    NewSegmentApart(home, size, s, t);
  }

  lemma NewSegmentBlocks(segs: seq<Segment>, segs': seq<Segment>, home: Home, size: map<Addr, Tag>, prev: map<Addr,
                         Tag>, s: Segment, t: Tag)
    requires BlocksOk(segs, home, size, prev) && s.First() !in home && s.Last() !in home
    requires forall x :: x in segs' <==> x in segs || x == s
    requires Aligned(s.base) && Aligned(s.size) && s.size >= SEGMENT_HEADER + MIN_BLOCK + HEADER
    requires t.kind != Guard && t.n == s.size - SEGMENT_HEADER - HEADER
    ensures BlocksOk(segs', home[s.First() := s][s.Last() := s], size[s.First() := t][s.Last() := GUARD],
                     prev[s.First() := FIRST][s.Last() := t])
  {
    hide BlockOk; hide Aligned;
    var f, l := s.First(), s.Last();
    var home', size', prev' := home[f := s][l := s], size[f := t][l := GUARD], prev[f := FIRST][l := t];
    forall b | b in home'
      ensures BlockOk(home', size', prev', b) && home'[b] in segs'
    {
      if b in home {
        assert BlockOk(home, size, prev, b);
        NewSegmentOther(home, size, prev, s, t, b);
      } else {
        NewSegmentOwn(home, size, prev, s, t, b);
      }
    }
  }

  ghost function DropSegment(home: Home, s: Segment): Home {
    map x | x in home && home[x] != s :: home[x]
  }

  /** A segment and all its blocks go. */
  lemma DropSegmentTiles(segs: seq<Segment>, segs': seq<Segment>, home: Home, size: map<Addr, Tag>, prev: map<Addr, Tag>, s: Segment)
    requires Tiles(segs, home, size, prev)
    requires SegmentsApart(segs') && forall x :: x in segs' <==> x in segs && x != s
    ensures Tiles(segs', DropSegment(home, s), size, prev)
  {
    hide SegmentsApart; hide Aligned; hide BlockOk; hide SegmentOk;
    var home' := DropSegment(home, s);
    forall b | b in home'
      ensures home'[b] in segs' && BlockOk(home', size, prev, b)
    {
      assert BlockOk(home, size, prev, b);
      DropOther(home, size, prev, s, b);
    }
    forall x | x in segs'
      ensures SegmentOk(home', x)
    {
      DropSegmentSegment(home, s, x);
    }
  }

  lemma DropSegmentSegment(home: Home, s: Segment, x: Segment)
    requires SegmentOk(home, x) && x != s
    ensures SegmentOk(DropSegment(home, s), x)
  {
  }

  lemma DropOther(home: Home, size: map<Addr, Tag>, prev: map<Addr, Tag>, s: Segment, b: Addr)
    requires b in home && BlockOk(home, size, prev, b) && home[b] != s
    ensures BlockOk(DropSegment(home, s), size, prev, b)
  {
    hide Aligned;
  }

  /** A segment is one block and its guard when its first block ends at the guard. */
  lemma WholeSegment(segs: seq<Segment>, home: Home, size: map<Addr, Tag>, prev: map<Addr, Tag>, lo: Addr, hi: Addr, x: Addr)
    requires Tiles(segs, home, size, prev) && lo in home && hi in home && home[lo] == home[hi]
    requires lo in prev && prev[lo] == FIRST && hi in size && size[hi].kind == Guard
    requires x in home
    ensures home[x] == home[lo] <==> lo <= x <= hi
    ensures lo == home[lo].First() && hi == home[lo].Last()
  {
    hide SegmentOk; hide Apart; hide Aligned;
    assert BlockOk(home, size, prev, lo) && BlockOk(home, size, prev, hi) && BlockOk(home, size, prev, x);
    if home[x] != home[lo] {
      SegmentsDisjoint(segs, home[x], home[lo]);
    }
    hide SegmentsApart; hide BlocksOk;
  }

  lemma NewSegmentApart(home: Home, size: map<Addr, Tag>, s: Segment, t: Tag)
    requires Apart(home, size) && t.n == s.size - SEGMENT_HEADER - HEADER
    requires s.size >= SEGMENT_HEADER + MIN_BLOCK + HEADER
    requires forall b :: b in home ==> b in size && (b + size[b].n <= s.base || s.base + s.size <= b)
    ensures Apart(home[s.First() := s][s.Last() := s], size[s.First() := t][s.Last() := GUARD])
  {
  }

  lemma NewSegmentSegment(home: Home, s: Segment, x: Segment)
    requires s.First() !in home && s.Last() !in home
    requires Aligned(s.base) && Aligned(s.size) && s.size >= SEGMENT_HEADER + MIN_BLOCK + HEADER
    requires x == s || SegmentOk(home, x)
    ensures SegmentOk(home[s.First() := s][s.Last() := s], x)
  {
  }

  lemma BlockInSegment(home: Home, size: map<Addr, Tag>, prev: map<Addr, Tag>, b: Addr)
    requires b in home && BlockOk(home, size, prev, b)
    requires NeighboursOk(home, size, prev, b)
    ensures home[b].base < b && b + size[b].n <= home[b].base + home[b].size
  {
  }

  lemma NewSegmentOther(home: Home, size: map<Addr, Tag>, prev: map<Addr, Tag>, s: Segment, t: Tag, b: Addr)
    requires b in home && BlockOk(home, size, prev, b) && s.First() !in home && s.Last() !in home
    requires b != s.First() && b != s.Last()
    ensures BlockOk(home[s.First() := s][s.Last() := s], size[s.First() := t][s.Last() := GUARD],
                    prev[s.First() := FIRST][s.Last() := t], b)
  {
  }

  lemma NewSegmentOwn(home: Home, size: map<Addr, Tag>, prev: map<Addr, Tag>, s: Segment, t: Tag, b: Addr)
    requires Aligned(s.base) && Aligned(s.size) && s.size >= SEGMENT_HEADER + MIN_BLOCK + HEADER
    requires t.kind != Guard && t.n == s.size - SEGMENT_HEADER - HEADER
    requires b == s.First() || b == s.Last()
    ensures BlockOk(home[s.First() := s][s.Last() := s], size[s.First() := t][s.Last() := GUARD],
                    prev[s.First() := FIRST][s.Last() := t], b)
  {
    hide Aligned; hide ValidBlockSize;
    AlignedSum(s.base, HEADER);
    AlignedSum(s.base, s.size);
    AlignedSum(s.base + s.size, HEADER);
    AlignedSum(s.size, SEGMENT_HEADER + HEADER);
  }

  // ---- coalescing ----

  lemma MergeCoalesced(home: Home, size: map<Addr, Tag>, prev: map<Addr, Tag>, lo: Addr, hi: Addr, t: Tag)
    requires Coalesced(home, size, prev) && lo in home && hi in home && lo < hi && lo in prev && hi in size
    requires t.kind == Free ==> prev[lo].kind != Free && size[hi].kind != Free
    ensures Coalesced(Without(home, lo, hi), size[lo := t], prev[hi := t])
  {
  }

  lemma DropCoalesced(home: Home, size: map<Addr, Tag>, prev: map<Addr, Tag>, s: Segment)
    requires Coalesced(home, size, prev)
    ensures Coalesced(DropSegment(home, s), size, prev)
  {
  }

  lemma AddCoalesced(home: Home, size: map<Addr, Tag>, prev: map<Addr, Tag>, s: Segment, t: Tag)
    requires Coalesced(home, size, prev) && s.First() < s.Last()
    ensures Coalesced(home[s.First() := s][s.Last() := s], size[s.First() := t][s.Last() := GUARD],
                      prev[s.First() := FIRST][s.Last() := t])
  {
  }

  lemma SplitCoalesced(home: Home, size: map<Addr, Tag>, prev: map<Addr, Tag>, lo: Addr, mid: Addr, hi: Addr, s: Segment, t: Tag, u: Tag)
    requires Coalesced(home, size, prev) && lo in prev && hi in size && lo < mid < hi
    requires t.kind == Used && (u.kind == Free ==> size[hi].kind != Free)
    ensures Coalesced(home[mid := s], size[lo := t][mid := u], prev[mid := t][hi := u])
  {
  }

  // ---- what the tags say about a whole segment ----

  /** Sizes lead from block to block, up to the guard. */
  ghost predicate Onward(home: Home, size: map<Addr, Tag>, b: Addr)
    requires b in home
  {
    && b in size && home[b].First() <= b <= home[b].Last()
    && (size[b].kind == Guard <==> b == home[b].Last())
    && (size[b].kind == Guard ==> size[b].n == HEADER)
    && (size[b].kind != Guard ==> size[b].n > 0 && b + size[b].n in home && home[b + size[b].n] == home[b])
  }

  ghost predicate AllOnward(home: Home, size: map<Addr, Tag>) {
    forall b {:trigger Onward(home, size, b)} :: b in home ==> Onward(home, size, b)
  }

  lemma TilesOnward(segs: seq<Segment>, home: Home, size: map<Addr, Tag>, prev: map<Addr, Tag>)
    requires BlocksOk(segs, home, size, prev)
    ensures AllOnward(home, size)
  {
    hide Aligned;
    forall b | b in home
      ensures Onward(home, size, b)
    {
      assert BlockOk(home, size, prev, b);
    }
  }

  /** The blocks from `b` to the guard, following the sizes. */
  ghost function Walk(home: Home, size: map<Addr, Tag>, b: Addr): seq<Addr>
    requires AllOnward(home, size) && b in home
    decreases home[b].Last() - b
  {
    assert Onward(home, size, b);
    if size[b].kind == Guard then [b] else [b] + Walk(home, size, b + size[b].n)
  }

  ghost function SizesOf(w: seq<Addr>, size: map<Addr, Tag>): nat {
    if w == [] then 0 else (if w[0] in size then size[w[0]].n else 0) + SizesOf(w[1..], size)
  }

  /** The walk from `b` ends at the guard, its blocks fill the way there, and it meets
      every later block of the segment. */
  ghost predicate WalkOk(w: seq<Addr>, home: Home, size: map<Addr, Tag>, b: Addr)
    requires b in home
  {
    && |w| > 0 && w[|w| - 1] == home[b].Last()
    && SizesOf(w, size) == home[b].base + home[b].size - b
    && forall x :: x in w <==> x in home && home[x] == home[b] && b <= x
  }

  lemma {:induction false} WalkFills(home: Home, size: map<Addr, Tag>, b: Addr)
    requires AllOnward(home, size) && Apart(home, size) && b in home
    ensures WalkOk(Walk(home, size, b), home, size, b)
    decreases home[b].Last() - b
  {
    assert Onward(home, size, b);
    if size[b].kind == Guard {
      forall x | x in home && home[x] == home[b]
        ensures x <= b
      {
        assert Onward(home, size, x);
      }
      GuardWalk(home, size, b);
    } else {
      WalkFills(home, size, b + size[b].n);
      StepWalk(home, size, b, Walk(home, size, b + size[b].n));
    }
  }

  lemma GuardWalk(home: Home, size: map<Addr, Tag>, b: Addr)
    requires b in home && b in size && size[b].n == HEADER && b == home[b].Last()
    requires forall x :: x in home && home[x] == home[b] ==> x <= b
    ensures WalkOk([b], home, size, b)
  {
    assert [b][1..] == [];
  }

  lemma StepWalk(home: Home, size: map<Addr, Tag>, b: Addr, w: seq<Addr>)
    requires b in home && b in size && size[b].n > 0 && b + size[b].n in home && home[b + size[b].n] == home[b]
    requires Apart(home, size) && WalkOk(w, home, size, b + size[b].n)
    ensures WalkOk([b] + w, home, size, b)
  {
    assert ([b] + w)[1..] == w;
    forall x
      ensures x in [b] + w <==> x in home && home[x] == home[b] && b <= x
    {
      assert x in home && b < x ==> b + size[b].n <= x;
    }
  }

  /** Each segment is exactly filled: its header, its blocks in address order, its guard. */
  lemma SegmentTiled(segs: seq<Segment>, home: Home, size: map<Addr, Tag>, prev: map<Addr, Tag>, s: Segment)
    requires Tiles(segs, home, size, prev) && s in segs
    ensures AllOnward(home, size) && s.First() in home
    ensures var w := Walk(home, size, s.First());
      && (forall x :: x in w <==> x in home && home[x] == s)
      && |w| > 0 && w[|w| - 1] == s.Last() && SEGMENT_HEADER + SizesOf(w, size) == s.size
  {
    hide BlocksOk; hide Apart; hide SegmentOk; hide SegmentsApart;
    FirstAndLast(home, s);
    TilesOnward(segs, home, size, prev);
    WalkFills(home, size, s.First());
    forall x | x in home && home[x] == s
      ensures s.First() <= x
    {
      assert Onward(home, size, x);
    }
  }
}
