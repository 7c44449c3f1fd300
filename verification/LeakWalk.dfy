/** The leak report of debug builds: zend_alloc.c:1230-1329. */
module LeakWalk {
  import opened Tags
  import opened Tiling

  datatype Magic = ValidMagic | FreedMagic | CachedMagic | GuardMagic | LeakMagic

  /** Where a block was allocated: `debug.filename` and `debug.lineno`. */
  datatype Site = Site(filename: string, lineno: nat)

  type Magics = map<Addr, Magic>

  /** Used blocks are live, cached or reported already; guards are marked as such. */
  ghost predicate MagicsOk(home: Home, size: map<Addr, Tag>, magic: Magics, site: map<Addr, Site>) {
    forall b :: b in home && b in size ==>
      && b in magic
      && (size[b].kind == Used ==> magic[b] in {ValidMagic, CachedMagic, LeakMagic} && b in site)
      && (size[b].kind == Guard ==> magic[b] == GuardMagic)
  }

  /** A used block that is still marked live. */
  predicate Leaked(home: Home, size: map<Addr, Tag>, magic: Magics, b: Addr) {
    b in home && b in size && size[b].kind == Used && b in magic && magic[b] == ValidMagic
  }

  function LeakedBlocks(home: Home, size: map<Addr, Tag>, magic: Magics): set<Addr> {
    set b | b in home && Leaked(home, size, magic, b)
  }

  function Relabelled(magic: Magics, m: set<Addr>): Magics {
    map b | b in magic :: if b in m then LeakMagic else magic[b]
  }

  lemma RelabelledMore(magic: Magics, m: set<Addr>, m': set<Addr>)
    ensures Relabelled(Relabelled(magic, m), m') == Relabelled(magic, m + m')
    ensures Relabelled(magic, {}) == magic
  {
  }

  lemma RelabelledOne(magic: Magics, m: set<Addr>, b: Addr)
    requires b in magic
    ensures Relabelled(magic, m)[b := LeakMagic] == Relabelled(magic, m + {b})
  {
  }

  /** The blocks but those of `before` that leaked at the same place as `b`. */
  function SameSite(home: Home, size: map<Addr, Tag>, site: map<Addr, Site>, m: Magics, b: Addr, before: set<Addr>): set<Addr> {
    set x | x in home && x !in before && Leaked(home, size, m, x) && b in site && x in site && site[x] == site[b]
  }

  lemma SameSiteFacts(home: Home, size: map<Addr, Tag>, site: map<Addr, Site>, m: Magics, b: Addr, before: set<Addr>)
    ensures var r := SameSite(home, size, site, m, b, before);
      && r * before == {} && r * home.Keys == r
      && forall p :: p in size && size[p].kind == Guard ==> p !in r
  {
  }

  /** All used blocks that are marked live, and no others, were marked as leaks. */
  ghost predicate AllReported(home: Home, size: map<Addr, Tag>, m: Magics, m': Magics) {
    && m'.Keys == m.Keys
    && forall b :: b in m ==>
         m'[b] == if b in home && b in size && size[b].kind == Used && m[b] == ValidMagic then LeakMagic else m[b]
  }

  lemma LeakedIs(home: Home, size: map<Addr, Tag>, m: Magics)
    ensures LeakedBlocks(home, size, m) * home.Keys == LeakedBlocks(home, size, m)
    ensures AllReported(home, size, m, Relabelled(m, LeakedBlocks(home, size, m)))
  {
  }

  // ---- the walk ----

  function SegmentIndex(segs: seq<Segment>, s: Segment): (i: nat)
    ensures s in segs ==> i < |segs| && segs[i] == s
  {
    if segs == [] || segs[0] == s then 0 else 1 + SegmentIndex(segs[1..], s)
  }

  lemma {:induction false} SegmentIndexIs(segs: seq<Segment>, i: nat)
    requires i < |segs| && forall j, k :: 0 <= j < k < |segs| ==> segs[j] != segs[k]
    ensures SegmentIndex(segs, segs[i]) == i
  {
    if i > 0 {
      SegmentIndexIs(segs[1..], i - 1);
      assert segs[1..][i - 1] == segs[i];
    }
  }

  /** The blocks that a walk standing at block `p` of segment `k` has passed. */
  ghost function Passed(segs: seq<Segment>, home: Home, k: nat, p: Addr): set<Addr> {
    set x | x in home && (SegmentIndex(segs, home[x]) < k || (SegmentIndex(segs, home[x]) == k && x < p))
  }

  /** A walk stands at block `p` of segment `k`. */
  ghost predicate At(segs: seq<Segment>, home: Home, k: nat, p: Addr) {
    k < |segs| && p in home && home[p] == segs[k]
  }

  lemma SegmentsDistinct(segs: seq<Segment>, home: Home, size: map<Addr, Tag>, prev: map<Addr, Tag>)
    requires Tiles(segs, home, size, prev)
    ensures forall j, k :: 0 <= j < k < |segs| ==> segs[j] != segs[k]
  {
    hide BlocksOk; hide Apart;
    forall j, k | 0 <= j < k < |segs|
      ensures segs[j] != segs[k]
    {
      assert SegmentOk(home, segs[j]);
      assert Disjoint(segs[j], segs[k]);
    }
  }

  /** What stands at `p`, and where the next block is. */
  lemma StepFacts(segs: seq<Segment>, home: Home, size: map<Addr, Tag>, prev: map<Addr, Tag>, k: nat, p: Addr)
    requires Tiles(segs, home, size, prev) && At(segs, home, k, p)
    ensures p in size && (size[p].kind == Guard <==> p == segs[k].Last()) && segs[k].First() <= p <= segs[k].Last()
    ensures p !in Passed(segs, home, k, p)
    ensures size[p].kind != Guard ==> var q := p + size[p].n;
      && p < q <= segs[k].base + segs[k].size && At(segs, home, k, q) && q in prev && prev[q] == size[p]
      && Passed(segs, home, k, q) == Passed(segs, home, k, p) + {p}
  {
    hide Aligned; hide SegmentOk;
    hide SegmentIndex; hide SegmentsApart; hide BlocksOk;
    Neighbours(segs, home, size, prev, p);
    SegmentsDistinct(segs, home, size, prev);
    SegmentIndexIs(segs, k);
    if size[p].kind != Guard {
      var q := p + size[p].n;
      forall x
        ensures x in Passed(segs, home, k, q) <==> x in Passed(segs, home, k, p) || x == p
      {
        assert x in home && p < x ==> q <= x;
      }
    }
  }

  /** Where a block is. */
  lemma InsideAt(segs: seq<Segment>, home: Home, size: map<Addr, Tag>, prev: map<Addr, Tag>, x: Addr)
    requires Tiles(segs, home, size, prev) && x in home
    ensures var i := SegmentIndex(segs, home[x]); i < |segs| && segs[i] == home[x] && home[x].First() <= x <= home[x].Last()
  {
    hide Aligned; hide Apart; hide SegmentsApart; hide SegmentOk;
    assert BlockOk(home, size, prev, x);
  }

  /** At its guard a walk has passed the segment and those before. */
  lemma PassedAtGuard(segs: seq<Segment>, home: Home, size: map<Addr, Tag>, prev: map<Addr, Tag>, k: nat, p: Addr, x: Addr)
    requires Tiles(segs, home, size, prev) && At(segs, home, k, p) && p == segs[k].Last()
    ensures x in Passed(segs, home, k, p) + {p} <==> x in home && SegmentIndex(segs, home[x]) <= k
  {
    hide SegmentIndex; hide Tiles;
    SegmentsDistinct(segs, home, size, prev);
    SegmentIndexIs(segs, k);
    if x in home {
      InsideAt(segs, home, size, prev, x);
    }
  }

  /** The next segment begins with a block that is not its guard. */
  lemma NextFirst(segs: seq<Segment>, home: Home, size: map<Addr, Tag>, prev: map<Addr, Tag>, k: nat)
    requires Tiles(segs, home, size, prev) && k < |segs|
    ensures At(segs, home, k, segs[k].First()) && segs[k].First() != segs[k].Last()
  {
    hide SegmentsApart; hide BlocksOk; hide Apart; hide Aligned;
    assert SegmentOk(home, segs[k]);
  }

  /** Standing there, it has passed the segments before. */
  lemma PassedAtFirst(segs: seq<Segment>, home: Home, size: map<Addr, Tag>, prev: map<Addr, Tag>, k: nat, x: Addr)
    requires Tiles(segs, home, size, prev) && k < |segs|
    ensures x in Passed(segs, home, k, segs[k].First()) <==> x in home && SegmentIndex(segs, home[x]) < k
  {
    hide SegmentIndex; hide Tiles;
    SegmentsDistinct(segs, home, size, prev);
    SegmentIndexIs(segs, k);
    if x in home {
      InsideAt(segs, home, size, prev, x);
    }
  }

  /** From the guard to the next segment, or to the end. */
  lemma NextSegment(segs: seq<Segment>, home: Home, size: map<Addr, Tag>, prev: map<Addr, Tag>, k: nat, p: Addr)
    requires Tiles(segs, home, size, prev) && At(segs, home, k, p) && p == segs[k].Last()
    ensures k + 1 < |segs| ==> At(segs, home, k + 1, segs[k + 1].First()) && segs[k + 1].First() != segs[k + 1].Last()
    ensures k + 1 < |segs| ==> Passed(segs, home, k + 1, segs[k + 1].First()) == Passed(segs, home, k, p) + {p}
    ensures k + 1 == |segs| ==> Passed(segs, home, k, p) + {p} == home.Keys
  {
    hide Tiles; hide SegmentIndex; hide Passed;
    var all := Passed(segs, home, k, p) + {p};
    if k + 1 < |segs| {
      NextFirst(segs, home, size, prev, k + 1);
      forall x
        ensures x in all <==> x in Passed(segs, home, k + 1, segs[k + 1].First())
      {
        PassedAtGuard(segs, home, size, prev, k, p, x);
        PassedAtFirst(segs, home, size, prev, k + 1, x);
      }
    } else {
      forall x
        ensures x in all <==> x in home.Keys
      {
        PassedAtGuard(segs, home, size, prev, k, p, x);
        IndexInside(segs, home, size, prev, x);
      }
    }
  }

  lemma IndexInside(segs: seq<Segment>, home: Home, size: map<Addr, Tag>, prev: map<Addr, Tag>, x: Addr)
    requires Tiles(segs, home, size, prev)
    ensures x in home ==> SegmentIndex(segs, home[x]) < |segs|
  {
    hide Tiles;
    if x in home {
      InsideAt(segs, home, size, prev, x);
    }
  }

  lemma AllInside(segs: seq<Segment>, home: Home, size: map<Addr, Tag>, prev: map<Addr, Tag>)
    requires Tiles(segs, home, size, prev)
    ensures forall x :: x in home ==> home[x] in segs && home[x].First() <= x <= home[x].Last()
  {
    hide Aligned; hide Apart; hide SegmentsApart; hide SegmentOk;
    forall x | x in home
      ensures home[x] in segs && home[x].First() <= x <= home[x].Last()
    {
      assert BlockOk(home, size, prev, x);
    }
  }

  class DebugHeap {
    var segments: seq<Segment>
    var size: map<Addr, Tag>
    var prev: map<Addr, Tag>
    var magic: Magics
    var site: map<Addr, Site>
    ghost var home: Home

    ghost predicate Valid()
      reads this
    {
      Tiles(segments, home, size, prev) && MagicsOk(home, size, magic, site)
    }

    constructor ()
      ensures Valid() && segments == []
    {
      segments, size, prev, magic, site, home := [], map[], map[], map[], map[], map[];
    }

    /** One visit of the inner walk. */
    method Visit(p: Addr, b: Addr, ghost m0: Magics, ghost found: set<Addr>, ghost start: set<Addr>) returns (hit: bool)
      requires Valid() && p in home && p in size && size[p].kind != Guard && b in site && p !in start
      requires magic == Relabelled(m0, found) && p !in found
      modifies this`magic
      ensures Valid() && (hit <==> p in SameSite(home, size, site, m0, b, start))
      ensures magic == Relabelled(m0, if hit then found + {p} else found)
    {
      hide Tiles;
      hit := false;
      if size[p].kind != Free {
        if magic[p] == ValidMagic {
          if site[p] == site[b] {
            RelabelledOne(m0, found, p);
            magic := magic[p := LeakMagic];
            hit := true;
          }
        } else if magic[p] == CachedMagic {
        } else if magic[p] != LeakMagic {
          assert false; // zend_mm_panic
        }
      }
    }

    /** zend_mm_find_leaks: relabels the later leaks of the same place, and counts them. */
    method FindLeaks(k0: nat, b: Addr) returns (leaks: nat, ghost found: set<Addr>)
      requires Valid() && At(segments, home, k0, b) && b in size && size[b].kind != Guard && b in site
      modifies this`magic
      ensures Valid() && found == SameSite(home, size, site, old(magic), b, Passed(segments, home, k0, b) + {b})
      ensures leaks == |found| && magic == Relabelled(old(magic), found)
    {
      hide Tiles; hide MagicsOk; hide Passed; hide Relabelled; hide SameSite; hide Leaked;
      leaks, found := 0, {};
      RelabelledMore(magic, {}, {});
      StepFacts(segments, home, size, prev, k0, b);
      var k, p := k0, b + size[b].n;
      ghost var start := Passed(segments, home, k0, b) + {b};
      ghost var m0 := magic;
      ghost var all := SameSite(home, size, site, m0, b, start);
      SameSiteFacts(home, size, site, m0, b, start);
      while true
        invariant Valid() && At(segments, home, k, p) && start <= Passed(segments, home, k, p)
        invariant magic == Relabelled(m0, found) && leaks == |found|
        invariant found == all * Passed(segments, home, k, p)
        decreases |segments| - k, segments[k].Last() - p
      {
        StepFacts(segments, home, size, prev, k, p);
        MeetOne(all, Passed(segments, home, k, p), p);
        if size[p].kind == Guard {
          GuardMarked(home, size, magic, site, p);
          if magic[p] != GuardMagic {
            assert false; // zend_mm_panic
          }
          NextSegment(segments, home, size, prev, k, p);
          k := k + 1;
          if k == |segments| {
            return;
          }
          p := segments[k].First();
        } else {
          var q := p + size[p].n;
          if q <= p || q > segments[k].base + segments[k].size || size[p] != prev[q] {
            assert false; // zend_mm_panic
          }
          var hit := Visit(p, b, m0, found, start);
          if hit {
            leaks := leaks + 1;
            found := found + {p};
          }
          p := q;
        }
      }
    }

    /** zend_mm_check_leaks: the reported total is the number of blocks that were marked
        live, and each of them is relabelled. */
    method CheckLeaks() returns (total: nat)
      requires Valid()
      modifies this`magic
      ensures Valid() && total == |LeakedBlocks(home, size, old(magic))|
      ensures magic == Relabelled(old(magic), LeakedBlocks(home, size, old(magic))) && AllReported(home, size, old(magic), magic)
    {
      hide Tiles; hide MagicsOk; hide Passed; hide Relabelled; hide OneSite; hide AllReported;
      total := 0;
      ghost var found: set<Addr> := {};
      RelabelledMore(magic, {}, {});
      ghost var m0 := magic;
      ghost var all := LeakedBlocks(home, size, m0);
      if segments == [] {
        NoBlocks(segments, home, size, prev);
        LeakedIs(home, size, m0);
        assert all == {};
        return;
      }
      var k := 0;
      var p := segments[0].First();
      WalkStart(segments, home, size, prev);
      while true
        invariant Valid() && At(segments, home, k, p) && p in size && size[p].kind != Guard
        invariant magic == Relabelled(m0, found) && total == |found| && found <= all
        invariant all * Passed(segments, home, k, p) <= found
        decreases |segments| - k, segments[k].Last() - p
      {
        StepFacts(segments, home, size, prev, k, p);
        var q := p + size[p].n;
        if q <= p || q > segments[k].base + segments[k].size || size[p] != prev[q] {
          assert false; // zend_mm_panic
        }
        ghost var passed := Passed(segments, home, k, p);
        var repeated;
        repeated, found := Report(k, p, m0, found);
        total := total + repeated;
        MeetOne(all, passed, p);
        StepFacts(segments, home, size, prev, k, q);
        if size[q].kind == Guard {
          MeetOne(all, passed + {p}, q);
          NextSegment(segments, home, size, prev, k, q);
          k := k + 1;
          if k == |segments| {
            LeakedIs(home, size, m0);
            assert found == all;
            return;
          }
          q := segments[k].First();
          StepFacts(segments, home, size, prev, k, q);
        }
        p := q;
      }
    }

    /** What is found at `p` of the leaks `all`: nothing when it is none or was found before, and
        otherwise all that are at the same place. */
    ghost predicate OneSite(p: Addr, all: set<Addr>, found: set<Addr>, found': set<Addr>)
      reads this`site
    {
      forall x :: x in found' - found <==>
        p in all && p !in found && x in all && x !in found && p in site && x in site && site[x] == site[p]
    }

    /** One visit of the outer walk: a block still marked live is reported, and with it all that
        leaked at the same place; so there is one report for each place. */
    method Report(k: nat, p: Addr, ghost m0: Magics, ghost found: set<Addr>) returns (n: nat, ghost found': set<Addr>)
      requires Valid() && At(segments, home, k, p) && p in size && size[p].kind != Guard
      requires magic == Relabelled(m0, found) && found <= LeakedBlocks(home, size, m0)
      requires LeakedBlocks(home, size, m0) * Passed(segments, home, k, p) <= found
      modifies this`magic
      ensures Valid() && found <= found' <= LeakedBlocks(home, size, m0) && magic == Relabelled(m0, found') && n == |found'| - |found|
      ensures p in LeakedBlocks(home, size, m0) ==> p in found'
      ensures OneSite(p, LeakedBlocks(home, size, m0), found, found')
    {
      hide Tiles; hide Passed;
      n, found' := 0, found;
      if size[p].kind != Free {
        if magic[p] == ValidMagic {
          RelabelledOne(m0, found, p);
          magic := magic[p := LeakMagic];
          found' := found + {p};
          ghost var m1 := magic;
          var repeated, more := FindLeaks(k, p);
          RelabelledMore(m0, found', more);
          NewLeaks(home, size, m0, found', more);
          found' := found' + more;
          n := 1 + repeated;
        } else if magic[p] == CachedMagic {
        } else if magic[p] != LeakMagic {
          assert false; // zend_mm_panic
        }
      }
    }
  }

  lemma MeetOne(all: set<Addr>, passed: set<Addr>, p: Addr)
    ensures all * (passed + {p}) == if p in all then all * passed + {p} else all * passed
  {
  }

  lemma GuardMarked(home: Home, size: map<Addr, Tag>, magic: Magics, site: map<Addr, Site>, p: Addr)
    requires MagicsOk(home, size, magic, site) && p in home && p in size && size[p].kind == Guard
    ensures p in magic && magic[p] == GuardMagic
  {
  }

  lemma NoBlocks(segs: seq<Segment>, home: Home, size: map<Addr, Tag>, prev: map<Addr, Tag>)
    requires Tiles(segs, home, size, prev) && segs == []
    ensures home == map[]
  {
    AllInside(segs, home, size, prev);
    assert forall x :: x !in home;
  }

  lemma WalkStart(segs: seq<Segment>, home: Home, size: map<Addr, Tag>, prev: map<Addr, Tag>)
    requires Tiles(segs, home, size, prev) && segs != []
    ensures At(segs, home, 0, segs[0].First()) && segs[0].First() in size && size[segs[0].First()].kind != Guard
    ensures Passed(segs, home, 0, segs[0].First()) == {}
  {
    hide BlocksOk; hide Apart; hide SegmentsApart;
    assert SegmentOk(home, segs[0]);
    StepFacts(segs, home, size, prev, 0, segs[0].First());
    AllInside(segs, home, size, prev);
    assert forall x :: x in home && SegmentIndex(segs, home[x]) == 0 ==> home[x] == segs[0];
  }

  /** What the inner walk finds was not found before. */
  lemma NewLeaks(home: Home, size: map<Addr, Tag>, m0: Magics, found: set<Addr>, more: set<Addr>)
    requires found <= LeakedBlocks(home, size, m0)
    requires forall x :: x in more ==> Leaked(home, size, Relabelled(m0, found), x)
    ensures found + more <= LeakedBlocks(home, size, m0) && |found + more| == |found| + |more|
  {
    forall x | x in more
      ensures x !in found && x in LeakedBlocks(home, size, m0)
    {
      assert Leaked(home, size, Relabelled(m0, found), x);
    }
    assert found * more == {};
  }
}
