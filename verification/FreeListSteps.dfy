/** What each operation on the free lists does to their words and to what they mean. */
module FreeListSteps {
  import opened Bits
  import opened Sequences
  import opened Sizes
  import opened Tags
  import opened Rings
  import opened LargeTrie
  import opened FreeListSpec

  // ---- adding ----

  function PutAt(v: View, k: Key, j: nat, e: Ptr): View
    requires k in v.rings && j < |v.rings[k]|
  {
    v.(rings := v.rings[k := Insert(v.rings[k], j, e)], owner := v.owner[e := k])
  }

  lemma PutAtKeeps(v: View, k: Key, j: nat, e: Ptr)
    requires k in v.rings && j < |v.rings[k]| && !k.CacheChain?
    ensures var v' := PutAt(v, k, j, e);
      SameCache(v, v') && v'.heads == v.heads && k in v'.rings && v'.rings[k] == Insert(v.rings[k], j, e)
  {
  }

  function PutLeaf(v: View, n: nat, pos: Pos, b: Addr): View {
    v.(rings := v.rings[LargeRing(n) := [Block(b)]], owner := v.owner[Block(b) := LargeRing(n)],
       at := v.at[pos := b], posOf := v.posOf[b := pos])
  }

  lemma AddSmallStep(next: Words, prev: Words, parent: map<Addr, Parent>, cell: map<Slot, Ptr>,
                     freeBitmap: nat, largeBitmap: nat, v: View, size: map<Addr, Tag>, i: nat, b: Addr, wasEmpty: bool)
    requires ViewOk(next, prev, parent, cell, freeBitmap, largeBitmap, v, size)
    requires i < NUM_BUCKETS && Block(b) !in v.owner && b in size && size[b].n == ClassSize(i)
    ensures SmallRing(i) in v.rings && |v.rings[SmallRing(i)]| > 0
    ensures var h, e := SmallHead(i), Block(b);
      && h in next && h in prev && (prev[h] == h <==> |v.rings[SmallRing(i)]| == 1)
      && MayWrite(v.owner, b, {b} + AddrOf(next[h])) && AddrOf(h) == {}
      && ViewOk(next[e := next[h]][h := e], prev[e := h][next[h] := e], parent, cell,
                if wasEmpty then SetBit(freeBitmap, i) else freeBitmap, largeBitmap, PutAt(v, SmallRing(i), 0, e), size)
  {
    hide Kinds; hide Shape; hide Marks; hide Cells; hide BitsOk; hide ListsOk; hide Insert; hide SetBit;
    var k := SmallRing(i);
    ListFacts(v.rings, size, k);
    RingAlone(next, prev, v, k);
    var c := Insert(v.rings[k], 0, Block(b));
    ListInsert(next, prev, v.heads, v.rings, v.owner, k, 0, Block(b));
    KindInsert(k, v.rings[k], size, 0, Block(b));
    KindsUpdate(v.rings, size, k, c);
    SameHeadShape(v.at, v.posOf, v.rings, size, k, c);
    OtherMarks(v.rings, parent, size, k, c);
    BitsAddSmall(freeBitmap, largeBitmap, v.rings, v.at, i, c, wasEmpty);
  }

  /** The head of a ring follows itself exactly in a ring without blocks. */
  lemma RingAlone(next: Words, prev: Words, v: View, k: Key)
    requires ListsOk(next, prev, v.heads, v.rings, v.owner) && k in v.rings && !k.CacheChain?
    ensures |v.rings[k]| > 0 && v.rings[k][0] in prev && (prev[v.rings[k][0]] == v.rings[k][0] <==> |v.rings[k]| == 1)
  {
    assert Linked(next, prev, v.rings[k]) && Distinct(v.rings[k]);
    hide ListsOk;
  }

  lemma OtherMarks(rings: Lists, parent: map<Addr, Parent>, size: map<Addr, Tag>, k: Key, c: seq<Ptr>)
    requires Marks(rings, parent, size) && MarkOk(k, c, parent, size)
    ensures Marks(rings[k := c], parent, size)
  {
  }

  lemma AddLeafStep(next: Words, prev: Words, parent: map<Addr, Parent>, cell: map<Slot, Ptr>,
                    freeBitmap: nat, largeBitmap: nat, v: View, size: map<Addr, Tag>, b: Addr, pos: Pos)
    requires ViewOk(next, prev, parent, cell, freeBitmap, largeBitmap, v, size)
    requires Block(b) !in v.owner && b in size && ValidBlockSize(size[b].n) && size[b].n < WORD && !SmallSize(size[b].n)
    requires FreeSpot(v.at, pos) && Prefix(pos.path, size[b].n) && pos.bucket == HighBit(size[b].n)
    requires LargeRing(size[b].n) !in v.rings
    ensures var e, p := Block(b), SlotOf(v.at, pos);
      && MayWrite(v.owner, b, {b} + SlotAddr(p)) && p in cell
      && ViewOk(next[e := e], prev[e := e], parent[b := At(p)], cell[Child(b, 0) := Null][Child(b, 1) := Null][p := e],
                freeBitmap, if pos.path == 1 then SetBit(largeBitmap, pos.bucket) else largeBitmap,
                PutLeaf(v, size[b].n, pos, b), size)
  {
    hide ListsOk; hide Kinds; hide Shape; hide Marks; hide Cells; hide BitsOk; hide Prefix; hide HighBit; hide SetBit;
    var k := LargeRing(size[b].n);
    var e, p := Block(b), SlotOf(v.at, pos);
    NotANode(next, prev, v, size, b);
    ShapeIsClosed(v.at, v.posOf, v.rings, size);
    AddLeafCells(v.at, v.posOf, cell, parent, pos, b);
    AddLeafShape(v.at, v.posOf, v.rings, size, pos, b);
    SlotOwner(next, prev, v, size, pos);
    ListNew(next, prev, v.heads, v.rings, v.owner, k, e);
    OwnedByLists(next, prev, v.heads, v.rings, v.owner);
    assert BlockOfSize([e][0], size, size[b].n);
    KindsUpdate(v.rings, size, k, [e]);
    NodesAreHeads(v.rings, v.owner, v.at, v.posOf, size);
    MarksUpdate(v.rings, v.owner, v.at, v.posOf, parent, parent[b := At(p)], size, k, [e]);
    BitsAddNode(freeBitmap, largeBitmap, v.rings, v.at, pos, b, k, [e]);
  }

  lemma OwnedByLists(next: Words, prev: Words, heads: seq<Ptr>, rings: Lists, owner: Owners)
    requires ListsOk(next, prev, heads, rings, owner)
    ensures Owned(rings, owner)
  {
  }

  lemma BitsAddNode(freeBitmap: nat, largeBitmap: nat, rings: Lists, at: map<Pos, Addr>, pos: Pos, b: Addr, k: Key, c: seq<Ptr>)
    requires BitsOk(freeBitmap, largeBitmap, rings, at) && k.LargeRing?
    ensures BitsOk(freeBitmap, if pos.path == 1 then SetBit(largeBitmap, pos.bucket) else largeBitmap, rings[k := c], at[pos := b])
  {
    forall i: nat
      ensures Bit(SetBit(largeBitmap, pos.bucket), i) <==> i == pos.bucket || Bit(largeBitmap, i)
    {
      SetBitSpec(largeBitmap, pos.bucket, i);
    }
  }

  lemma NotANode(next: Words, prev: Words, v: View, size: map<Addr, Tag>, b: Addr)
    requires ListsOk(next, prev, v.heads, v.rings, v.owner) && Shape(v.at, v.posOf, v.rings, size)
    requires Block(b) in v.owner ==> !v.owner[Block(b)].LargeRing?
    ensures b !in v.posOf
  {
    if b in v.posOf {
      NodeOwner(v.rings, v.owner, v.at, v.posOf, size, b);
    }
  }

  /** The block a slot lies in. */
  function SlotAddr(p: Slot): set<Addr> {
    if p.Child? then {p.addr} else {}
  }

  lemma SlotOwner(next: Words, prev: Words, v: View, size: map<Addr, Tag>, p: Pos)
    requires ListsOk(next, prev, v.heads, v.rings, v.owner) && Shape(v.at, v.posOf, v.rings, size)
    requires p.path > 1 ==> Pos(p.bucket, p.path / 2) in v.at
    ensures forall a :: a in SlotAddr(SlotOf(v.at, p)) ==> Block(a) in v.owner && !v.owner[Block(a)].CacheChain?
  {
    if p.path > 1 {
      var q := Pos(p.bucket, p.path / 2);
      assert ShapeAt(v.at, v.posOf, v.rings, size, q);
      NodeOwner(v.rings, v.owner, v.at, v.posOf, size, v.at[q]);
    }
  }

  lemma NodeRing(rings: Lists, at: map<Pos, Addr>, posOf: map<Addr, Pos>, size: map<Addr, Tag>, pos: Pos)
    requires Shape(at, posOf, rings, size) && pos in at
    ensures at[pos] in size && LargeRing(size[at[pos]].n) in rings
    ensures |rings[LargeRing(size[at[pos]].n)]| > 0 && rings[LargeRing(size[at[pos]].n)][0] == Block(at[pos])
  {
    assert ShapeAt(at, posOf, rings, size, pos);
  }

  lemma AddMateStep(next: Words, prev: Words, parent: map<Addr, Parent>, cell: map<Slot, Ptr>,
                    freeBitmap: nat, largeBitmap: nat, v: View, size: map<Addr, Tag>, b: Addr, pos: Pos)
    requires ViewOk(next, prev, parent, cell, freeBitmap, largeBitmap, v, size)
    requires Block(b) !in v.owner && b in size
    requires pos in v.at && v.at[pos] in size && size[v.at[pos]].n == size[b].n
    ensures LargeRing(size[b].n) in v.rings && |v.rings[LargeRing(size[b].n)]| > 0 && LargeBlock(size, b)
    ensures var e, h := Block(b), Block(v.at[pos]);
      && h in next && h in prev
      && MayWrite(v.owner, b, {b, v.at[pos]} + AddrOf(next[h]))
      && ViewOk(next[e := next[h]][h := e], prev[e := h][next[h] := e], parent[b := NoParent],
                cell[Child(b, 0) := Null][Child(b, 1) := Null],
                freeBitmap, largeBitmap, PutAt(v, LargeRing(size[b].n), 0, e), size)
  {
    hide ListsOk; hide Kinds; hide Shape; hide Marks; hide Insert; hide Cells; hide BitsOk;
    var k := LargeRing(size[b].n);
    NodeRing(v.rings, v.at, v.posOf, size, pos);
    var c := v.rings[k];
    var c' := Insert(c, 0, Block(b));
    ListInsert(next, prev, v.heads, v.rings, v.owner, k, 0, Block(b));
    OwnedByLists(next, prev, v.heads, v.rings, v.owner);
    ListFacts(v.rings, size, k);
    assert BlockOfSize([c[0], Block(b)][1], size, size[b].n);
    KindInsert(k, c, size, 0, Block(b));
    KindsUpdate(v.rings, size, k, c');
    SameHeadShape(v.at, v.posOf, v.rings, size, k, c');
    NodesAreHeads(v.rings, v.owner, v.at, v.posOf, size);
    MateMarks(v.rings, parent, size, k, b);
    MarksUpdate(v.rings, v.owner, v.at, v.posOf, parent, parent[b := NoParent], size, k, c');
    NotANode(next, prev, v, size, b);
    ShapeIsClosed(v.at, v.posOf, v.rings, size);
    StrangerCells(v.at, v.posOf, cell, parent, b);
    OtherBits(freeBitmap, largeBitmap, v.rings, v.at, k, c');
  }

  lemma OtherBits(freeBitmap: nat, largeBitmap: nat, rings: Lists, at: map<Pos, Addr>, k: Key, c: seq<Ptr>)
    requires BitsOk(freeBitmap, largeBitmap, rings, at)
    requires k.SmallRing? ==> |c| >= 2
    ensures BitsOk(freeBitmap, largeBitmap, rings[k := c], at)
  {
  }

  lemma MateMarks(rings: Lists, parent: map<Addr, Parent>, size: map<Addr, Tag>, k: Key, b: Addr)
    requires Marks(rings, parent, size) && k in rings && k.LargeRing? && |rings[k]| > 0
    ensures MarkOk(k, Insert(rings[k], 0, Block(b)), parent[b := NoParent], size)
  {
    var c := rings[k];
    var r := Insert(c, 0, Block(b));
    assert MarkOk(k, c, parent, size);
    assert forall i :: 0 <= i < |r| ==> r[i] == if i == 0 then c[0] else if i == 1 then Block(b) else c[i - 1];
  }

  /** Words of a block that is no node do not matter to the tries. */
  lemma StrangerCells(at: map<Pos, Addr>, posOf: map<Addr, Pos>, cell: map<Slot, Ptr>, parent: map<Addr, Parent>, b: Addr)
    requires Closed(at, posOf) && Cells(at, cell, parent) && b !in posOf
    ensures Cells(at, cell[Child(b, 0) := Null][Child(b, 1) := Null], parent[b := NoParent])
  {
    var cell', parent' := cell[Child(b, 0) := Null][Child(b, 1) := Null], parent[b := NoParent];
    forall i | 0 <= i < NUM_BUCKETS
      ensures BucketAt(at, cell', i)
    {
      assert BucketAt(at, cell, i);
    }
    forall p | p in at
      ensures CellsAt(at, cell', parent', p)
    {
      assert CellsAt(at, cell, parent, p);
    }
    hide CellsAt; hide BucketAt;
  }

  // ---- taking out ----

  function TakeAt(v: View, k: Key, c: seq<Ptr>, b: Addr): View {
    v.(rings := v.rings[k := c], owner := v.owner - {Block(b)})
  }

  lemma TakeAtKeeps(v: View, k: Key, c: seq<Ptr>, b: Addr)
    requires !k.CacheChain?
    ensures SameCache(v, TakeAt(v, k, c, b))
  {
  }

  lemma CountLargeRemove(c: seq<Ptr>, size: map<Addr, Tag>, j: nat)
    requires j < |c|
    ensures CountLarge(c, size) == CountLarge(Remove(c, j), size) + (if IsLargeBlock(c[j], size) then 1 else 0)
  {
    if j == 0 {
      assert Remove(c, 0) == c[1..];
    } else {
      CountLargeRemove(c[1..], size, j - 1);
      assert Remove(c, j)[1..] == Remove(c[1..], j - 1);
    }
  }

  lemma CountLargeAppend(c: seq<Ptr>, size: map<Addr, Tag>, e: Ptr)
    ensures CountLarge(c + [e], size) == CountLarge(c, size) + (if IsLargeBlock(e, size) then 1 else 0)
  {
    if c == [] {
      assert [e] == [e] + [];
    } else {
      CountLargeAppend(c[1..], size, e);
      assert (c + [e])[1..] == c[1..] + [e];
    }
  }

  /** From `p` down to `path`, to the right where there is a right. */
  ghost predicate KeepsRight(at: map<Pos, Addr>, p: Pos, path: nat) {
    forall x: nat :: Prefix(p.path, x) && Prefix(x, path) && x < path && Pos(p.bucket, 2 * x + 1) in at ==> Prefix(2 * x + 1, path)
  }

  ghost predicate RightmostLeaf(at: map<Pos, Addr>, p: Pos, q: Pos) {
    IsLeaf(at, q) && q != p && q.bucket == p.bucket && Prefix(p.path, q.path) && KeepsRight(at, p, q.path)
  }

  lemma RightStarts(at: map<Pos, Addr>, p: Pos)
    ensures KeepsRight(at, p, p.path)
  {
    forall x: nat | Prefix(p.path, x) && x < p.path
      ensures false
    {
      PrefixLe(p.path, x);
    }
  }

  /** One step further down keeps to the right. */
  lemma FurtherRight(at: map<Pos, Addr>, p: Pos, path: nat, side: nat)
    requires KeepsRight(at, p, path) && side < 2 && path >= 1 && (Pos(p.bucket, 2 * path + 1) in at ==> side == 1)
    ensures KeepsRight(at, p, 2 * path + side)
  {
    var path' := 2 * path + side;
    assert path' / 2 == path;
    forall x: nat | Prefix(p.path, x) && Prefix(x, path') && x < path' && Pos(p.bucket, 2 * x + 1) in at
      ensures Prefix(2 * x + 1, path')
    {
      PrefixLe(x, path);
      if x < path {
        PrefixLe(2 * x + 1, path);
      }
    }
  }

  /** Trie node `b` left: its last ring mate takes its place, or, when it was alone and no
      leaf, the leaf that is reached by going right. */
  ghost predicate NodeOut(v: View, v': View, size: map<Addr, Tag>, b: Addr) {
    && b in v.posOf && b in size && v.posOf[b] in v.at && v.at[v.posOf[b]] == b && LargeRing(size[b].n) in v.rings
    && var p, c := v.posOf[b], v.rings[LargeRing(size[b].n)];
    if |c| >= 2 then c[|c| - 1].Block? && v' == MateMoved(v, size, p, c[|c| - 1].addr)
    else if IsLeaf(v.at, p) then v' == NodeGone(v, size, p)
    else exists q :: RightmostLeaf(v.at, p, q) && v' == LeafMoved(v, size, p, q)
  }

  lemma LoneOut(v: View, v': View, size: map<Addr, Tag>, b: Addr, p: Pos)
    requires p in v.at && v.at[p] == b && b in v.posOf && v.posOf[b] == p && NodeAlone(v, size, p)
    requires if IsLeaf(v.at, p) then v' == NodeGone(v, size, p)
             else exists q :: RightmostLeaf(v.at, p, q) && v' == LeafMoved(v, size, p, q)
    ensures NodeOut(v, v', size, b)
  {
    hide RightmostLeaf;
  }

  lemma MateOut(v: View, v': View, size: map<Addr, Tag>, b: Addr, p: Pos)
    requires p in v.at && v.at[p] == b && b in v.posOf && v.posOf[b] == p && b in size && LargeRing(size[b].n) in v.rings
    requires var c := v.rings[LargeRing(size[b].n)]; |c| >= 2 && c[|c| - 1].Block? && v' == MateMoved(v, size, p, c[|c| - 1].addr)
    ensures NodeOut(v, v', size, b)
  {
    hide MateMoved; hide NodeGone; hide LeafMoved;
  }

  /** Block `b` left its list, and nothing else happened to the lists. */
  ghost predicate TakenOut(v: View, v': View, size: map<Addr, Tag>, b: Addr) {
    && Block(b) in v.owner && v.owner[Block(b)] in v.rings && Block(b) in v.rings[v.owner[Block(b)]]
    && var k := v.owner[Block(b)]; var j := IndexOf(v.rings[k], Block(b));
    if k.LargeRing? && j == 0 then NodeOut(v, v', size, b) else v' == TakeAt(v, k, Remove(v.rings[k], j), b)
  }

  /** Block `b`, of `n` bytes, entered the list of its size: right behind the head of its
      ring, or as a new leaf on the path of its size. */
  ghost predicate PutIn(v: View, v': View, b: Addr, n: nat) {
    if SmallSize(n) then
      && BucketIndex(n) >= 0 && SmallRing(BucketIndex(n)) in v.rings && |v.rings[SmallRing(BucketIndex(n))]| > 0
      && v' == PutAt(v, SmallRing(BucketIndex(n)), 0, Block(b))
    else if LargeRing(n) in v.rings then |v.rings[LargeRing(n)]| > 0 && v' == PutAt(v, LargeRing(n), 0, Block(b))
    else exists pos: Pos :: FreeSpot(v.at, pos) && pos.bucket == HighBit(n) && Prefix(pos.path, n) && v' == PutLeaf(v, n, pos, b)
  }

  lemma NodeTakenOut(v: View, v': View, size: map<Addr, Tag>, b: Addr, k: Key, j: nat)
    requires Block(b) in v.owner && k == v.owner[Block(b)] && k in v.rings && j < |v.rings[k]| && v.rings[k][j] == Block(b)
    requires j == IndexOf(v.rings[k], Block(b)) && k.LargeRing? && j == 0 && NodeOut(v, v', size, b)
    ensures TakenOut(v, v', size, b)
  {
    hide NodeOut;
  }

  lemma OtherTakenOut(v: View, v': View, size: map<Addr, Tag>, b: Addr, k: Key, j: nat)
    requires Block(b) in v.owner && k == v.owner[Block(b)] && k in v.rings && j < |v.rings[k]| && v.rings[k][j] == Block(b)
    requires j == IndexOf(v.rings[k], Block(b)) && j >= 1 && v' == TakeAt(v, k, Remove(v.rings[k], j), b)
    ensures TakenOut(v, v', size, b)
  {
  }

  /** The oldest block of the rest ring moved to the list of its size. */
  ghost predicate EvictedOne(v: View, v': View) {
    && RestRing in v.rings && |v.rings[RestRing]| >= 2 && v.rings[RestRing][1].Block?
    && var b := v.rings[RestRing][1].addr; exists n: nat :: PutIn(TakeAt(v, RestRing, Remove(v.rings[RestRing], 1), b), v', b, n)
  }

  ghost predicate Evicted(v: View, v': View, n: nat)
    decreases n
  {
    if n == 0 then v' == v else exists u :: Evicted(v, u, n - 1) && EvictedOne(u, v')
  }

  lemma NoneEvicted(v: View)
    ensures Evicted(v, v, 0)
  {
  }

  lemma OneMoreEvicted(v: View, u: View, v': View, n: nat)
    requires Evicted(v, u, n) && EvictedOne(u, v')
    ensures Evicted(v, v', n + 1)
  {
    hide EvictedOne;
  }

  /** Block `b` entered the rest ring as its newest, after the `n` oldest left it. */
  ghost predicate PutInRest(v: View, v': View, b: Addr, n: nat) {
    exists u :: Evicted(v, u, n) && RestRing in u.rings && |u.rings[RestRing]| > 0 &&
      v' == PutAt(u, RestRing, |u.rings[RestRing]| - 1, Block(b))
  }

  /** What unlinking a block from a ring of at least two finds and leaves. */
  lemma UnlinkStep(next: Words, prev: Words, parent: map<Addr, Parent>, cell: map<Slot, Ptr>,
                   freeBitmap: nat, freeBitmap': nat, largeBitmap: nat, v: View, size: map<Addr, Tag>, k: Key, j: nat, i: nat)
    requires ViewOk(next, prev, parent, cell, freeBitmap, largeBitmap, v, size)
    requires k in v.rings && !k.CacheChain? && 1 <= j < |v.rings[k]|
    requires freeBitmap' == freeBitmap || freeBitmap' == ClearBit(freeBitmap, i)
    requires k.SmallRing? && |v.rings[k]| == 2 ==> freeBitmap' == ClearBit(freeBitmap, k.index)
    ensures v.rings[k][j].Block?
    ensures var e := v.rings[k][j];
      && UnlinkFacts(next, prev, v, k, e)
      && (prev[e] == next[e] <==> |v.rings[k]| == 2)
      && MayWrite(v.owner, e.addr, AddrOf(prev[e]) + AddrOf(next[e]))
      && ViewOk(next[prev[e] := next[e]], prev[next[e] := prev[e]], parent, cell, freeBitmap', largeBitmap,
                TakeAt(v, k, Remove(v.rings[k], j), e.addr), size)
  {
    hide ListsOk; hide Kinds; hide Shape; hide Marks; hide Cells; hide BitsOk; hide Remove; hide KindOk;
    var c := v.rings[k];
    var c' := Remove(c, j);
    ListFacts(v.rings, size, k);
    BlocksBehindHead(k, c, size, j);
    ListUnlink(next, prev, v.heads, v.rings, v.owner, k, j);
    KindRemove(k, c, size, j);
    KindsUpdate(v.rings, size, k, c');
    SameHeadShape(v.at, v.posOf, v.rings, size, k, c');
    MarksRemove(v.rings, parent, size, k, j);
    BitsRemove(freeBitmap, freeBitmap', largeBitmap, v.rings, v.at, k, c', i);
  }

  /** The small bitmap after block `j` of ring `k`, of class `i`, is unlinked. */
  function BitsAfterRemoval(freeBitmap: nat, rings: Lists, k: Key, j: nat, i: nat): nat
    requires k in rings && j < |rings[k]| && SmallRing(i) in rings
  {
    var rings' := rings[k := Remove(rings[k], j)];
    if |rings[k]| == 2 && |rings'[SmallRing(i)]| <= 2 then ClearBit(freeBitmap, i) else freeBitmap
  }

  /** What the two comparisons of zend_mm_remove_from_free_list decide. */
  lemma BitsAfterIs(next: Words, prev: Words, next': Words, prev': Words, freeBitmap: nat, heads: seq<Ptr>,
                    rings: Lists, owner: Owners, k: Key, j: nat, i: nat)
    requires ListsOk(next, prev, heads, rings, owner) && k in rings && !k.CacheChain? && j < |rings[k]| && |rings[k]| >= 2
    requires SmallRing(i) in rings && |rings[SmallRing(i)]| > 0 && rings[SmallRing(i)][0] == SmallHead(i)
    requires rings[k][j] in next && rings[k][j] in prev && (k == SmallRing(i) ==> j > 0)
    requires next' == next[prev[rings[k][j]] := next[rings[k][j]]] && prev' == prev[next[rings[k][j]] := prev[rings[k][j]]]
    ensures SmallHead(i) in next' && SmallHead(i) in prev'
    ensures BitsAfterRemoval(freeBitmap, rings, k, j, i)
      == if prev[rings[k][j]] == next[rings[k][j]] && prev'[SmallHead(i)] == next'[SmallHead(i)] then ClearBit(freeBitmap, i) else freeBitmap
  {
    ListUnlink(next, prev, heads, rings, owner, k, j);
    var rings', owner' := rings[k := Remove(rings[k], j)], owner - {rings[k][j]};
    assert Linked(next', prev', rings'[SmallRing(i)]) && Distinct(rings'[SmallRing(i)]);
    hide ListsOk;
    HeadNeighbours(next', prev', rings'[SmallRing(i)]);
  }

  lemma HeadNeighbours(next: Words, prev: Words, c: seq<Ptr>)
    requires Linked(next, prev, c) && Distinct(c)
    ensures prev[c[0]] == next[c[0]] <==> |c| <= 2
  {
    assert prev[c[0]] == c[|c| - 1];
    if |c| >= 2 {
      assert next[c[0]] == c[1];
    }
  }

  /** The blocks of a small bucket, its head included. */
  function SmallCount(rings: Lists, i: nat): nat {
    if SmallRing(i) in rings then |rings[SmallRing(i)]| else 0
  }

  /** The small bitmap shows bucket `i` exactly when there is a block in it. */
  predicate Shows(freeBitmap: nat, rings: Lists, i: nat) {
    Bit(freeBitmap, i) <==> SmallCount(rings, i) >= 2
  }

  ghost predicate BitsExact(freeBitmap: nat, rings: Lists) {
    forall i: nat :: Shows(freeBitmap, rings, i)
  }

  /** A block of `n` bytes in list `k` is of class `i` and alone in the rest ring, while its
      own bucket holds one block. */
  predicate Hides(rings: Lists, k: Key, n: nat, i: nat) {
    && SmallSize(n) && BucketIndex(n) == i && k == RestRing
    && RestRing in rings && |rings[RestRing]| == 2 && SmallCount(rings, i) == 2
  }

  /** Whether the bitmap shows bucket `i` when a block of `n` bytes has left list `k`. */
  predicate ShowsWithout(freeBitmap: nat, rings: Lists, k: Key, n: nat, i: nat) {
    !Hides(rings, k, n, i) && (Shows(freeBitmap, rings, i) || (k == SmallRing(i) && SmallCount(rings, i) == 2))
  }

  ghost predicate TookBits(freeBitmap: nat, rings: Lists, freeBitmap': nat, rings': Lists, k: Key, n: nat) {
    forall i: nat ::
      && (Shows(freeBitmap', rings', i) <==> ShowsWithout(freeBitmap, rings, k, n, i))
      && SmallCount(rings', i) == SmallCount(rings, i) - (if k == SmallRing(i) then 1 else 0)
  }

  /** Free block `x` left its list when `taken`, and otherwise nothing happened. */
  ghost predicate Absorbed(size: map<Addr, Tag>, taken: bool, x: Addr, n: nat, freeBitmap: nat, v: View, freeBitmap': nat, v': View) {
    if taken then
      && Block(x) in v.owner && v'.owner == v.owner - {Block(x)} && TakenOut(v, v', size, x)
      && TookBits(freeBitmap, v.rings, freeBitmap', v'.rings, v.owner[Block(x)], n) && RestWithout(v, v', Block(x))
    else freeBitmap' == freeBitmap && v' == v
  }

  /** Free block `x`, of `n` bytes, entered the rest ring or the list of its size; `count`
      large blocks were in the rest ring. */
  ghost predicate Entered(rest: bool, count: nat, x: Addr, n: nat, freeBitmap: nat, v: View, freeBitmap': nat, v': View) {
    && KeptBits(freeBitmap, v.rings, freeBitmap', v'.rings)
    && if rest then exists k: nat :: PutInRest(v, v', x, k) && (count < MAX_REST_BLOCKS ==> k == 0) else PutIn(v, v', x, n)
  }

  /** The block in list `k` hides bucket `i` when it goes, and the block in list `k'` that goes
      next is not the one that is hidden. */
  predicate HidesBoth(rings: Lists, owner: Owners, taken: bool, x: Addr, n: nat, taken': bool, x': Addr, i: nat) {
    && taken && Block(x) in owner && Hides(rings, owner[Block(x)], n, i)
    && !(taken' && Block(x') in owner && owner[Block(x')] == SmallRing(i))
  }

  /** A block hides a bucket of smaller blocks than it becomes part of. */
  lemma LargerNotHidden(rings: Lists, owner: Owners, taken: bool, x: Addr, n: nat, taken': bool, x': Addr, whole: nat)
    requires taken ==> n + MIN_BLOCK <= whole
    requires SmallSize(whole) ==> BucketIndex(whole) >= 0
    ensures SmallSize(whole) ==> !HidesBoth(rings, owner, taken, x, n, taken', x', BucketIndex(whole))
    ensures SmallSize(whole) ==> !HidesAfter(rings, owner, taken, x, n, taken', x', BucketIndex(whole))
  {
  }

  /** Two blocks leave their lists, the second not the rest ring, and then one block enters
      a list. */
  lemma FreedBits(size: map<Addr, Tag>, b0: nat, v0: View, b1: nat, v1: View, b2: nat, v2: View, b3: nat, v3: View,
                  taken: bool, x: Addr, n: nat, taken': bool, x': Addr, n': nat, i: nat)
    requires Absorbed(size, taken, x, n, b0, v0, b1, v1) && Absorbed(size, taken', x', n', b1, v1, b2, v2)
    requires taken' ==> Block(x') in v1.owner && v1.owner[Block(x')] != RestRing
    requires KeptBits(b2, v2.rings, b3, v3.rings) && Shows(b0, v0.rings, i)
    ensures Shows(b3, v3.rings, i) <==> !HidesBoth(v0.rings, v0.owner, taken, x, n, taken', x', i)
  {
    hide Shows; hide SmallCount; hide TakenOut;
    assert Shows(b3, v3.rings, i) <==> Shows(b2, v2.rings, i);
    if taken {
      assert Shows(b1, v1.rings, i) <==> ShowsWithout(b0, v0.rings, v0.owner[Block(x)], n, i);
    }
    if taken' {
      assert Shows(b2, v2.rings, i) <==> ShowsWithout(b1, v1.rings, v1.owner[Block(x')], n', i);
    }
  }

  /** The block in list `k` hides bucket `i` when it goes after the block before went. */
  predicate HidesAfter(rings: Lists, owner: Owners, taken: bool, x: Addr, n: nat, taken': bool, x': Addr, i: nat) {
    && taken && Block(x) in owner && owner[Block(x)] == RestRing && SmallSize(n) && BucketIndex(n) == i
    && RestRing in rings && |rings[RestRing]| == 2
    && SmallCount(rings, i) == 2 + (if taken' && Block(x') in owner && owner[Block(x')] == SmallRing(i) then 1 else 0)
  }

  /** The same when the block that is not in the rest ring leaves first. */
  lemma FlushedBits(size: map<Addr, Tag>, b0: nat, v0: View, b1: nat, v1: View, b2: nat, v2: View, b3: nat, rings: Lists,
                    taken: bool, x: Addr, n: nat, taken': bool, x': Addr, n': nat, i: nat)
    requires Absorbed(size, taken', x', n', b0, v0, b1, v1) && Absorbed(size, taken, x, n, b1, v1, b2, v2)
    requires taken' ==> Block(x') in v0.owner && v0.owner[Block(x')] != RestRing && x' != x
    requires RestRing in v0.rings
    requires KeptBits(b2, v2.rings, b3, rings) && Shows(b0, v0.rings, i)
    ensures Shows(b3, rings, i) <==> !HidesAfter(v0.rings, v0.owner, taken, x, n, taken', x', i)
  {
    hide Shows; hide SmallCount; hide TakenOut;
    assert Shows(b3, rings, i) <==> Shows(b2, v2.rings, i);
    if taken' {
      assert Shows(b1, v1.rings, i) <==> ShowsWithout(b0, v0.rings, v0.owner[Block(x')], n', i);
    }
    if taken {
      assert Shows(b2, v2.rings, i) <==> ShowsWithout(b1, v1.rings, v1.owner[Block(x)], n, i);
    }
  }

  ghost predicate KeptBits(freeBitmap: nat, rings: Lists, freeBitmap': nat, rings': Lists) {
    forall i: nat :: Shows(freeBitmap', rings', i) <==> Shows(freeBitmap, rings, i)
  }

  ghost predicate SameSmall(rings: Lists, rings': Lists) {
    forall i: nat :: SmallCount(rings', i) == SmallCount(rings, i)
  }

  lemma SameSmallBits(freeBitmap: nat, rings: Lists, rings': Lists, k: Key, n: nat)
    requires SameSmall(rings, rings') && !SmallSize(n) && !k.SmallRing?
    ensures TookBits(freeBitmap, rings, freeBitmap, rings', k, n)
  {
    hide Bit;
  }

  lemma SameSmallKept(freeBitmap: nat, rings: Lists, rings': Lists)
    requires SameSmall(rings, rings')
    ensures KeptBits(freeBitmap, rings, freeBitmap, rings')
  {
    hide Bit;
  }

  lemma KeptRefl(bits: nat, rings: Lists)
    ensures KeptBits(bits, rings, bits, rings)
  {
  }

  lemma KeptTrans(b0: nat, r0: Lists, b1: nat, r1: Lists, b2: nat, r2: Lists)
    requires KeptBits(b0, r0, b1, r1) && KeptBits(b1, r1, b2, r2)
    ensures KeptBits(b0, r0, b2, r2)
  {
    hide Shows;
  }

  /** A block of class `i` enters its bucket. */
  lemma AddedBits(freeBitmap: nat, rings: Lists, rings': Lists, i: nat, wasEmpty: bool)
    requires SmallRing(i) in rings && |rings[SmallRing(i)]| >= 1 && (wasEmpty <==> |rings[SmallRing(i)]| == 1)
    requires forall x: nat :: SmallCount(rings', x) == SmallCount(rings, x) + (if x == i then 1 else 0)
    requires forall x: nat :: Bit(freeBitmap, x) ==> SmallCount(rings, x) >= 2
    ensures KeptBits(freeBitmap, rings, if wasEmpty then SetBit(freeBitmap, i) else freeBitmap, rings')
  {
    hide SetBit; hide SmallCount;
    hide Bit;
    if wasEmpty {
      forall x: nat
        ensures Bit(SetBit(freeBitmap, i), x) <==> Bit(freeBitmap, x) || x == i
      {
        SetBitSpec(freeBitmap, i, x);
      }
    }
    assert SmallCount(rings, i) == |rings[SmallRing(i)]| by {
      CountIs(rings, i);
    }
  }

  lemma CountIs(rings: Lists, i: nat)
    requires SmallRing(i) in rings
    ensures SmallCount(rings, i) == |rings[SmallRing(i)]|
  {
  }

  /** Unlinking a small block of class `i` leaves the bitmap as the two comparisons say. */
  lemma TakenBits(freeBitmap: nat, rings: Lists, k: Key, j: nat, i: nat, n: nat)
    requires k in rings && SmallRing(i) in rings && (k == SmallRing(i) || k == RestRing) && SmallSize(n) && BucketIndex(n) == i
    requires 1 <= j < |rings[k]| && |rings[SmallRing(i)]| >= 1
    requires forall x: nat :: Bit(freeBitmap, x) ==> SmallCount(rings, x) >= 2
    ensures TookBits(freeBitmap, rings, BitsAfterRemoval(freeBitmap, rings, k, j, i), rings[k := Remove(rings[k], j)], k, n)
  {
    hide ClearBit; hide BucketIndex; hide SmallSize;
    var bits, rings' := BitsAfterRemoval(freeBitmap, rings, k, j, i), rings[k := Remove(rings[k], j)];
    var cleared := |rings[k]| == 2 && |rings'[SmallRing(i)]| <= 2;
    forall x: nat
      ensures Bit(bits, x) <==> Bit(freeBitmap, x) && (!cleared || x != i)
    {
      if cleared {
        ClearBitSpec(freeBitmap, i, x);
      }
    }
    hide BitsAfterRemoval; hide Bit;
  }

  /** Unlinking a small block of class `i` keeps the small bitmap exact but in one case:
      the block was alone in the rest ring while its own bucket held one block. */
  lemma BitsStayExact(freeBitmap: nat, rings: Lists, k: Key, j: nat, i: nat, n: nat)
    requires BitsExact(freeBitmap, rings) && k in rings && SmallRing(i) in rings && (k == SmallRing(i) || k == RestRing)
    requires 1 <= j < |rings[k]| && |rings[SmallRing(i)]| >= 1 && SmallSize(n) && BucketIndex(n) == i
    ensures BitsExact(BitsAfterRemoval(freeBitmap, rings, k, j, i), rings[k := Remove(rings[k], j)])
      <==> !(k == RestRing && |rings[RestRing]| == 2 && |rings[SmallRing(i)]| == 2)
  {
    hide BitsAfterRemoval; hide Bit; hide Remove;
    forall x: nat | Bit(freeBitmap, x)
      ensures SmallCount(rings, x) >= 2
    {
      assert Shows(freeBitmap, rings, x);
    }
    TakenBits(freeBitmap, rings, k, j, i, n);
    var bits, rings' := BitsAfterRemoval(freeBitmap, rings, k, j, i), rings[k := Remove(rings[k], j)];
    if Hides(rings, k, n, i) {
      assert !Shows(bits, rings', i);
    } else {
      forall x: nat
        ensures Shows(bits, rings', x)
      {
        assert ShowsWithout(freeBitmap, rings, k, n, x);
      }
    }
  }

  /** The neighbours of a block in a ring point back at it: no unlinking check fails. */
  ghost predicate UnlinkFacts(next: Words, prev: Words, v: View, k: Key, e: Ptr) {
    && e in next && e in prev && e in v.owner && v.owner[e] == k
    && prev[e] in next && next[e] in prev
    && next[prev[e]] == e && prev[next[e]] == e
    && prev[e] != e && next[e] != e
  }

  lemma BlocksBehindHead(k: Key, c: seq<Ptr>, size: map<Addr, Tag>, j: nat)
    requires KindOk(k, c, size) && 1 <= j < |c|
    ensures c[j].Block? && c[j].addr in size
    ensures k.SmallRing? ==> size[c[j].addr].n == ClassSize(k.index)
    ensures k.LargeRing? ==> size[c[j].addr].n == k.size && !SmallSize(k.size)
  {
  }

  lemma MarksRemove(rings: Lists, parent: map<Addr, Parent>, size: map<Addr, Tag>, k: Key, j: nat)
    requires Marks(rings, parent, size) && k in rings && 1 <= j < |rings[k]|
    ensures Marks(rings[k := Remove(rings[k], j)], parent, size)
  {
    var c := rings[k];
    var r := Remove(c, j);
    assert MarkOk(k, c, parent, size);
    assert forall i :: 0 <= i < |r| ==> r[i] == if i < j then c[i] else c[i + 1];
    OtherMarks(rings, parent, size, k, r);
  }

  lemma BitsRemove(freeBitmap: nat, freeBitmap': nat, largeBitmap: nat, rings: Lists, at: map<Pos, Addr>, k: Key, c: seq<Ptr>, z: nat)
    requires BitsOk(freeBitmap, largeBitmap, rings, at) && k in rings && |c| == |rings[k]| - 1 && |c| > 0
    requires freeBitmap' == freeBitmap || freeBitmap' == ClearBit(freeBitmap, z)
    requires k.SmallRing? && |c| == 1 ==> freeBitmap' == ClearBit(freeBitmap, k.index)
    ensures BitsOk(freeBitmap', largeBitmap, rings[k := c], at)
  {
    forall i: nat | Bit(freeBitmap', i)
      ensures i < NUM_BUCKETS && SmallRing(i) in rings[k := c] && |rings[k := c][SmallRing(i)]| >= 2
    {
      ClearBitSpec(freeBitmap, z, i);
      if k.SmallRing? {
        ClearBitSpec(freeBitmap, k.index, i);
      }
    }
  }

  /** A node that is alone in its ring and has no children. */
  lemma LeafGoneStep(next: Words, prev: Words, parent: map<Addr, Parent>, cell: map<Slot, Ptr>,
                     freeBitmap: nat, largeBitmap: nat, v: View, size: map<Addr, Tag>, p: Pos)
    requires ViewOk(next, prev, parent, cell, freeBitmap, largeBitmap, v, size)
    requires IsLeaf(v.at, p) && NodeAlone(v, size, p)
    ensures p.path > 1 ==> Pos(p.bucket, p.path / 2) in v.at
    ensures RestRing in v.rings && MayWrite(v.owner, v.at[p], SlotAddr(SlotOf(v.at, p)))
    ensures ViewOk(next, prev, parent, cell[SlotOf(v.at, p) := Null], freeBitmap,
                   if p.path == 1 then ClearBit(largeBitmap, p.bucket) else largeBitmap, NodeGone(v, size, p), size)
  {
    hide ListsOk; hide Kinds; hide Shape; hide Marks; hide Cells; hide BitsOk; hide ClearBit;
    ShapeIsClosed(v.at, v.posOf, v.rings, size);
    SlotOwner(next, prev, v, size, p);
    RemoveLeafShape(v.at, v.posOf, v.rings, size, p);
    RemoveLeafCells(v.at, v.posOf, cell, parent, p);
    ListFacts(v.rings, size, RestRing);
    ListDrop(next, prev, v.heads, v.rings, v.owner, LargeRing(size[v.at[p]].n));
    KindsDrop(v.rings, size, LargeRing(size[v.at[p]].n));
    MarksDrop(v.rings, parent, size, LargeRing(size[v.at[p]].n));
    BitsDrop(freeBitmap, largeBitmap, v.rings, v.at, v.at - {p}, p, LargeRing(size[v.at[p]].n));
  }

  ghost predicate NodeAlone(v: View, size: map<Addr, Tag>, p: Pos)
    requires p in v.at
  {
    && v.at[p] in size && LargeRing(size[v.at[p]].n) in v.rings
    && v.rings[LargeRing(size[v.at[p]].n)] == [Block(v.at[p])]
  }

  function NodeGone(v: View, size: map<Addr, Tag>, p: Pos): View
    requires p in v.at && v.at[p] in size
  {
    var b := v.at[p];
    v.(rings := v.rings - {LargeRing(size[b].n)}, owner := v.owner - {Block(b)}, at := v.at - {p}, posOf := v.posOf - {b})
  }

  lemma MarksDrop(rings: Lists, parent: map<Addr, Parent>, size: map<Addr, Tag>, k: Key)
    requires Marks(rings, parent, size)
    ensures Marks(rings - {k}, parent, size)
  {
  }

  lemma BitsDrop(freeBitmap: nat, largeBitmap: nat, rings: Lists, at: map<Pos, Addr>, at': map<Pos, Addr>, p: Pos, k: Key)
    requires BitsOk(freeBitmap, largeBitmap, rings, at) && k.LargeRing?
    requires forall i: nat :: Pos(i, 1) in at' <==> Pos(i, 1) in at && Pos(i, 1) != p
    ensures BitsOk(freeBitmap, if p.path == 1 then ClearBit(largeBitmap, p.bucket) else largeBitmap, rings - {k}, at')
  {
    forall i: nat
      ensures Bit(ClearBit(largeBitmap, p.bucket), i) <==> i != p.bucket && Bit(largeBitmap, i)
    {
      ClearBitSpec(largeBitmap, p.bucket, i);
    }
  }

  /** A node that is alone in its ring; the leaf at `q` below it takes its place. */
  lemma InnerGoneStep(next: Words, prev: Words, parent: map<Addr, Parent>, cell: map<Slot, Ptr>,
                      freeBitmap: nat, largeBitmap: nat, v: View, size: map<Addr, Tag>, p: Pos, q: Pos)
    requires ViewOk(next, prev, parent, cell, freeBitmap, largeBitmap, v, size)
    requires p in v.at && NodeAlone(v, size, p) && IsLeaf(v.at, q) && p != q && q.bucket == p.bucket && Prefix(p.path, q.path)
    ensures RestRing in v.rings
    ensures p.path > 1 ==> Pos(p.bucket, p.path / 2) in v.at
    ensures q.path > 1 ==> Pos(q.bucket, q.path / 2) in v.at
    ensures var b, x, slot := v.at[p], v.at[q], SlotOf(v.at, p);
      var cell1 := cell[SlotOf(v.at, q) := Null];
      && TakeOverFacts(cell1, parent, slot, b, x) && LargeBlock(size, x)
      && Child(b, 0) in cell1 && Child(b, 1) in cell1
      && MayWrite(v.owner, b, SlotAddr(SlotOf(v.at, q)) + TakeOverWrites(cell1, slot, b, x))
      && ViewOk(next, prev, TakeOverParents(cell1, parent, slot, b, x), TakeOverCells(cell1, slot, b, x),
                freeBitmap, largeBitmap, LeafMoved(v, size, p, q), size)
  {
    hide ListsOk; hide Kinds; hide Shape; hide Marks; hide Cells; hide BitsOk; hide TakeOverCells; hide TakeOverParents;
    hide TakeOverFacts; hide TakeOverWrites; hide Prefix; hide MayWrite;
    var b, x := v.at[p], v.at[q];
    var k := LargeRing(size[b].n);
    ShapeIsClosed(v.at, v.posOf, v.rings, size);
    LeafTakesOverShape(v.at, v.posOf, v.rings, size, p, q);
    InnerGoneCells(v.at, v.posOf, cell, parent, p, q);
    InnerGoneWrites(next, prev, cell, parent, v, size, p, q);
    ListFacts(v.rings, size, RestRing);
    ListDrop(next, prev, v.heads, v.rings, v.owner, k);
    OwnedByLists(next, prev, v.heads, v.rings, v.owner);
    KindsDrop(v.rings, size, k);
    MarksDrop(v.rings, parent, size, k);
    InnerGoneMarks(next, prev, cell, parent, v, size, p, q);
    PrefixLe(p.path, q.path);
    NodeBelowWord(v, size, q);
    BitsDrop(freeBitmap, largeBitmap, v.rings, v.at, (v.at - {q})[p := x], q, k);
  }

  /** What the checks of a take-over look at. */
  ghost predicate TakeOverFacts(cell: map<Slot, Ptr>, parent: map<Addr, Parent>, slot: Slot, b: Addr, x: Addr) {
    && b != x
    && b in parent && parent[b] == At(slot)
    && slot in cell && cell[slot] == Block(b)
    && slot != Child(b, 0) && slot != Child(b, 1)
    && Child(b, 0) in cell && Child(b, 1) in cell
    && ChildFacts(cell, parent, b, 0) && ChildFacts(cell, parent, b, 1)
    && cell[Child(b, 0)] != Block(x) && cell[Child(b, 1)] != Block(x)
  }

  ghost predicate ChildFacts(cell: map<Slot, Ptr>, parent: map<Addr, Parent>, b: Addr, side: nat)
    requires Child(b, side) in cell
  {
    var c := cell[Child(b, side)];
    c == Null || (c.Block? && c.addr != b && c.addr in parent && parent[c.addr] == At(Child(b, side)))
  }

  /** The blocks whose link words a take-over writes. */
  function TakeOverWrites(cell: map<Slot, Ptr>, slot: Slot, b: Addr, x: Addr): set<Addr>
    requires Child(b, 0) in cell && Child(b, 1) in cell
  {
    SlotAddr(slot) + {x} + AddrOf(cell[Child(b, 0)]) + AddrOf(cell[Child(b, 1)])
  }

  /** A take-over stores to the blocks of TakeOverWrites only. */
  lemma TakeOverStores(cell: map<Slot, Ptr>, parent: map<Addr, Parent>, slot: Slot, b: Addr, x: Addr, a: Addr)
    requires TakeOverFacts(cell, parent, slot, b, x)
    ensures var cell', parent' := TakeOverCells(cell, slot, b, x), TakeOverParents(cell, parent, slot, b, x);
      && (a !in TakeOverWrites(cell, slot, b, x) ==>
            SameAt(cell, cell', Child(a, 0)) && SameAt(cell, cell', Child(a, 1)) && SameAt(parent, parent', a))
      && (a in parent' && a !in parent ==> a == x)
      && (Child(a, 0) in cell' && Child(a, 0) !in cell ==> a == x)
      && (Child(a, 1) in cell' && Child(a, 1) !in cell ==> a == x)
  {
  }

  lemma FactsOfCells(at: map<Pos, Addr>, posOf: map<Addr, Pos>, cell: map<Slot, Ptr>, parent: map<Addr, Parent>, p: Pos, x: Addr)
    requires Closed(at, posOf) && Cells(at, cell, parent) && p in at && x !in posOf
    ensures p.path > 1 ==> Pos(p.bucket, p.path / 2) in at
    ensures TakeOverFacts(cell, parent, SlotOf(at, p), at[p], x)
  {
    hide SlotOf; hide ChildFacts; hide Closed; hide Cells;
    SlotHolds(at, posOf, cell, parent, p);
    CellsHold(at, cell, parent, p);
    ClosedAt(at, posOf, p);
    SlotIsChild(at, posOf, p, p);
    FactsOfChild(at, posOf, cell, parent, p, 0);
    FactsOfChild(at, posOf, cell, parent, p, 1);
  }

  lemma FactsOfChild(at: map<Pos, Addr>, posOf: map<Addr, Pos>, cell: map<Slot, Ptr>, parent: map<Addr, Parent>, p: Pos, side: nat)
    requires Closed(at, posOf) && Cells(at, cell, parent) && p in at && side < 2
    ensures Child(at[p], side) in cell && ChildFacts(cell, parent, at[p], side)
    ensures forall x :: x !in posOf ==> cell[Child(at[p], side)] != Block(x)
  {
    hide Closed; hide Cells; hide SlotOf;
    CellsHold(at, cell, parent, p);
    ClosedAt(at, posOf, p);
    var l := Pos(p.bucket, 2 * p.path + side);
    assert cell[Child(at[p], side)] == PtrAt(at, l);
    if l in at {
      ClosedAt(at, posOf, l);
      ChildPointsBack(at, posOf, cell, parent, p, l);
    }
  }

  lemma ChildPointsBack(at: map<Pos, Addr>, posOf: map<Addr, Pos>, cell: map<Slot, Ptr>, parent: map<Addr, Parent>, p: Pos, l: Pos)
    requires Closed(at, posOf) && Cells(at, cell, parent) && p in at && l in at
    requires l.bucket == p.bucket && l.path / 2 == p.path && p.path >= 1
    ensures at[l] != at[p] && at[l] in parent && parent[at[l]] == At(Child(at[p], l.path % 2))
  {
    hide Closed; hide Cells;
    CellsHold(at, cell, parent, l);
    ClosedAt(at, posOf, p);
    ClosedAt(at, posOf, l);
    assert l != p;
    assert SlotOf(at, l) == Child(at[p], l.path % 2) by {
      assert Pos(l.bucket, l.path / 2) == p;
    }
  }

  lemma InnerGoneCells(at: map<Pos, Addr>, posOf: map<Addr, Pos>, cell: map<Slot, Ptr>, parent: map<Addr, Parent>, p: Pos, q: Pos)
    requires Closed(at, posOf) && Cells(at, cell, parent) && p in at && IsLeaf(at, q) && p != q
    ensures p.path > 1 ==> Pos(p.bucket, p.path / 2) in at
    ensures q.path > 1 ==> Pos(q.bucket, q.path / 2) in at
    ensures var b, x, slot := at[p], at[q], SlotOf(at, p);
      var cell1 := cell[SlotOf(at, q) := Null];
      && TakeOverFacts(cell1, parent, slot, b, x)
      && Child(b, 0) in cell1 && Child(b, 1) in cell1
      && Cells((at - {q})[p := x], TakeOverCells(cell1, slot, b, x), TakeOverParents(cell1, parent, slot, b, x))
  {
    hide Cells; hide TakeOverCells; hide TakeOverParents; hide TakeOverFacts;
    var at1, posOf1 := at - {q}, posOf - {at[q]};
    var cell1 := cell[SlotOf(at, q) := Null];
    RemoveLeafCells(at, posOf, cell, parent, q);
    RemoveLeafClosed(at, posOf, q);
    FactsOfCells(at1, posOf1, cell1, parent, p, at[q]);
    TakeOverCellsOk(at1, posOf1, cell1, parent, p, at[q]);
  }

  function LeafMoved(v: View, size: map<Addr, Tag>, p: Pos, q: Pos): View
    requires p in v.at && q in v.at && v.at[p] in size
  {
    var b, x := v.at[p], v.at[q];
    v.(rings := v.rings - {LargeRing(size[b].n)}, owner := v.owner - {Block(b)},
       at := (v.at - {q})[p := x], posOf := (v.posOf - {b})[x := p])
  }

  /** Every block that a take-over writes is a trie node. */
  lemma TakeOverWritesNodes(at: map<Pos, Addr>, posOf: map<Addr, Pos>, cell: map<Slot, Ptr>, parent: map<Addr, Parent>, p: Pos, x: Addr)
    requires Closed(at, posOf) && Cells(at, cell, parent) && p in at
    ensures p.path > 1 ==> Pos(p.bucket, p.path / 2) in at
    ensures Child(at[p], 0) in cell && Child(at[p], 1) in cell
    ensures forall a :: a in TakeOverWrites(cell, SlotOf(at, p), at[p], x) ==> a == x || a in posOf
  {
    hide Closed; hide Cells;
    hide PtrAt;
    CellsHold(at, cell, parent, p);
    ClosedAt(at, posOf, p);
    NodeOrNull(at, posOf, Pos(p.bucket, 2 * p.path));
    NodeOrNull(at, posOf, Pos(p.bucket, 2 * p.path + 1));
    if p.path > 1 {
      ClosedAt(at, posOf, Pos(p.bucket, p.path / 2));
    }
  }

  lemma NodeOrNull(at: map<Pos, Addr>, posOf: map<Addr, Pos>, p: Pos)
    requires Closed(at, posOf)
    ensures PtrAt(at, p) == Null || (PtrAt(at, p).Block? && PtrAt(at, p).addr in posOf)
  {
    hide Closed;
    if p in at {
      ClosedAt(at, posOf, p);
    }
  }

  lemma InnerGoneWrites(next: Words, prev: Words, cell: map<Slot, Ptr>, parent: map<Addr, Parent>,
                        v: View, size: map<Addr, Tag>, p: Pos, q: Pos)
    requires ListsOk(next, prev, v.heads, v.rings, v.owner) && Shape(v.at, v.posOf, v.rings, size)
    requires Cells(v.at, cell, parent)
    requires p in v.at && IsLeaf(v.at, q) && p != q
    ensures p.path > 1 ==> Pos(p.bucket, p.path / 2) in v.at
    ensures q.path > 1 ==> Pos(q.bucket, q.path / 2) in v.at
    ensures var cell1 := cell[SlotOf(v.at, q) := Null];
      && Child(v.at[p], 0) in cell1 && Child(v.at[p], 1) in cell1
      && MayWrite(v.owner, v.at[p], SlotAddr(SlotOf(v.at, q)) + TakeOverWrites(cell1, SlotOf(v.at, p), v.at[p], v.at[q]))
  {
    hide ListsOk; hide Shape; hide Cells; hide TakeOverWrites; hide SlotOf;
    ShapeIsClosed(v.at, v.posOf, v.rings, size);
    var at1, posOf1 := v.at - {q}, v.posOf - {v.at[q]};
    var cell1 := cell[SlotOf(v.at, q) := Null];
    RemoveLeafCells(v.at, v.posOf, cell, parent, q);
    RemoveLeafClosed(v.at, v.posOf, q);
    TakeOverWritesNodes(at1, posOf1, cell1, parent, p, v.at[q]);
    SlotOwner(next, prev, v, size, q);
    SameSlot(v.at, v.posOf, p, q);
    NodesOwned(next, prev, v, size);
  }

  lemma SameSlot(at: map<Pos, Addr>, posOf: map<Addr, Pos>, p: Pos, q: Pos)
    requires Closed(at, posOf) && p in at && IsLeaf(at, q) && p != q
    ensures p.path > 1 ==> Pos(p.bucket, p.path / 2) in at - {q}
    ensures SlotOf(at - {q}, p) == SlotOf(at, p)
  {
    if p.path > 1 {
      NotChildOfLeaf(at, posOf, q, p);
    }
  }

  lemma NodesOwned(next: Words, prev: Words, v: View, size: map<Addr, Tag>)
    requires ListsOk(next, prev, v.heads, v.rings, v.owner) && Shape(v.at, v.posOf, v.rings, size)
    ensures forall a :: a in v.posOf ==> Block(a) in v.owner && v.owner[Block(a)].LargeRing?
  {
    forall a | a in v.posOf
      ensures Block(a) in v.owner && v.owner[Block(a)].LargeRing?
    {
      NodeOwner(v.rings, v.owner, v.at, v.posOf, size, a);
    }
  }

  /** A take-over leaves the parent words of blocks that are no trie nodes alone. */
  lemma TakeOverParentsFrame(at: map<Pos, Addr>, posOf: map<Addr, Pos>, cell: map<Slot, Ptr>,
                             parent: map<Addr, Parent>, p: Pos, x: Addr, a: Addr)
    requires Closed(at, posOf) && Cells(at, cell, parent) && p in at && a !in posOf && a != x && a in parent
    ensures p.path > 1 ==> Pos(p.bucket, p.path / 2) in at
    ensures Child(at[p], 0) in cell && Child(at[p], 1) in cell
    ensures var parent' := TakeOverParents(cell, parent, SlotOf(at, p), at[p], x);
      a in parent' && parent'[a] == parent[a]
  {
    hide Closed; hide Cells; hide SlotOf;
    hide PtrAt;
    CellsHold(at, cell, parent, p);
    ClosedAt(at, posOf, p);
    NodeOrNull(at, posOf, Pos(p.bucket, 2 * p.path));
    NodeOrNull(at, posOf, Pos(p.bucket, 2 * p.path + 1));
  }

  lemma InnerGoneMarks(next: Words, prev: Words, cell: map<Slot, Ptr>, parent: map<Addr, Parent>,
                       v: View, size: map<Addr, Tag>, p: Pos, q: Pos)
    requires ListsOk(next, prev, v.heads, v.rings, v.owner) && Shape(v.at, v.posOf, v.rings, size)
    requires Cells(v.at, cell, parent) && Marks(v.rings, parent, size)
    requires p in v.at && NodeAlone(v, size, p) && IsLeaf(v.at, q) && p != q
    ensures p.path > 1 ==> Pos(p.bucket, p.path / 2) in v.at
    ensures q.path > 1 ==> Pos(q.bucket, q.path / 2) in v.at
    ensures var b, x, slot := v.at[p], v.at[q], SlotOf(v.at, p);
      var cell1 := cell[SlotOf(v.at, q) := Null];
      && Child(b, 0) in cell1 && Child(b, 1) in cell1
      && Marks(v.rings - {LargeRing(size[b].n)}, TakeOverParents(cell1, parent, slot, b, x), size)
  {
    hide ListsOk; hide Shape; hide Cells; hide TakeOverParents; hide SlotOf; hide Marks;
    ShapeIsClosed(v.at, v.posOf, v.rings, size);
    var b, x := v.at[p], v.at[q];
    var k := LargeRing(size[b].n);
    var at1, posOf1 := v.at - {q}, v.posOf - {x};
    var cell1 := cell[SlotOf(v.at, q) := Null];
    RemoveLeafCells(v.at, v.posOf, cell, parent, q);
    RemoveLeafClosed(v.at, v.posOf, q);
    SameSlot(v.at, v.posOf, p, q);
    TakeOverWritesNodes(at1, posOf1, cell1, parent, p, x);
    var parent' := TakeOverParents(cell1, parent, SlotOf(v.at, p), b, x);
    forall a | a in parent && Block(a) in v.owner && a !in v.posOf
      ensures a in parent' && parent'[a] == parent[a]
    {
      TakeOverParentsFrame(at1, posOf1, cell1, parent, p, x, a);
    }
    OwnedByLists(next, prev, v.heads, v.rings, v.owner);
    NodesAreHeads(v.rings, v.owner, v.at, v.posOf, size);
    MarksUpdate(v.rings, v.owner, v.at, v.posOf, parent, parent', size, k, v.rings[k]);
    assert v.rings[k := v.rings[k]] == v.rings;
    MarksDrop(v.rings, parent', size, k);
  }

  /** A node with ring mates; the last of them takes its place. */
  lemma HeadGoneStep(next: Words, prev: Words, parent: map<Addr, Parent>, cell: map<Slot, Ptr>,
                     freeBitmap: nat, largeBitmap: nat, v: View, size: map<Addr, Tag>, p: Pos)
    requires ViewOk(next, prev, parent, cell, freeBitmap, largeBitmap, v, size)
    requires p in v.at && v.at[p] in size && LargeRing(size[v.at[p]].n) in v.rings && |v.rings[LargeRing(size[v.at[p]].n)]| >= 2
    ensures p.path > 1 ==> Pos(p.bucket, p.path / 2) in v.at
    ensures var b, e, k := v.at[p], Block(v.at[p]), LargeRing(size[v.at[p]].n);
      && UnlinkFacts(next, prev, v, k, e)
      && prev[e] == v.rings[k][|v.rings[k]| - 1]
      && prev[e].Block? && prev[e].addr != b && LargeBlock(size, prev[e].addr)
      && Child(b, 0) in cell && Child(b, 1) in cell
      && TakeOverFacts(cell, parent, SlotOf(v.at, p), b, prev[e].addr)
      && MayWrite(v.owner, b, AddrOf(prev[e]) + AddrOf(next[e]) + TakeOverWrites(cell, SlotOf(v.at, p), b, prev[e].addr))
      && ViewOk(next[prev[e] := next[e]], prev[next[e] := prev[e]],
                TakeOverParents(cell, parent, SlotOf(v.at, p), b, prev[e].addr),
                TakeOverCells(cell, SlotOf(v.at, p), b, prev[e].addr),
                freeBitmap, largeBitmap, MateMoved(v, size, p, prev[e].addr), size)
  {
    hide ListsOk; hide Kinds; hide Shape; hide Marks; hide Cells; hide BitsOk; hide TakeOverCells; hide TakeOverParents;
    hide TakeOverFacts; hide TakeOverWrites; hide Promote; hide SlotOf;
    var b, e, k := v.at[p], Block(v.at[p]), LargeRing(size[v.at[p]].n);
    var c := v.rings[k];
    NodeRing(v.rings, v.at, v.posOf, size, p);
    ListFacts(v.rings, size, k);
    BlocksBehindHead(k, c, size, |c| - 1);
    ListPromote(next, prev, v.heads, v.rings, v.owner, k);
    var x := prev[e].addr;
    KindPromote(k, c, size);
    KindsUpdate(v.rings, size, k, Promote(c));
    MateIsNoNode(next, prev, v, size, k, |c| - 1);
    ShapeIsClosed(v.at, v.posOf, v.rings, size);
    MateTakesOverShape(v.at, v.posOf, v.rings, size, p, x, Promote(c));
    FactsOfCells(v.at, v.posOf, cell, parent, p, x);
    TakeOverCellsOk(v.at, v.posOf, cell, parent, p, x);
    TakeOverWritesNodes(v.at, v.posOf, cell, parent, p, x);
    NodesOwned(next, prev, v, size);
    HeadGoneMarks(next, prev, cell, parent, v, size, p, k, x);
    HeadGoneBits(freeBitmap, largeBitmap, v.rings, v.at, k, Promote(c), p, x);
  }

  function MateMoved(v: View, size: map<Addr, Tag>, p: Pos, x: Addr): View
    requires p in v.at && v.at[p] in size && LargeRing(size[v.at[p]].n) in v.rings && |v.rings[LargeRing(size[v.at[p]].n)]| >= 2
  {
    var b, k := v.at[p], LargeRing(size[v.at[p]].n);
    v.(rings := v.rings[k := Promote(v.rings[k])], owner := v.owner - {Block(b)},
       at := v.at[p := x], posOf := (v.posOf - {b})[x := p])
  }

  lemma MateIsNoNode(next: Words, prev: Words, v: View, size: map<Addr, Tag>, k: Key, j: nat)
    requires ListsOk(next, prev, v.heads, v.rings, v.owner) && Shape(v.at, v.posOf, v.rings, size)
    requires k in v.rings && k.LargeRing? && 1 <= j < |v.rings[k]| && v.rings[k][j].Block?
    ensures v.rings[k][j].addr !in v.posOf
  {
    hide Shape;
    OwnedByLists(next, prev, v.heads, v.rings, v.owner);
    NodesAreHeads(v.rings, v.owner, v.at, v.posOf, size);
  }

  lemma HeadGoneBits(freeBitmap: nat, largeBitmap: nat, rings: Lists, at: map<Pos, Addr>, k: Key, c: seq<Ptr>, p: Pos, x: Addr)
    requires BitsOk(freeBitmap, largeBitmap, rings, at) && k.LargeRing? && p in at
    ensures BitsOk(freeBitmap, largeBitmap, rings[k := c], at[p := x])
  {
  }

  lemma HeadGoneMarks(next: Words, prev: Words, cell: map<Slot, Ptr>, parent: map<Addr, Parent>,
                      v: View, size: map<Addr, Tag>, p: Pos, k: Key, x: Addr)
    requires ListsOk(next, prev, v.heads, v.rings, v.owner) && Shape(v.at, v.posOf, v.rings, size)
    requires Cells(v.at, cell, parent) && Marks(v.rings, parent, size)
    requires p in v.at && k in v.rings && k.LargeRing? && |v.rings[k]| >= 2 && v.rings[k][|v.rings[k]| - 1] == Block(x)
    ensures p.path > 1 ==> Pos(p.bucket, p.path / 2) in v.at
    ensures Child(v.at[p], 0) in cell && Child(v.at[p], 1) in cell
    ensures Marks(v.rings[k := Promote(v.rings[k])], TakeOverParents(cell, parent, SlotOf(v.at, p), v.at[p], x), size)
  {
    hide ListsOk; hide Shape; hide Cells; hide TakeOverParents; hide SlotOf;
    ShapeIsClosed(v.at, v.posOf, v.rings, size);
    TakeOverWritesNodes(v.at, v.posOf, cell, parent, p, x);
    var parent' := TakeOverParents(cell, parent, SlotOf(v.at, p), v.at[p], x);
    OwnedByLists(next, prev, v.heads, v.rings, v.owner);
    NodesAreHeads(v.rings, v.owner, v.at, v.posOf, size);
    var c' := Promote(v.rings[k]);
    forall k' | k' in v.rings && (k'.RestRing? || k'.LargeRing?)
      ensures MarkOk(k', v.rings[k := c'][k'], parent', size)
    {
      forall j | 1 <= j < |v.rings[k']| && v.rings[k'][j].Block? && (k' == k ==> j < |v.rings[k]| - 1) && v.rings[k'][j].addr in parent
        ensures v.rings[k'][j].addr in parent' && parent'[v.rings[k'][j].addr] == parent[v.rings[k'][j].addr]
      {
        OnlyPlace(v.rings, v.owner, k, |v.rings[k]| - 1, k', j);
        TakeOverParentsFrame(v.at, v.posOf, cell, parent, p, x, v.rings[k'][j].addr);
      }
      assert MarkOk(k', v.rings[k'], parent, size);
    }
  }

  /** A place in the lists holds an element of its own. */
  lemma OnlyPlace(rings: Lists, owner: Owners, k: Key, i: nat, k': Key, j: nat)
    requires Owned(rings, owner) && k in rings && k' in rings && i < |rings[k]| && j < |rings[k']|
    requires k != k' || i != j
    ensures rings[k][i] != rings[k'][j]
  {
    assert rings[k][i] in owner && owner[rings[k][i]] == k;
    assert rings[k'][j] in owner && owner[rings[k'][j]] == k';
    if k == k' && i < j {
      assert Distinct(rings[k]);
    }
  }

  /** Where a free block that has ring neighbours is. */
  lemma LinkedBlock(next: Words, prev: Words, parent: map<Addr, Parent>, cell: map<Slot, Ptr>,
                    freeBitmap: nat, largeBitmap: nat, v: View, size: map<Addr, Tag>, b: Addr)
    returns (k: Key, j: nat)
    requires ViewOk(next, prev, parent, cell, freeBitmap, largeBitmap, v, size)
    requires Block(b) in v.owner && !v.owner[Block(b)].CacheChain?
    ensures Block(b) in prev && Block(b) in next && RestRing in v.rings
    ensures k == v.owner[Block(b)] && k in v.rings && j < |v.rings[k]| && v.rings[k][j] == Block(b)
    ensures j == IndexOf(v.rings[k], Block(b))
    ensures ValidBlock(Block(b), size)
    ensures prev[Block(b)] == Block(b) <==> |v.rings[k]| == 1
    ensures SmallSize(size[b].n) ==> j >= 1 && (k == RestRing || k == SmallRing(BucketIndex(size[b].n)))
    ensures !SmallSize(size[b].n) ==> k == RestRing || k == LargeRing(size[b].n)
    ensures k == RestRing ==> j >= 1
    ensures !SmallSize(size[b].n) ==> b in parent
    ensures !SmallSize(size[b].n) ==> (parent[b] == RestMark <==> k == RestRing)
    ensures !SmallSize(size[b].n) ==> (parent[b] == NoParent <==> k == LargeRing(size[b].n) && j >= 1)
    ensures !SmallSize(size[b].n) && k.LargeRing? && j == 0 ==> (b in v.posOf && v.posOf[b] in v.at && v.at[v.posOf[b]] == b)
  {
    hide Marks; hide BitsOk; hide Cells; hide Shape;
    var e := Block(b);
    k := v.owner[e];
    var c := v.rings[k];
    j := IndexOf(c, e);
    ListFacts(v.rings, size, k);
    ListFacts(v.rings, size, RestRing);
    assert Linked(next, prev, c) && Distinct(c);
    if |c| >= 2 {
      UnlinkRing(next, prev, c, j);
    }
    BlockInList(k, c, size, j);
    if !SmallSize(size[b].n) {
      LargeParent(next, prev, parent, cell, freeBitmap, largeBitmap, v, size, k, j);
    }
  }

  lemma BlockInList(k: Key, c: seq<Ptr>, size: map<Addr, Tag>, j: nat)
    requires KindOk(k, c, size) && !k.CacheChain? && j < |c| && c[j].Block?
    ensures ValidBlock(c[j], size)
    ensures k.SmallRing? ==> j >= 1 && SmallSize(size[c[j].addr].n) && k.index == BucketIndex(size[c[j].addr].n)
    ensures k.RestRing? ==> j >= 1
    ensures k.LargeRing? ==> size[c[j].addr].n == k.size && !SmallSize(k.size)
  {
    if k.SmallRing? {
      ClassesAreSmallSizes(k.index);
    }
  }

  lemma LargeParent(next: Words, prev: Words, parent: map<Addr, Parent>, cell: map<Slot, Ptr>,
                    freeBitmap: nat, largeBitmap: nat, v: View, size: map<Addr, Tag>, k: Key, j: nat)
    requires ViewOk(next, prev, parent, cell, freeBitmap, largeBitmap, v, size)
    requires k in v.rings && (k.RestRing? || k.LargeRing?) && j < |v.rings[k]|
    requires ValidBlock(v.rings[k][j], size) && !SmallSize(size[v.rings[k][j].addr].n)
    requires k.RestRing? ==> j >= 1
    ensures v.rings[k][j].addr in parent
    ensures k.RestRing? ==> parent[v.rings[k][j].addr] == RestMark
    ensures k.LargeRing? && j >= 1 ==> parent[v.rings[k][j].addr] == NoParent
    ensures k.LargeRing? && j == 0 ==> parent[v.rings[k][j].addr].At?
    ensures k.LargeRing? && j == 0 ==> v.rings[k][j].addr in v.posOf && v.posOf[v.rings[k][j].addr] in v.at
    ensures k.LargeRing? && j == 0 ==> v.at[v.posOf[v.rings[k][j].addr]] == v.rings[k][j].addr
  {
    hide ListsOk; hide BitsOk; hide Kinds; hide Shape; hide Cells;
    assert MarkOk(k, v.rings[k], parent, size);
    if k.LargeRing? && j == 0 {
      NodeOfRing(v, size, k.size);
      LeafParent(next, prev, parent, cell, freeBitmap, largeBitmap, v, size, v.posOf[v.rings[k][0].addr]);
    }
  }

  /** From a node to the child that a descent to a leaf prefers. */
  lemma ChildDown(next: Words, prev: Words, parent: map<Addr, Parent>, cell: map<Slot, Ptr>,
                  freeBitmap: nat, largeBitmap: nat, v: View, size: map<Addr, Tag>, p: Pos, side: nat)
    requires ViewOk(next, prev, parent, cell, freeBitmap, largeBitmap, v, size)
    requires p in v.at && side < 2
    ensures p.path >= 1 && Child(v.at[p], side) in cell
    ensures var q := Pos(p.bucket, 2 * p.path + side);
      && cell[Child(v.at[p], side)] == PtrAt(v.at, q)
      && (q in v.at ==> SlotOf(v.at, q) == Child(v.at[p], side) && Prefix(p.path, q.path) && q.path < WORD)
  {
    hide ListsOk; hide Kinds; hide Marks; hide BitsOk;
    var q := Pos(p.bucket, 2 * p.path + side);
    assert CellsAt(v.at, cell, parent, p);
    assert ShapeAt(v.at, v.posOf, v.rings, size, p);
    assert q.path / 2 == p.path && q.path % 2 == side;
    if q in v.at {
      assert Prefix(p.path, q.path / 2);
      NodeBelowWord(v, size, q);
    }
  }

  lemma NodeBelowWord(v: View, size: map<Addr, Tag>, q: Pos)
    requires Kinds(v.rings, size) && Shape(v.at, v.posOf, v.rings, size) && q in v.at
    ensures v.at[q] in size && q.path <= size[v.at[q]].n < WORD
    ensures HighBit(size[v.at[q]].n) == q.bucket && !SmallSize(size[v.at[q]].n)
  {
    assert ShapeAt(v.at, v.posOf, v.rings, size, q);
    PrefixLe(q.path, size[v.at[q]].n);
    ListFacts(v.rings, size, LargeRing(size[v.at[q]].n));
  }

  /** A free block that is alone in its ring is a trie node. */
  lemma AloneIsNode(next: Words, prev: Words, parent: map<Addr, Parent>, cell: map<Slot, Ptr>,
                    freeBitmap: nat, largeBitmap: nat, v: View, size: map<Addr, Tag>, b: Addr)
    requires ViewOk(next, prev, parent, cell, freeBitmap, largeBitmap, v, size)
    requires Block(b) in v.owner && !v.owner[Block(b)].CacheChain?
    requires Block(b) in prev ==> prev[Block(b)] == Block(b)
    ensures Block(b) in next && next[Block(b)] == Block(b)
    ensures b in v.posOf && v.posOf[b] in v.at && v.at[v.posOf[b]] == b
    ensures NodeAlone(v, size, v.posOf[b])
    ensures b in size && 0 < size[b].n < WORD && HighBit(size[b].n) == v.posOf[b].bucket
  {
    hide Marks; hide BitsOk; hide Cells; hide HighBit; hide Shape;
    var e := Block(b);
    var k := v.owner[e];
    var c := v.rings[k];
    var j := IndexOf(c, e);
    ListFacts(v.rings, size, k);
    assert Linked(next, prev, c) && Distinct(c);
    if |c| >= 2 {
      UnlinkRing(next, prev, c, j);
      assert false;
    }
    assert c == [e];
    NodeOfRing(v, size, k.size);
    NodeBelowWord(v, size, v.posOf[b]);
  }

  lemma LeafParent(next: Words, prev: Words, parent: map<Addr, Parent>, cell: map<Slot, Ptr>,
                   freeBitmap: nat, largeBitmap: nat, v: View, size: map<Addr, Tag>, p: Pos)
    requires ViewOk(next, prev, parent, cell, freeBitmap, largeBitmap, v, size) && p in v.at
    ensures p.path > 1 ==> Pos(p.bucket, p.path / 2) in v.at
    ensures v.at[p] in parent && parent[v.at[p]] == At(SlotOf(v.at, p))
    ensures SlotOf(v.at, p) in cell && cell[SlotOf(v.at, p)] == Block(v.at[p])
    ensures v.at[p] in size && 0 < size[v.at[p]].n < WORD && HighBit(size[v.at[p]].n) == p.bucket
    ensures p.path == 1 <==> SlotOf(v.at, p) == Bucket(p.bucket)
  {
    hide ListsOk; hide Marks; hide BitsOk;
    ShapeIsClosed(v.at, v.posOf, v.rings, size);
    assert CellsAt(v.at, cell, parent, p);
    SlotHolds(v.at, v.posOf, cell, parent, p);
    NodeBelowWord(v, size, p);
    hide Shape; hide Cells; hide Kinds;
  }

  lemma NodeOfRing(v: View, size: map<Addr, Tag>, n: nat)
    requires Shape(v.at, v.posOf, v.rings, size) && LargeRing(n) in v.rings
    ensures |v.rings[LargeRing(n)]| > 0 && v.rings[LargeRing(n)][0].Block?
    ensures var a := v.rings[LargeRing(n)][0].addr;
      a in v.posOf && v.posOf[a] in v.at && v.at[v.posOf[a]] == a && a in size && size[a].n == n
  {
    assert HeadPlaced(v.posOf, v.rings, size, n);
  }

  // ---- the rest ring and the block cache ----

  lemma AddRestStep(next: Words, prev: Words, parent: map<Addr, Parent>, cell: map<Slot, Ptr>,
                    freeBitmap: nat, largeBitmap: nat, v: View, size: map<Addr, Tag>, b: Addr, parent': map<Addr, Parent>)
    requires ViewOk(next, prev, parent, cell, freeBitmap, largeBitmap, v, size)
    requires Block(b) !in v.owner && ValidBlock(Block(b), size)
    requires parent' == if SmallSize(size[b].n) then parent else parent[b := RestMark]
    ensures RestRing in v.rings && |v.rings[RestRing]| > 0
    ensures RestHead in prev && prev[RestHead] in next && prev[RestHead] in prev
    ensures var e, h := Block(b), prev[RestHead];
      && next[h] == RestHead
      && MayWrite(v.owner, b, {b} + AddrOf(h)) && AddrOf(next[h]) == {}
      && ViewOk(next[e := RestHead][h := e], prev[e := h][RestHead := e], parent', cell,
                freeBitmap, largeBitmap, PutAt(v, RestRing, |v.rings[RestRing]| - 1, e), size)
      && Insert(v.rings[RestRing], |v.rings[RestRing]| - 1, e) == v.rings[RestRing] + [e]
  {
    hide Kinds; hide Shape; hide Marks; hide Cells; hide BitsOk; hide ListsOk; hide KindOk;
    var k, e := RestRing, Block(b);
    ListFacts(v.rings, size, k);
    var c := v.rings[k];
    var j := |c| - 1;
    var c' := Insert(c, j, e);
    RingEnds(next, prev, v.heads, v.rings, v.owner, k);
    ListInsert(next, prev, v.heads, v.rings, v.owner, k, j, e);
    OwnedByLists(next, prev, v.heads, v.rings, v.owner);
    RestKind(c, size, e);
    KindInsert(k, c, size, j, e);
    KindsUpdate(v.rings, size, k, c');
    SameHeadShape(v.at, v.posOf, v.rings, size, k, c');
    NodesAreHeads(v.rings, v.owner, v.at, v.posOf, size);
    RestMarks(v.rings, v.owner, parent, parent', size, b);
    MarksUpdate(v.rings, v.owner, v.at, v.posOf, parent, parent', size, k, c');
    OtherBits(freeBitmap, largeBitmap, v.rings, v.at, k, c');
    NotANode(next, prev, v, size, b);
    ShapeIsClosed(v.at, v.posOf, v.rings, size);
    StrangerParent(v.at, v.posOf, cell, parent, parent', b);
  }

  lemma RingEnds(next: Words, prev: Words, heads: seq<Ptr>, rings: Lists, owner: Owners, k: Key)
    requires ListsOk(next, prev, heads, rings, owner) && k in rings && !k.CacheChain?
    ensures |rings[k]| > 0 && rings[k][0] in prev && rings[k][0] in next
    ensures prev[rings[k][0]] == rings[k][|rings[k]| - 1] && next[rings[k][|rings[k]| - 1]] == rings[k][0]
    ensures |rings[k]| > 1 ==> next[rings[k][0]] == rings[k][1]
  {
    assert Linked(next, prev, rings[k]);
  }

  lemma RestKind(c: seq<Ptr>, size: map<Addr, Tag>, e: Ptr)
    requires KindOk(RestRing, c, size) && ValidBlock(e, size)
    ensures KindOk(RestRing, [c[0], e], size)
  {
  }

  lemma RestMarks(rings: Lists, owner: Owners, parent: map<Addr, Parent>, parent': map<Addr, Parent>, size: map<Addr, Tag>, b: Addr)
    requires Marks(rings, parent, size) && RestRing in rings && |rings[RestRing]| > 0 && Owned(rings, owner)
    requires ValidBlock(Block(b), size) && Block(b) !in owner
    requires parent' == if SmallSize(size[b].n) then parent else parent[b := RestMark]
    ensures MarkOk(RestRing, Insert(rings[RestRing], |rings[RestRing]| - 1, Block(b)), parent', size)
  {
    var c := rings[RestRing];
    var r := Insert(c, |c| - 1, Block(b));
    assert r == c + [Block(b)];
    assert MarkOk(RestRing, c, parent, size);
    assert forall j :: 0 <= j < |c| ==> c[j] in owner;
  }

  lemma StrangerParent(at: map<Pos, Addr>, posOf: map<Addr, Pos>, cell: map<Slot, Ptr>, parent: map<Addr, Parent>,
                       parent': map<Addr, Parent>, b: Addr)
    requires Closed(at, posOf) && Cells(at, cell, parent) && b !in posOf
    requires parent' == parent || parent' == parent[b := RestMark]
    ensures Cells(at, cell, parent')
  {
    forall p | p in at
      ensures CellsAt(at, cell, parent', p)
    {
      assert CellsAt(at, cell, parent, p);
    }
  }

  function PutCached(v: View, i: nat, b: Addr): View
    requires i < |v.heads| && CacheChain(i) in v.rings
  {
    v.(heads := v.heads[i := Block(b)],
       rings := v.rings[CacheChain(i) := [Block(b)] + v.rings[CacheChain(i)]],
       owner := v.owner[Block(b) := CacheChain(i)])
  }

  /** Block `b`, of `n` bytes, became the head of the cache chain of its class. */
  ghost predicate CachedAs(v: View, v': View, b: Addr, n: nat) {
    exists i: nat :: ClassSize(i) == n && i < |v.heads| && CacheChain(i) in v.rings && v' == PutCached(v, i, b)
  }

  /** Block `b`, of `n` bytes, was the head of the cache chain of its class, and left it. */
  ghost predicate UncachedAs(v: View, v': View, b: Addr, n: nat) {
    exists i: nat ::
      && ClassSize(i) == n && i < |v.heads| && v.heads[i] == Block(b) && CacheChain(i) in v.rings && |v.rings[CacheChain(i)]| > 0
      && Block(b) in v.owner && v.owner[Block(b)] == CacheChain(i) && exists q :: v' == TakeCached(v, i, b, q)
  }

  /** The free lists stay, and a cached block is in none of them. */
  lemma UncachedShows(bits: nat, v: View, v': View, b: Addr, n: nat, i: nat)
    requires UncachedAs(v, v', b, n)
    ensures Block(b) in v.owner && v.owner[Block(b)].CacheChain?
    ensures Shows(bits, v'.rings, i) <==> Shows(bits, v.rings, i)
  {
  }

  lemma PushCachedStep(next: Words, prev: Words, parent: map<Addr, Parent>, cell: map<Slot, Ptr>,
                       freeBitmap: nat, largeBitmap: nat, v: View, size: map<Addr, Tag>, i: nat, b: Addr)
    requires ViewOk(next, prev, parent, cell, freeBitmap, largeBitmap, v, size)
    requires i < NUM_BUCKETS && Block(b) !in v.owner && b in size && size[b].n == ClassSize(i)
    ensures CacheChain(i) in v.rings
    ensures ViewOk(next, prev[Block(b) := v.heads[i]], parent, cell, freeBitmap, largeBitmap, PutCached(v, i, b), size)
  {
    hide Kinds; hide Shape; hide Marks; hide Cells; hide BitsOk; hide ListsOk;
    var k := CacheChain(i);
    ChainPush(next, prev, v.heads, v.rings, v.owner, i, Block(b));
    ListFacts(v.rings, size, k);
    var c := v.rings[k];
    var c' := [Block(b)] + c;
    assert KindOk(k, c', size);
    KindsUpdate(v.rings, size, k, c');
    SameHeadShape(v.at, v.posOf, v.rings, size, k, c');
    OtherMarks(v.rings, parent, size, k, c');
    OtherBits(freeBitmap, largeBitmap, v.rings, v.at, k, c');
  }

  function TakeCached(v: View, i: nat, b: Addr, q: Ptr): View
    requires i < |v.heads| && CacheChain(i) in v.rings && |v.rings[CacheChain(i)]| > 0
  {
    v.(heads := v.heads[i := q],
       rings := v.rings[CacheChain(i) := v.rings[CacheChain(i)][1..]],
       owner := v.owner - {Block(b)})
  }

  lemma PopCachedStep(next: Words, prev: Words, parent: map<Addr, Parent>, cell: map<Slot, Ptr>,
                      freeBitmap: nat, largeBitmap: nat, v: View, size: map<Addr, Tag>, i: nat)
    requires ViewOk(next, prev, parent, cell, freeBitmap, largeBitmap, v, size)
    requires i < NUM_BUCKETS && v.heads[i] != Null
    ensures CacheChain(i) in v.rings && |v.rings[CacheChain(i)]| > 0 && v.rings[CacheChain(i)][0] == v.heads[i]
    ensures BlockOfSize(v.heads[i], size, ClassSize(i)) && v.heads[i] in v.owner && v.owner[v.heads[i]] == CacheChain(i)
    ensures v.heads[i] in prev
    ensures ViewOk(next, prev, parent, cell, freeBitmap, largeBitmap, TakeCached(v, i, v.heads[i].addr, prev[v.heads[i]]), size)
  {
    hide Kinds; hide Shape; hide Marks; hide Cells; hide BitsOk; hide ListsOk;
    var k := CacheChain(i);
    ChainPop(next, prev, v.heads, v.rings, v.owner, i);
    ListFacts(v.rings, size, k);
    var c := v.rings[k];
    KindsUpdate(v.rings, size, k, c[1..]);
    SameHeadShape(v.at, v.posOf, v.rings, size, k, c[1..]);
    OtherMarks(v.rings, parent, size, k, c[1..]);
    OtherBits(freeBitmap, largeBitmap, v.rings, v.at, k, c[1..]);
  }

  // ---- the descent of an insertion ----

  lemma NodeSize(at: map<Pos, Addr>, posOf: map<Addr, Pos>, rings: Lists, size: map<Addr, Tag>, pos: Pos, n: nat)
    requires Shape(at, posOf, rings, size) && pos in at && Prefix(pos.path, n) && n > 0 && pos.bucket == HighBit(n)
    ensures pos.path >= 1 && at[pos] in size
    ensures size[at[pos]].n != n ==> pos.path < n
  {
    assert ShapeAt(at, posOf, rings, size, pos);
    PrefixLe(pos.path, n);
    if pos.path == n && n < size[at[pos]].n {
      ShorterPrefix(n, size[at[pos]].n);
    }
  }

  lemma {:induction false} ShorterPrefix(a: nat, s: nat)
    requires Prefix(a, s) && 0 < a < s
    ensures HighBit(a) < HighBit(s)
  {
    PrefixLe(a, s / 2);
    HighBitMonotone(a, s / 2);
  }

  /** One level down towards size `n`. */
  lemma DescendStep(at: map<Pos, Addr>, posOf: map<Addr, Pos>, rings: Lists, size: map<Addr, Tag>,
                    cell: map<Slot, Ptr>, parent: map<Addr, Parent>, pos: Pos, n: nat, p: Slot)
    requires Shape(at, posOf, rings, size) && Cells(at, cell, parent)
    requires pos in at && Prefix(pos.path, n) && 1 <= pos.path < n && pos.bucket == HighBit(n)
    requires at[pos] in size && size[at[pos]].n != n
    requires p == Child(at[pos], Step(pos.path, n) - 2 * pos.path)
    requires NoneAbove(at, size, pos, n)
    ensures var pos' := Pos(pos.bucket, Step(pos.path, n));
      && p in cell && cell[p] == PtrAt(at, pos')
      && (pos' !in at ==> FreeSpot(at, pos') && SlotOf(at, pos') == p && LargeRing(n) !in rings)
      && NoneAbove(at, size, pos', n)
  {
    hide Shape; hide Prefix; hide HighBit; hide Cells; hide SlotOf;
    var pos' := Pos(pos.bucket, Step(pos.path, n));
    ChildCell(at, posOf, rings, size, cell, parent, pos, pos', p);
    forall q | q in at && at[q] in size && size[at[q]].n == n && q.bucket == pos.bucket
      ensures pos'.path <= q.path && pos' in at
    {
      NodeBeyond(rings, at, posOf, size, q, pos.path, n);
    }
    if pos' !in at && LargeRing(n) in rings {
      LargeRingsOfBucket(rings, at, posOf, size, n);
      assert false;
    }
  }

  /** Nodes of size `n` are not above `pos`. */
  ghost predicate NoneAbove(at: map<Pos, Addr>, size: map<Addr, Tag>, pos: Pos, n: nat) {
    forall q :: q in at && at[q] in size && size[at[q]].n == n && q.bucket == pos.bucket ==> pos.path <= q.path
  }

  lemma ChildCell(at: map<Pos, Addr>, posOf: map<Addr, Pos>, rings: Lists, size: map<Addr, Tag>,
                  cell: map<Slot, Ptr>, parent: map<Addr, Parent>, pos: Pos, pos': Pos, p: Slot)
    requires Shape(at, posOf, rings, size) && Cells(at, cell, parent) && pos in at
    requires pos'.bucket == pos.bucket && pos'.path / 2 == pos.path && pos.path >= 1
    requires p == Child(at[pos], pos'.path - 2 * pos.path)
    ensures p in cell && cell[p] == PtrAt(at, pos')
    ensures pos' !in at ==> FreeSpot(at, pos') && SlotOf(at, pos') == p
  {
    hide Prefix; hide HighBit;
    assert ShapeAt(at, posOf, rings, size, pos);
    CellsHold(at, cell, parent, pos);
    hide Shape; hide Cells;
    assert pos'.path == 2 * pos.path + pos'.path % 2;
  }

  lemma BucketRoot(at: map<Pos, Addr>, cell: map<Slot, Ptr>, parent: map<Addr, Parent>, i: nat)
    requires Cells(at, cell, parent) && i < NUM_BUCKETS
    ensures Bucket(i) in cell && cell[Bucket(i)] == PtrAt(at, Pos(i, 1))
  {
    assert BucketAt(at, cell, i);
  }

  // ---- the empty free lists ----

  ghost function InitRings(): Lists {
    map k | k in (set i | 0 <= i < NUM_BUCKETS :: SmallRing(i)) + (set i | 0 <= i < NUM_BUCKETS :: CacheChain(i)) + {RestRing}
      :: InitRing(k)
  }

  ghost function InitRing(k: Key): seq<Ptr> {
    match k
    case SmallRing(i) => [SmallHead(i)]
    case RestRing => [RestHead]
    case _ => []
  }

  ghost function InitView(): View {
    View(seq(NUM_BUCKETS, _ => Null), InitRings(),
         (map e | e in (set i | 0 <= i < NUM_BUCKETS :: SmallHead(i)) :: SmallRing(e.index))[RestHead := RestRing], map[], map[])
  }

  lemma EmptyAtFirst(i: nat)
    requires i < NUM_BUCKETS
    ensures SmallRing(i) in InitView().rings && |InitView().rings[SmallRing(i)]| == 1
  {
  }

  lemma ExactAtFirst()
    ensures BitsExact(0, InitView().rings)
  {
    forall i: nat
      ensures Shows(0, InitView().rings, i)
    {
      ZeroHasNoBit(i);
    }
  }

  lemma KeptExact(bits: nat, rings: Lists, bits': nat, rings': Lists)
    requires BitsExact(bits, rings) && KeptBits(bits, rings, bits', rings')
    ensures BitsExact(bits', rings')
  {
    hide Shows;
  }

  ghost predicate SelfLinked(next: Words, prev: Words, e: Ptr) {
    e in next && next[e] == e && e in prev && prev[e] == e
  }

  lemma InitOk(next: Words, prev: Words, parent: map<Addr, Parent>, cell: map<Slot, Ptr>, size: map<Addr, Tag>)
    requires forall i :: 0 <= i < NUM_BUCKETS ==> SelfLinked(next, prev, SmallHead(i))
    requires forall i :: 0 <= i < NUM_BUCKETS ==> Bucket(i) in cell && cell[Bucket(i)] == Null
    requires SelfLinked(next, prev, RestHead)
    ensures ViewOk(next, prev, parent, cell, 0, 0, InitView(), size)
    ensures RestRing in InitView().rings && InitView().rings[RestRing] == [RestHead] && |InitView().heads| == NUM_BUCKETS
    ensures FreeAddrs(InitView().owner) == {} && CachedAddrs(InitView().owner) == {}
  {
    hide ListsOk; hide Kinds; hide BitsOk; hide Cells;
    hide InitRings;
    InitLists(next, prev);
    InitKinds(size);
    InitCells(parent, cell);
    InitBits();
  }

  lemma InitLists(next: Words, prev: Words)
    requires forall i :: 0 <= i < NUM_BUCKETS ==> SelfLinked(next, prev, SmallHead(i))
    requires SelfLinked(next, prev, RestHead)
    ensures var v := InitView();
      ListsOk(next, prev, v.heads, v.rings, v.owner)
  {
    hide Owned; hide Linked; hide SelfLinked; hide Chained;
    InitOwned();
    EmptyChain(prev);
    var v := InitView();
    forall k | k in v.rings && !k.CacheChain?
      ensures Linked(next, prev, v.rings[k])
    {
      OneRing(next, prev, if k.SmallRing? then SmallHead(k.index) else RestHead);
    }
    assert AllChained(prev, v.heads, v.rings);
  }

  lemma OneRing(next: Words, prev: Words, e: Ptr)
    requires SelfLinked(next, prev, e)
    ensures Linked(next, prev, [e])
  {
  }

  lemma EmptyChain(prev: Words)
    ensures Chained(prev, Null, [])
  {
  }

  lemma InitOwned()
    ensures Owned(InitView().rings, InitView().owner)
  {
    var v := InitView();
    forall e | e in v.owner
      ensures v.owner[e] in v.rings && e in v.rings[v.owner[e]]
    {
      if e.SmallHead? {
        assert v.rings[SmallRing(e.index)] == [e];
      } else {
        assert v.rings[RestRing] == [e];
      }
    }
  }

  lemma InitKinds(size: map<Addr, Tag>)
    ensures Kinds(InitView().rings, size)
    ensures Shape(InitView().at, InitView().posOf, InitView().rings, size)
    ensures RestRing in InitView().rings && InitView().rings[RestRing] == [RestHead] && |InitView().heads| == NUM_BUCKETS
  {
  }

  lemma InitCells(parent: map<Addr, Parent>, cell: map<Slot, Ptr>)
    requires forall i :: 0 <= i < NUM_BUCKETS ==> Bucket(i) in cell && cell[Bucket(i)] == Null
    ensures Cells(InitView().at, cell, parent)
  {
  }

  lemma InitBits()
    ensures BitsOk(0, 0, InitView().rings, InitView().at)
  {
    forall i: nat
      ensures !Bit(0, i)
    {
      ZeroHasNoBit(i);
    }
  }

  // ---- headers of blocks outside the lists ----

  /** The words of the lists do not depend on the headers of other blocks. */
  lemma ViewFrame(next: Words, prev: Words, parent: map<Addr, Parent>, cell: map<Slot, Ptr>,
                  freeBitmap: nat, largeBitmap: nat, v: View, size: map<Addr, Tag>, size': map<Addr, Tag>)
    requires ViewOk(next, prev, parent, cell, freeBitmap, largeBitmap, v, size)
    requires SameSizes(v.owner, size, size')
    ensures ViewOk(next, prev, parent, cell, freeBitmap, largeBitmap, v, size')
    ensures RestRing in v.rings && CountLarge(v.rings[RestRing], size') == CountLarge(v.rings[RestRing], size)
  {
    hide BitsOk; hide Cells; hide KindOk; hide MarkOk;
    hide ListsOk;
    hide Shape; hide SameSizes; hide CountLarge;
    OwnedByLists(next, prev, v.heads, v.rings, v.owner);
    assert ListsSized(v.rings, size, size') by {
      ListsSizedOk(next, prev, v, size, size');
    }
    forall k | k in v.rings
      ensures KindOk(k, v.rings[k], size') && MarkOk(k, v.rings[k], parent, size')
    {
      assert KindOk(k, v.rings[k], size) && MarkOk(k, v.rings[k], parent, size);
      KindFrame(k, v.rings[k], parent, size, size');
    }
    ShapeFrame(v, size, size');
    RestSized(v.rings[RestRing], size);
    CountFrame(v.rings[RestRing], size, size');
  }

  ghost predicate SameSizes(owner: Owners, size: map<Addr, Tag>, size': map<Addr, Tag>) {
    forall a :: Block(a) in owner && a in size ==> a in size' && size'[a] == size[a]
  }

  ghost predicate ListSized(c: seq<Ptr>, size: map<Addr, Tag>, size': map<Addr, Tag>) {
    forall j :: 0 <= j < |c| && c[j].Block? && c[j].addr in size ==> c[j].addr in size' && size'[c[j].addr] == size[c[j].addr]
  }

  ghost predicate ListsSized(rings: Lists, size: map<Addr, Tag>, size': map<Addr, Tag>) {
    forall k :: k in rings ==> ListSized(rings[k], size, size')
  }

  lemma ListsSizedOk(next: Words, prev: Words, v: View, size: map<Addr, Tag>, size': map<Addr, Tag>)
    requires Owned(v.rings, v.owner) && SameSizes(v.owner, size, size')
    ensures ListsSized(v.rings, size, size')
  {
    forall k, j | k in v.rings && 0 <= j < |v.rings[k]|
      ensures v.rings[k][j] in v.owner
    {
    }
  }

  lemma KindFrame(k: Key, c: seq<Ptr>, parent: map<Addr, Parent>, size: map<Addr, Tag>, size': map<Addr, Tag>)
    requires KindOk(k, c, size) && MarkOk(k, c, parent, size) && ListSized(c, size, size')
    ensures KindOk(k, c, size') && MarkOk(k, c, parent, size')
  {
  }

  lemma {:induction false} CountFrame(c: seq<Ptr>, size: map<Addr, Tag>, size': map<Addr, Tag>)
    requires ListSized(c, size, size')
    requires forall j :: 0 <= j < |c| && c[j].Block? ==> c[j].addr in size
    ensures CountLarge(c, size') == CountLarge(c, size)
  {
    if c != [] {
      assert ListSized(c[1..], size, size');
      CountFrame(c[1..], size, size');
    }
  }

  lemma RestSized(c: seq<Ptr>, size: map<Addr, Tag>)
    requires KindOk(RestRing, c, size)
    ensures forall j :: 0 <= j < |c| && c[j].Block? ==> c[j].addr in size
  {
    assert forall j :: 1 <= j < |c| ==> ValidBlock(c[j], size);
  }

  lemma ShapeFrame(v: View, size: map<Addr, Tag>, size': map<Addr, Tag>)
    requires Shape(v.at, v.posOf, v.rings, size) && ListsSized(v.rings, size, size')
    ensures Shape(v.at, v.posOf, v.rings, size')
  {
    forall p | p in v.at
      ensures ShapeAt(v.at, v.posOf, v.rings, size', p)
    {
      assert ShapeAt(v.at, v.posOf, v.rings, size, p);
      assert ListSized(v.rings[LargeRing(size[v.at[p]].n)], size, size');
    }
    forall s | LargeRing(s) in v.rings
      ensures HeadPlaced(v.posOf, v.rings, size', s)
    {
      assert HeadPlaced(v.posOf, v.rings, size, s);
      assert ListSized(v.rings[LargeRing(s)], size, size');
    }
  }
}
