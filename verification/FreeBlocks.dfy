/** The free lists of a heap: zend_alloc.c:723-905. */
module FreeBlocks {
  import opened Bits
  import opened Sequences
  import opened Sizes
  import opened Tags
  import opened Rings
  import opened LargeTrie
  import opened Memory
  import opened FreeListSpec
  import opened FreeListSteps
  import opened LargeSearch

  class FreeLists {
    // link words, by the block (or list head) they belong to
    var next: Words
    var prev: Words
    var parent: map<Addr, Parent>
    var cell: map<Slot, Ptr>
    var freeBitmap: nat
    var largeBitmap: nat
    var restCount: nat
    // the bytes that clients have in memory, as far as they are known
    var data: Data
    // what the words mean
    ghost var view: View

    ghost predicate Valid(size: map<Addr, Tag>)
      reads this
    {
      && ViewOk(next, prev, parent, cell, freeBitmap, largeBitmap, view, size)
      && |view.heads| == NUM_BUCKETS && RestRing in view.rings
      && restCount == CountLarge(view.rings[RestRing], size)
      && LinksApart(next, prev, parent, cell, data)
    }

    ghost function Stored(): Store
      reads this
    {
      Store(next, prev, parent, cell, data)
    }

    ghost predicate IsFree(b: Addr)
      reads this
    {
      Block(b) in view.owner && !view.owner[Block(b)].CacheChain?
    }

    /** Headers of blocks outside the lists do not matter. */
    lemma ValidFrame(size: map<Addr, Tag>, size': map<Addr, Tag>)
      requires Valid(size) && SameSizes(view.owner, size, size')
      ensures Valid(size')
    {
      hide ViewOk; hide CountLarge; hide LinksApart; hide SameSizes;
      ViewFrame(next, prev, parent, cell, freeBitmap, largeBitmap, view, size, size');
    }

    /** The bitmap shows only buckets that hold blocks. */
    lemma ShownHold(size: map<Addr, Tag>, i: nat)
      requires Valid(size)
      ensures forall x: nat :: Bit(freeBitmap, x) ==> SmallCount(view.rings, x) >= 2
      ensures i < NUM_BUCKETS ==> SmallRing(i) in view.rings && |view.rings[SmallRing(i)]| >= 1
      ensures RestRing in view.rings && |view.rings[RestRing]| >= 1
    {
      hide ListsOk; hide Cells; hide Marks; hide Shape; hide CountLarge; hide LinksApart; hide Bit;
      ListFacts(view.rings, size, RestRing);
      if i < NUM_BUCKETS {
        ListFacts(view.rings, size, SmallRing(i));
      }
    }

    /** Small blocks go to the front of their bucket's ring. */
    method AddSmall(size: map<Addr, Tag>, b: Addr)
      requires Valid(size) && Block(b) !in view.owner
      requires b in size && ValidBlockSize(size[b].n) && SmallSize(size[b].n)
      modifies this
      ensures Valid(size)
      ensures view.owner == old(view).owner[Block(b) := SmallRing(BucketIndex(size[b].n))] && SameCache(old(view), view) &&
        SameRest(old(view), view)
      ensures var i := BucketIndex(size[b].n);
        i >= 0 && SmallRing(i) in old(view).rings && |old(view).rings[SmallRing(i)]| > 0 &&
        view == PutAt(old(view), SmallRing(i), 0, Block(b))
      ensures KeptBits(old(freeBitmap), old(view).rings, freeBitmap, view.rings)
      ensures var i := BucketIndex(size[b].n); |old(view).rings[SmallRing(i)]| == 1 ==> Bit(freeBitmap, i)
      ensures Untouched(old(Stored()), Stored(), old(view).owner, size, b)
    {
      hide ViewOk; hide CountLarge; hide LinksApart; hide Untouched; hide SetBit; hide Bit; hide Shows;
      SmallSizesAreClasses(size[b].n);
      var index := BucketIndex(size[b].n);
      ghost var bits, v := freeBitmap, view;
      ShownHold(size, index);
      var wasEmpty := LinkSmall(size, b, index);
      AddedBits(bits, v.rings, view.rings, index, wasEmpty);
      SetBitSpec(bits, index, index);
    }

    method LinkSmall(size: map<Addr, Tag>, b: Addr, index: nat) returns (wasEmpty: bool)
      requires Valid(size) && Block(b) !in view.owner
      requires b in size && ValidBlockSize(size[b].n) && SmallSize(size[b].n)
      requires index == BucketIndex(size[b].n) && index < NUM_BUCKETS && size[b].n == ClassSize(index)
      modifies this
      ensures Valid(size)
      ensures SmallRing(index) in old(view).rings && |old(view).rings[SmallRing(index)]| > 0
      ensures view == PutAt(old(view), SmallRing(index), 0, Block(b)) && SameCache(old(view), view) && SameRest(old(view), view)
      ensures wasEmpty <==> |old(view).rings[SmallRing(index)]| == 1
      ensures freeBitmap == if wasEmpty then SetBit(old(freeBitmap), index) else old(freeBitmap)
      ensures Untouched(old(Stored()), Stored(), old(view).owner, size, b)
    {
      hide ViewOk; hide CountLarge; hide LinksApart; hide MayWrite; hide Untouched;
      hide NotLinks; hide SetBit; hide Bit; hide AddrOf; hide ValidBlockSize; hide SameCache;
      var e, head := Block(b), SmallHead(index);
      wasEmpty := head in prev && prev[head] == head;
      AddSmallStep(next, prev, parent, cell, freeBitmap, largeBitmap, view, size, index, b, wasEmpty);
      if prev[head] == head {
        freeBitmap := SetBit(freeBitmap, index);
      }
      ghost var s := Stored();
      var n := next[head];
      prev := prev[e := head];
      next := next[e := n];
      next := next[head := e];
      prev := prev[n := e];
      data := NotLinks(data, next, prev, parent, cell);
      PutAtKeeps(view, SmallRing(index), 0, e);
      JoinStores(s, Stored(), view.owner, size, b, head, {b} + AddrOf(n));
      view := PutAt(view, SmallRing(index), 0, e);
    }

    /** The loop of zend_alloc.c:746-766: down the bits of the size until the size itself
        or an empty cell is met, in at most `index` steps. */
    method Descend(size: map<Addr, Tag>, n: nat, index: nat) returns (p: Slot, ghost pos: Pos)
      requires Valid(size) && 0 < n < WORD && index == HighBit(n) && Pos(index, 1) in view.at
      ensures p in cell && pos.bucket == index && Prefix(pos.path, n)
      ensures cell[p].Null? ==> FreeSpot(view.at, pos) && SlotOf(view.at, pos) == p && LargeRing(n) !in view.rings && pos.path > 1
      ensures !cell[p].Null? ==>
        pos in view.at && cell[p] == Block(view.at[pos]) && view.at[pos] in size && size[view.at[pos]].n == n
    {
      hide ViewOk; hide CountLarge; hide LinksApart; hide Shape; hide Cells; hide Shifted; hide Prefix; hide HighBit;
      hide NoneAbove; hide FreeSpot; hide Step; hide TopBit; hide ShiftedOn; hide ShiftRegister;
      TrieOf(size);
      RegisterStart(n);
      p := Bucket(index);
      pos := Pos(index, 1);
      AtRoot(size, n, index);
      ghost var k := index;
      var m := ShiftRegister(n, index);
      while true
        invariant pos in view.at && pos.bucket == index && Prefix(pos.path, n) && pos.path >= 1
        invariant p in cell && cell[p] == Block(view.at[pos])
        invariant Shifted(m, pos.path, n, k)
        invariant NoneAbove(view.at, size, pos, n)
        decreases k
      {
        NodeSize(view.at, view.posOf, view.rings, size, pos, n);
        var node := cell[p].addr;
        if size[node].n == n {
          return;
        }
        RegisterStep(m, pos.path, n, k);
        p := Child(node, TopBit(m));
        DescendStep(view.at, view.posOf, view.rings, size, cell, parent, pos, n, p);
        pos := Pos(index, Step(pos.path, n));
        if cell[p] == Null {
          return;
        }
        m, k := ShiftedOn(m), k - 1;
      }
    }

    lemma TrieOf(size: map<Addr, Tag>)
      requires Valid(size)
      ensures Shape(view.at, view.posOf, view.rings, size) && Cells(view.at, cell, parent)
    {
      hide ListsOk; hide Kinds; hide Marks; hide BitsOk; hide CountLarge; hide LinksApart; hide Shape; hide Cells;
    }

    /** Where the descent starts. */
    lemma AtRoot(size: map<Addr, Tag>, n: nat, index: nat)
      requires Valid(size) && 0 < n < WORD && index == HighBit(n) && Pos(index, 1) in view.at
      ensures Bucket(index) in cell && cell[Bucket(index)] == Block(view.at[Pos(index, 1)])
      ensures Prefix(1, n) && NoneAbove(view.at, size, Pos(index, 1), n)
    {
      hide ViewOk; hide CountLarge; hide LinksApart; hide Cells; hide Prefix; hide HighBit;
      hide Shape;
      TrieOf(size);
      ShapeIsClosed(view.at, view.posOf, view.rings, size);
      RootPrefix(n);
      SlotHolds(view.at, view.posOf, cell, parent, Pos(index, 1));
    }

    /** Large blocks go into the trie of their leading one: as a new leaf, or as a ring
        mate of the node that has their size. */
    method AddLarge(size: map<Addr, Tag>, b: Addr)
      requires Valid(size) && Block(b) !in view.owner
      requires b in size && ValidBlockSize(size[b].n) && size[b].n < WORD && !SmallSize(size[b].n)
      modifies this
      ensures Valid(size)
      ensures view.owner == old(view).owner[Block(b) := LargeRing(size[b].n)] && SameCache(old(view), view) && SameRest(old(view), view)
      ensures SameSmall(old(view).rings, view.rings) && freeBitmap == old(freeBitmap)
      ensures PutIn(old(view), view, b, size[b].n)
      ensures Untouched(old(Stored()), Stored(), old(view).owner, size, b)
    {
      hide CountLarge; hide LinksApart; hide Untouched; hide SetBit; hide HighBit;
      hide ListsOk; hide Kinds; hide Marks; hide BitsOk; hide Shape;
      hide Cells;
      var n := size[b].n;
      var index := ZendMmHighBit(n);
      BucketRoot(view.at, cell, parent, index);
      if cell[Bucket(index)] == Null {
        ghost var pos := Pos(index, 1);
        RootPrefix(n);
        EmptyBucket(view.rings, view.at, view.posOf, size, n);
        LinkLeaf(size, b, Bucket(index), pos);
        largeBitmap := SetBit(largeBitmap, index);
      } else {
        var p, pos := Descend(size, n, index);
        if cell[p] == Null {
          LinkLeaf(size, b, p, pos);
        } else {
          LinkMate(size, b, cell[p].addr, pos);
        }
      }
    }

    /** `*p = mm_block`, a ring of its own. The bucket bit is the caller's. */
    method LinkLeaf(size: map<Addr, Tag>, b: Addr, p: Slot, ghost pos: Pos)
      requires Valid(size) && Block(b) !in view.owner
      requires b in size && ValidBlockSize(size[b].n) && size[b].n < WORD && !SmallSize(size[b].n)
      requires FreeSpot(view.at, pos) && SlotOf(view.at, pos) == p
      requires Prefix(pos.path, size[b].n) && pos.bucket == HighBit(size[b].n)
      requires LargeRing(size[b].n) !in view.rings
      modifies this
      ensures ViewOk(next, prev, parent, cell, freeBitmap, if pos.path == 1 then SetBit(largeBitmap, pos.bucket) else largeBitmap, view, size)
      ensures largeBitmap == old(largeBitmap) && restCount == CountLarge(view.rings[RestRing], size) &&
        LinksApart(next, prev, parent, cell, data)
      ensures view.owner == old(view).owner[Block(b) := LargeRing(size[b].n)] && SameCache(old(view), view) && SameRest(old(view), view)
      ensures SameSmall(old(view).rings, view.rings) && freeBitmap == old(freeBitmap)
      ensures view == PutLeaf(old(view), size[b].n, pos, b)
      ensures Untouched(old(Stored()), Stored(), old(view).owner, size, b)
    {
      hide ViewOk; hide CountLarge; hide LinksApart; hide MayWrite; hide Untouched; hide NotLinks; hide SetBit;
      hide FreeSpot; hide Prefix; hide HighBit; hide SlotOf;
      AddLeafStep(next, prev, parent, cell, freeBitmap, largeBitmap, view, size, b, pos);
      ghost var s := Stored();
      var e := Block(b);
      cell := cell[Child(b, 0) := Null][Child(b, 1) := Null];
      cell := cell[p := e];
      parent := parent[b := At(p)];
      prev := prev[e := e];
      next := next[e := e];
      data := NotLinks(data, next, prev, parent, cell);
      LeafStores(s, Stored(), view.owner, size, b, p, {b} + SlotAddr(p));
      view := PutLeaf(view, size[b].n, pos, b);
    }

    /** The block joins the ring of node `node`, right behind it. */
    method LinkMate(size: map<Addr, Tag>, b: Addr, node: Addr, ghost pos: Pos)
      requires Valid(size) && Block(b) !in view.owner
      requires b in size && pos in view.at && view.at[pos] == node && node in size && size[node].n == size[b].n
      modifies this
      ensures Valid(size)
      ensures view.owner == old(view).owner[Block(b) := LargeRing(size[b].n)] && SameCache(old(view), view) && SameRest(old(view), view)
      ensures SameSmall(old(view).rings, view.rings) && freeBitmap == old(freeBitmap)
      ensures var k := LargeRing(size[b].n);
        k in old(view).rings && |old(view).rings[k]| > 0 && view == PutAt(old(view), k, 0, Block(b))
      ensures Untouched(old(Stored()), Stored(), old(view).owner, size, b)
    {
      hide ViewOk; hide CountLarge; hide LinksApart; hide MayWrite; hide Untouched; hide NotLinks;
      AddMateStep(next, prev, parent, cell, freeBitmap, largeBitmap, view, size, b, pos);
      ghost var s := Stored();
      var e, h := Block(b), Block(node);
      cell := cell[Child(b, 0) := Null][Child(b, 1) := Null];
      var n := next[h];
      next := next[e := n][h := e];
      prev := prev[e := h][n := e];
      parent := parent[b := NoParent];
      data := NotLinks(data, next, prev, parent, cell);
      JoinStores(s, Stored(), view.owner, size, b, h, {b, node} + AddrOf(n));
      view := PutAt(view, LargeRing(size[b].n), 0, e);
    }

    /** zend_mm_add_to_free_list. */
    method AddToFreeList(size: map<Addr, Tag>, b: Addr)
      requires Valid(size) && Block(b) !in view.owner
      requires b in size && ValidBlockSize(size[b].n) && size[b].n < WORD
      modifies this
      ensures Valid(size)
      ensures view.owner == old(view).owner[Block(b) := ListKey(size[b].n)] && SameCache(old(view), view) && SameRest(old(view), view)
      ensures restCount == old(restCount)
      ensures var i := BucketIndex(size[b].n);
        SmallSize(size[b].n) && i >= 0 && SmallRing(i) in old(view).rings && |old(view).rings[SmallRing(i)]| == 1 ==>
          Bit(freeBitmap, i)
      ensures Untouched(old(Stored()), Stored(), old(view).owner, size, b)
      ensures KeptBits(old(freeBitmap), old(view).rings, freeBitmap, view.rings)
      ensures PutIn(old(view), view, b, size[b].n)
    {
      hide ViewOk; hide CountLarge; hide LinksApart; hide Untouched; hide SameCache; hide Bit;
      if !SmallSize(size[b].n) {
        AddLarge(size, b);
      } else {
        AddSmall(size, b);
      }
    }

    /** `subst_block`: block `x` takes the place of trie node `b`; the checks of
        ZEND_MM_CHECK_TREE do not fail. */
    method TakeOver(b: Addr, x: Addr, ghost slot: Slot)
      requires TakeOverFacts(cell, parent, slot, b, x)
      modifies this`cell, this`parent
      ensures cell == TakeOverCells(old(cell), slot, b, x)
      ensures parent == TakeOverParents(old(cell), old(parent), slot, b, x)
    {
      var p := parent[b].slot;
      if cell[p] != Block(b) {
        assert false; // zend_mm_panic
      }
      cell := cell[p := Block(x)];
      parent := parent[x := parent[b]];
      TakeOverSide(b, x, 0);
      TakeOverSide(b, x, 1);
    }

    /** `if ((x->child[side] = b->child[side]))` and its consequence. */
    method TakeOverSide(b: Addr, x: Addr, side: nat)
      requires x != b && Child(b, side) in cell && ChildFacts(cell, parent, b, side)
      modifies this`cell, this`parent
      ensures cell == old(cell)[Child(x, side) := old(cell)[Child(b, side)]]
      ensures parent == Reparent(old(parent), old(cell)[Child(b, side)], Child(x, side))
    {
      var c := cell[Child(b, side)];
      cell := cell[Child(x, side) := c];
      if c != Null {
        var at := parent[c.addr];
        if !at.At? || cell[at.slot] != c {
          assert false; // zend_mm_panic
        }
        parent := parent[c.addr := At(Child(x, side))];
      }
    }

    /** The loop of zend_alloc.c:810-813: down to a leaf, to the right where there is a right. */
    method DeepestLeaf(size: map<Addr, Tag>, b: Addr, ghost p: Pos) returns (rp: Slot, leaf: Addr, ghost q: Pos)
      requires Valid(size) && p in view.at && view.at[p] == b
      requires Child(b, 0) in cell && Child(b, 1) in cell && (cell[Child(b, 0)] != Null || cell[Child(b, 1)] != Null)
      ensures RightmostLeaf(view.at, p, q)
      ensures view.at[q] == leaf && (q.path > 1 ==> Pos(q.bucket, q.path / 2) in view.at) && SlotOf(view.at, q) == rp
      ensures rp in cell
    {
      hide ViewOk; hide CountLarge; hide LinksApart; hide KeepsRight;
      ChildDown(next, prev, parent, cell, freeBitmap, largeBitmap, view, size, p, 0);
      ChildDown(next, prev, parent, cell, freeBitmap, largeBitmap, view, size, p, 1);
      var side := if cell[Child(b, 1)] != Null then 1 else 0;
      rp := Child(b, side);
      leaf := cell[rp].addr;
      q := Pos(p.bucket, 2 * p.path + side);
      RightStarts(view.at, p);
      FurtherRight(view.at, p, p.path, side);
      while true
        invariant q in view.at && view.at[q] == leaf && q.bucket == p.bucket && q.path < WORD
        invariant KeepsRight(view.at, p, q.path)
        invariant q.path > 1 ==> Pos(q.bucket, q.path / 2) in view.at
        invariant p.path < q.path && Prefix(p.path, q.path) && SlotOf(view.at, q) == rp && rp in cell
        decreases WORD - q.path
      {
        ChildDown(next, prev, parent, cell, freeBitmap, largeBitmap, view, size, q, 0);
        ChildDown(next, prev, parent, cell, freeBitmap, largeBitmap, view, size, q, 1);
        side := if cell[Child(leaf, 1)] != Null then 1 else 0;
        var cp := Child(leaf, side);
        if cell[cp] == Null {
          return;
        }
        ghost var q' := Pos(q.bucket, 2 * q.path + side);
        PrefixTrans(p.path, q.path, q'.path);
        FurtherRight(view.at, p, q.path, side);
        leaf, rp, q := cell[cp].addr, cp, q';
      }
    }

    /** The removal of a block that is alone in its ring: zend_alloc.c:800-828. */
    method RemoveLone(size: map<Addr, Tag>, b: Addr)
      requires Valid(size) && IsFree(b) && Block(b) in prev && prev[Block(b)] == Block(b)
      modifies this
      ensures Valid(size)
      ensures view.owner == old(view).owner - {Block(b)} && SameCache(old(view), view) && SameRest(old(view), view)
      ensures SameSmall(old(view).rings, view.rings) && freeBitmap == old(freeBitmap)
      ensures NodeOut(old(view), view, size, b)
      ensures Untouched(old(Stored()), Stored(), old(view).owner, size, b)
    {
      hide ViewOk; hide CountLarge; hide LinksApart; hide NodeAlone; hide NodeOut; hide RightmostLeaf; hide NodeGone; hide LeafMoved;
      hide MayWrite; hide Untouched; hide HighBit;
      AloneIsNode(next, prev, parent, cell, freeBitmap, largeBitmap, view, size, b);
      if next[Block(b)] != Block(b) {
        assert false; // zend_mm_panic
      }
      ghost var p, v := view.posOf[b], view;
      ChildDown(next, prev, parent, cell, freeBitmap, largeBitmap, view, size, p, 0);
      ChildDown(next, prev, parent, cell, freeBitmap, largeBitmap, view, size, p, 1);
      var side := if cell[Child(b, 1)] != Null then 1 else 0;
      if cell[Child(b, side)] == Null {
        RemoveLeafNode(size, b, p);
      } else {
        RemoveInnerNode(size, b, p);
      }
      LoneOut(v, view, size, b, p);
    }

    method RemoveLeafNode(size: map<Addr, Tag>, b: Addr, ghost p: Pos)
      requires Valid(size) && IsLeaf(view.at, p) && view.at[p] == b && NodeAlone(view, size, p)
      modifies this
      ensures Valid(size)
      ensures view.owner == old(view).owner - {Block(b)} && SameCache(old(view), view) && SameRest(old(view), view)
      ensures SameSmall(old(view).rings, view.rings) && freeBitmap == old(freeBitmap)
      ensures view == NodeGone(old(view), size, p)
      ensures Untouched(old(Stored()), Stored(), old(view).owner, size, b)
    {
      hide ViewOk; hide CountLarge; hide LinksApart; hide MayWrite; hide Untouched; hide NotLinks; hide HighBit; hide ClearBit;
      LeafParent(next, prev, parent, cell, freeBitmap, largeBitmap, view, size, p);
      LeafGoneStep(next, prev, parent, cell, freeBitmap, largeBitmap, view, size, p);
      ghost var s := Stored();
      var index := ZendMmHighBit(size[b].n);
      var slot := parent[b].slot;
      if cell[slot] != Block(b) {
        assert false; // zend_mm_panic
      }
      cell := cell[slot := Null];
      if slot == Bucket(index) {
        largeBitmap := ClearBit(largeBitmap, index);
      }
      data := NotLinks(data, next, prev, parent, cell);
      StoredUntouched(s, Stored(), view.owner, size, b, SlotAddr(slot));
      view := NodeGone(view, size, p);
    }

    method RemoveInnerNode(size: map<Addr, Tag>, b: Addr, ghost p: Pos)
      requires Valid(size) && p in view.at && view.at[p] == b && NodeAlone(view, size, p)
      requires Child(b, 0) in cell && Child(b, 1) in cell && (cell[Child(b, 0)] != Null || cell[Child(b, 1)] != Null)
      modifies this
      ensures Valid(size)
      ensures view.owner == old(view).owner - {Block(b)} && SameCache(old(view), view) && SameRest(old(view), view)
      ensures SameSmall(old(view).rings, view.rings) && freeBitmap == old(freeBitmap)
      ensures exists q :: RightmostLeaf(old(view).at, p, q) && view == LeafMoved(old(view), size, p, q)
      ensures Untouched(old(Stored()), Stored(), old(view).owner, size, b)
    {
      hide ViewOk; hide CountLarge; hide LinksApart; hide MayWrite;
      hide Untouched; hide NotLinks; hide TakeOverFacts; hide TakeOverWrites;
      hide TakeOverCells; hide TakeOverParents; hide Prefix; hide SlotOf;
      var rp, leaf, q := DeepestLeaf(size, b, p);
      InnerGoneStep(next, prev, parent, cell, freeBitmap, largeBitmap, view, size, p, q);
      ghost var slot := SlotOf(view.at, p);
      ghost var s := Stored();
      cell := cell[rp := Null];
      ghost var written, s1 := SlotAddr(rp) + TakeOverWrites(cell, slot, b, leaf), Stored();
      TakeOver(b, leaf, slot);
      data := NotLinks(data, next, prev, parent, cell);
      LeafMovedStores(s, s1, Stored(), slot, rp, b, leaf);
      StoredUntouched(s, Stored(), view.owner, size, b, written);
      view := LeafMoved(view, size, p, q);
    }

    /** Unlinks a block from its ring; the safe-unlinking checks do not fail. */
    method Unlink(b: Addr, ghost k: Key)
      requires UnlinkFacts(next, prev, view, k, Block(b))
      modifies this`next, this`prev
      ensures next == old(next)[old(prev)[Block(b)] := old(next)[Block(b)]]
      ensures prev == old(prev)[old(next)[Block(b)] := old(prev)[Block(b)]]
    {
      var e := Block(b);
      var pv, nx := prev[e], next[e];
      if next[pv] != e || prev[nx] != e {
        assert false; // zend_mm_panic
      }
      next := next[pv := nx];
      prev := prev[nx := pv];
    }

    /** A small block, in its bucket's ring or in the rest ring. */
    method RemoveSmall(size: map<Addr, Tag>, b: Addr, ghost k: Key, ghost j: nat)
      requires Valid(size) && k in view.rings && 1 <= j < |view.rings[k]| && view.rings[k][j] == Block(b)
      requires b in size && ValidBlockSize(size[b].n) && SmallSize(size[b].n) && (k == RestRing || k == SmallRing(BucketIndex(size[b].n)))
      modifies this
      ensures Valid(size)
      ensures view == TakeAt(old(view), k, Remove(old(view).rings[k], j), b) && SameCache(old(view), view)
      ensures BucketIndex(size[b].n) >= 0 && freeBitmap == BitsAfterRemoval(old(freeBitmap), old(view).rings, k, j, BucketIndex(size[b].n))
      ensures Untouched(old(Stored()), Stored(), old(view).owner, size, b)
    {
      hide ViewOk; hide CountLarge; hide LinksApart; hide MayWrite; hide Untouched;
      hide NotLinks; hide ClearBit; hide Remove; hide BitsAfterRemoval; hide SameCache;
      SmallSizesAreClasses(size[b].n);
      var index := BucketIndex(size[b].n);
      var e, head := Block(b), SmallHead(index);
      var pv, nx := SmallUnlinkFacts(size, b, k, j, index);
      var freeBitmap' := freeBitmap;
      ghost var next0, prev0, s := next, prev, Stored();
      RestAfterRemove(size, k, j);
      Unlink(b, k);
      if pv == nx {
        if prev[head] == next[head] {
          freeBitmap' := ClearBit(freeBitmap, index);
        }
      }
      UnlinkStep(next0, prev0, parent, cell, freeBitmap, freeBitmap', largeBitmap, view, size, k, j, index);
      freeBitmap := freeBitmap';
      data := NotLinks(data, next, prev, parent, cell);
      TakeAtKeeps(view, k, Remove(view.rings[k], j), b);
      LeaveStores(s, Stored(), view.owner, size, b, pv, nx);
      view := TakeAt(view, k, Remove(view.rings[k], j), b);
    }

    /** What RemoveSmall reads before it unlinks. */
    method SmallUnlinkFacts(size: map<Addr, Tag>, b: Addr, ghost k: Key, ghost j: nat, index: nat) returns (pv: Ptr, nx: Ptr)
      requires Valid(size) && k in view.rings && 1 <= j < |view.rings[k]| && view.rings[k][j] == Block(b)
      requires index < NUM_BUCKETS && (k == RestRing || k == SmallRing(index))
      ensures UnlinkFacts(next, prev, view, k, Block(b))
      ensures pv == prev[Block(b)] && nx == next[Block(b)]
      ensures SmallHead(index) in prev && SmallHead(index) in next
      ensures k == SmallRing(index) && |view.rings[k]| == 2 ==> pv == nx == SmallHead(index)
      ensures SmallRing(index) in view.rings
      ensures var next', prev' := next[pv := nx], prev[nx := pv];
        BitsAfterRemoval(freeBitmap, view.rings, k, j, index)
        == if pv == nx && prev'[SmallHead(index)] == next'[SmallHead(index)] then ClearBit(freeBitmap, index) else freeBitmap
    {
      hide Cells; hide Marks; hide BitsOk; hide Shape; hide CountLarge; hide LinksApart; hide ListsOk; hide Kinds;
      ListFacts(view.rings, size, SmallRing(index));
      RingEnds(next, prev, view.heads, view.rings, view.owner, SmallRing(index));
      ListUnlink(next, prev, view.heads, view.rings, view.owner, k, j);
      pv, nx := prev[Block(b)], next[Block(b)];
      ListFacts(view.rings, size, k);
      BitsAfterIs(next, prev, next[pv := nx], prev[nx := pv], freeBitmap, view.heads, view.rings, view.owner, k, j, index);
    }

    lemma RestAfterRemove(size: map<Addr, Tag>, k: Key, j: nat)
      requires Valid(size) && k in view.rings && 1 <= j < |view.rings[k]| && view.rings[k][j].Block?
      requires view.rings[k][j].addr in size
      ensures RestRing in view.rings
      ensures var r := view.rings[k := Remove(view.rings[k], j)];
        CountLarge(r[RestRing], size)
        == restCount - (if k == RestRing && !SmallSize(size[view.rings[k][j].addr].n) then 1 else 0)
    {
      hide ListsOk; hide Cells; hide Marks; hide BitsOk; hide Shape;
      ListFacts(view.rings, size, RestRing);
      CountLargeRemove(view.rings[k], size, j);
    }

    /** A large block of the rest ring. */
    method RemoveRest(size: map<Addr, Tag>, b: Addr, ghost j: nat)
      requires Valid(size) && RestRing in view.rings && 1 <= j < |view.rings[RestRing]| && view.rings[RestRing][j] == Block(b)
      requires b in size && !SmallSize(size[b].n)
      modifies this
      ensures Valid(size)
      ensures view == TakeAt(old(view), RestRing, Remove(old(view).rings[RestRing], j), b) && SameCache(old(view), view)
      ensures restCount == old(restCount) - 1 && freeBitmap == old(freeBitmap)
      ensures Untouched(old(Stored()), Stored(), old(view).owner, size, b)
    {
      hide ViewOk; hide CountLarge; hide LinksApart; hide MayWrite; hide Untouched; hide NotLinks; hide Remove;
      UnlinkStep(next, prev, parent, cell, freeBitmap, freeBitmap, largeBitmap, view, size, RestRing, j, 0);
      RestAfterRemove(size, RestRing, j);
      ghost var s := Stored();
      Unlink(b, RestRing);
      data := NotLinks(data, next, prev, parent, cell);
      LeaveStores(s, Stored(), view.owner, size, b, s.prev[Block(b)], s.next[Block(b)]);
      restCount := restCount - 1;
      view := TakeAt(view, RestRing, Remove(view.rings[RestRing], j), b);
    }

    /** A large block that is a ring mate of a trie node. */
    method RemoveMate(size: map<Addr, Tag>, b: Addr, ghost k: Key, ghost j: nat)
      requires Valid(size) && k.LargeRing? && k in view.rings && 1 <= j < |view.rings[k]| && view.rings[k][j] == Block(b)
      requires b in size
      modifies this
      ensures Valid(size)
      ensures view.owner == old(view).owner - {Block(b)} && SameCache(old(view), view) && SameRest(old(view), view)
      ensures SameSmall(old(view).rings, view.rings) && freeBitmap == old(freeBitmap)
      ensures view == TakeAt(old(view), k, Remove(old(view).rings[k], j), b)
      ensures Untouched(old(Stored()), Stored(), old(view).owner, size, b)
    {
      hide ViewOk; hide CountLarge; hide LinksApart; hide MayWrite; hide Untouched; hide NotLinks; hide Remove;
      UnlinkStep(next, prev, parent, cell, freeBitmap, freeBitmap, largeBitmap, view, size, k, j, 0);
      RestAfterRemove(size, k, j);
      ghost var s := Stored();
      Unlink(b, k);
      data := NotLinks(data, next, prev, parent, cell);
      LeaveStores(s, Stored(), view.owner, size, b, s.prev[Block(b)], s.next[Block(b)]);
      view := TakeAt(view, k, Remove(view.rings[k], j), b);
    }

    /** A trie node with ring mates: its predecessor in the ring becomes the node. */
    method RemoveHead(size: map<Addr, Tag>, b: Addr, ghost p: Pos)
      requires Valid(size) && p in view.at && view.at[p] == b && b in size
      requires LargeRing(size[b].n) in view.rings && |view.rings[LargeRing(size[b].n)]| >= 2
      modifies this
      ensures Valid(size)
      ensures view.owner == old(view).owner - {Block(b)} && SameCache(old(view), view) && SameRest(old(view), view)
      ensures SameSmall(old(view).rings, view.rings) && freeBitmap == old(freeBitmap)
      ensures var c := old(view).rings[LargeRing(size[b].n)];
        c[|c| - 1].Block? && view == MateMoved(old(view), size, p, c[|c| - 1].addr)
      ensures Untouched(old(Stored()), Stored(), old(view).owner, size, b)
    {
      hide ViewOk; hide CountLarge; hide LinksApart; hide MayWrite;
      hide Untouched; hide NotLinks; hide TakeOverFacts; hide TakeOverWrites;
      hide TakeOverCells; hide TakeOverParents; hide SlotOf; hide Promote;
      HeadGoneStep(next, prev, parent, cell, freeBitmap, largeBitmap, view, size, p);
      var e := Block(b);
      var pv := prev[e];
      ghost var slot := SlotOf(view.at, p);
      ghost var s, written := Stored(), AddrOf(pv) + AddrOf(next[e]) + TakeOverWrites(cell, slot, b, pv.addr);
      Unlink(b, LargeRing(size[b].n));
      TakeOver(b, pv.addr, slot);
      data := NotLinks(data, next, prev, parent, cell);
      MateMovedStores(s, Stored(), slot, b, pv.addr);
      StoredUntouched(s, Stored(), view.owner, size, b, written);
      view := MateMoved(view, size, p, pv.addr);
    }

    /** zend_mm_remove_from_free_list. */
    method RemoveFromFreeList(size: map<Addr, Tag>, b: Addr)
      requires Valid(size) && IsFree(b)
      modifies this
      ensures Valid(size)
      ensures view.owner == old(view).owner - {Block(b)} && SameCache(old(view), view)
      ensures RestWithout(old(view), view, Block(b))
      ensures restCount == old(restCount) - (if old(view).owner[Block(b)] == RestRing && !SmallSize(size[b].n) then 1 else 0)
      ensures Untouched(old(Stored()), Stored(), old(view).owner, size, b)
      ensures TookBits(old(freeBitmap), old(view).rings, freeBitmap, view.rings, old(view).owner[Block(b)], size[b].n)
      ensures TakenOut(old(view), view, size, b)
    {
      hide ViewOk; hide CountLarge; hide LinksApart; hide Untouched; hide SameCache; hide Remove;
      hide TakenOut; hide NodeOut; hide MateMoved;
      var e := Block(b);
      ghost var k, j := LinkedBlock(next, prev, parent, cell, freeBitmap, largeBitmap, view, size, b);
      RestAfterTaking(size, b);
      TakenAs(size, b, k, j);
      ghost var v := view;
      if prev[e] == e {
        RemoveLone(size, b);
        NodeTakenOut(v, view, size, b, k, j);
      } else if SmallSize(size[b].n) {
        RemoveSmall(size, b, k, j);
        OtherTakenOut(v, view, size, b, k, j);
      } else if parent[b] == RestMark {
        RemoveRest(size, b, j);
        OtherTakenOut(v, view, size, b, k, j);
      } else if parent[b] == NoParent {
        RemoveMate(size, b, k, j);
        OtherTakenOut(v, view, size, b, k, j);
      } else {
        RemoveHead(size, b, view.posOf[b]);
        MateOut(v, view, size, b, v.posOf[b]);
        NodeTakenOut(v, view, size, b, k, j);
      }
    }

    /** What the small bitmap becomes when a block leaves the lists. */
    lemma TakenAs(size: map<Addr, Tag>, b: Addr, k: Key, j: nat)
      requires Valid(size) && IsFree(b) && b in size && k in view.rings && j < |view.rings[k]| && k == view.owner[Block(b)]
      requires ValidBlockSize(size[b].n)
      ensures SmallSize(size[b].n) && 1 <= j && (k == RestRing || k == SmallRing(BucketIndex(size[b].n))) ==>
        && BucketIndex(size[b].n) >= 0 && SmallRing(BucketIndex(size[b].n)) in view.rings
        && TookBits(freeBitmap, view.rings, BitsAfterRemoval(freeBitmap, view.rings, k, j, BucketIndex(size[b].n)),
                    view.rings[k := Remove(view.rings[k], j)], k, size[b].n)
      ensures !SmallSize(size[b].n) && !k.SmallRing? ==>
        forall rings :: SameSmall(view.rings, rings) ==> TookBits(freeBitmap, view.rings, freeBitmap, rings, k, size[b].n)
    {
      hide ViewOk; hide CountLarge; hide LinksApart; hide TookBits; hide SameSmall; hide BitsAfterRemoval; hide Remove;
      if SmallSize(size[b].n) {
        SmallSizesAreClasses(size[b].n);
        ShownHold(size, BucketIndex(size[b].n));
        if 1 <= j && (k == RestRing || k == SmallRing(BucketIndex(size[b].n))) {
          TakenBits(freeBitmap, view.rings, k, j, BucketIndex(size[b].n), size[b].n);
        }
      } else if !k.SmallRing? {
        forall rings | SameSmall(view.rings, rings)
          ensures TookBits(freeBitmap, view.rings, freeBitmap, rings, k, size[b].n)
        {
          SameSmallBits(freeBitmap, view.rings, rings, k, size[b].n);
        }
      }
    }

    /** What the count of rest blocks becomes when a block leaves the lists. */
    lemma RestAfterTaking(size: map<Addr, Tag>, b: Addr)
      requires Valid(size) && IsFree(b) && b in size
      ensures view.owner[Block(b)] == RestRing ==> Block(b) in view.rings[RestRing]
      ensures view.owner[Block(b)] == RestRing ==>
        CountLarge(Remove(view.rings[RestRing], IndexOf(view.rings[RestRing], Block(b))), size)
        == restCount - (if SmallSize(size[b].n) then 0 else 1)
    {
      hide Cells; hide Marks; hide BitsOk; hide Shape; hide Remove; hide Kinds; hide AllLinked; hide AllChained;
      if view.owner[Block(b)] == RestRing {
        CountLargeRemove(view.rings[RestRing], size, IndexOf(view.rings[RestRing], Block(b)));
      }
    }

    /** One round of the eviction loop: the oldest rest block moves to the free lists. */
    method EvictOldest(size: map<Addr, Tag>)
      requires Valid(size) && restCount > 0
      modifies this
      ensures Valid(size)
      ensures |old(view).rings[RestRing]| >= 2 && view.rings[RestRing] == Remove(old(view).rings[RestRing], 1)
      ensures SameCache(old(view), view)
      ensures FreeAddrs(view.owner) == FreeAddrs(old(view).owner) && CachedAddrs(view.owner) == CachedAddrs(old(view).owner)
      ensures view.owner.Keys == old(view).owner.Keys && old(restCount) - 1 <= restCount <= old(restCount)
      ensures old(view).rings[RestRing][1].Block? && old(view).rings[RestRing][1].addr in FreeAddrs(old(view).owner)
      ensures Untouched(old(Stored()), Stored(), old(view).owner, size, old(view).rings[RestRing][1].addr)
      ensures KeptBits(old(freeBitmap), old(view).rings, freeBitmap, view.rings)
      ensures EvictedOne(old(view), view)
    {
      hide ViewOk; hide CountLarge; hide LinksApart; hide Remove; hide Untouched; hide FreeAddrs; hide CachedAddrs;
      var e := OldestRest(size);
      UnlinkOldest(size, e.addr);
      label unlinked:
      ghost var owner1 := view.owner;
      AddToFreeList(size, e.addr);
      AddrsRemove(old(view).owner, e.addr);
      AddrsAdd(owner1, e.addr, ListKey(size[e.addr].n));
      UntouchedTrans(old(Stored()), old@unlinked(Stored()), Stored(), old(view).owner, owner1, size, e.addr, e.addr);
    }

    method OldestRest(size: map<Addr, Tag>) returns (e: Ptr)
      requires Valid(size) && restCount > 0
      ensures |view.rings[RestRing]| >= 2 && e == view.rings[RestRing][1] && ValidBlock(e, size)
      ensures e in view.owner && !view.owner[e].CacheChain? && e.addr in FreeAddrs(view.owner)
    {
      hide Cells; hide Marks; hide BitsOk; hide Shape; hide ListsOk;
      RingEnds(next, prev, view.heads, view.rings, view.owner, RestRing);
      ListFacts(view.rings, size, RestRing);
      RestHasBlock(view.rings[RestRing], size);
      OwnedByLists(next, prev, view.heads, view.rings, view.owner);
      e := next[RestHead];
      assert view.rings[RestRing][1] in view.owner;
    }

    method UnlinkOldest(size: map<Addr, Tag>, b: Addr)
      requires Valid(size) && |view.rings[RestRing]| >= 2 && Block(b) == view.rings[RestRing][1] && ValidBlock(Block(b), size)
      modifies this
      ensures freeBitmap == old(freeBitmap)
      ensures Valid(size)
      ensures view == TakeAt(old(view), RestRing, Remove(old(view).rings[RestRing], 1), b)
      ensures Untouched(old(Stored()), Stored(), old(view).owner, size, b)
      ensures Block(b) in old(view).owner && !old(view).owner[Block(b)].CacheChain?
      ensures restCount == old(restCount) - (if SmallSize(size[b].n) then 0 else 1)
    {
      hide ViewOk; hide CountLarge; hide LinksApart; hide MayWrite; hide Untouched; hide NotLinks; hide Remove;
      UnlinkStep(next, prev, parent, cell, freeBitmap, freeBitmap, largeBitmap, view, size, RestRing, 1, 0);
      RestAfterRemove(size, RestRing, 1);
      if !SmallSize(size[b].n) {
        restCount := restCount - 1;
      }
      ghost var s := Stored();
      Unlink(b, RestRing);
      data := NotLinks(data, next, prev, parent, cell);
      LeaveStores(s, Stored(), view.owner, size, b, s.prev[Block(b)], s.next[Block(b)]);
      view := TakeAt(view, RestRing, Remove(view.rings[RestRing], 1), b);
    }

    /** zend_mm_add_to_rest_list: evictions, oldest first, until fewer than sixteen large
        blocks are left; then the block goes to the end. */
    method AddToRestList(size: map<Addr, Tag>, b: Addr) returns (ghost evicted: nat)
      requires Valid(size) && Block(b) !in view.owner && ValidBlock(Block(b), size)
      modifies this
      ensures Valid(size)
      ensures FreeAddrs(view.owner) == FreeAddrs(old(view).owner) + {b} && CachedAddrs(view.owner) == CachedAddrs(old(view).owner)
      ensures SameCache(old(view), view)
      ensures 1 + evicted <= |old(view).rings[RestRing]|
      ensures view.rings[RestRing] == [RestHead] + old(view).rings[RestRing][1 + evicted..] + [Block(b)]
      ensures Block(b) in view.owner && view.owner[Block(b)] == RestRing
      ensures old(restCount) < MAX_REST_BLOCKS ==> evicted == 0
      ensures restCount <= MAX_REST_BLOCKS
      ensures old(restCount) <= MAX_REST_BLOCKS ==> evicted == 0 || restCount == MAX_REST_BLOCKS - (if SmallSize(size[b].n) then 1 else 0)
      ensures Untouched(old(Stored()), Stored(), old(view).owner, size, b)
      ensures KeptBits(old(freeBitmap), old(view).rings, freeBitmap, view.rings)
      ensures forall a :: InRest(view.owner, a) ==> InRest(old(view).owner, a) || a == b
      ensures PutInRest(old(view), view, b, evicted)
    {
      hide ViewOk; hide CountLarge; hide LinksApart; hide Untouched;
      hide FreeAddrs; hide CachedAddrs; hide ValidBlock; hide KeptBits; hide Insert; hide InRest; hide Evicted;
      RestMembers(size);
      evicted := MakeRoom(size, b);
      ghost var s1, owner1, bits1, rings1 := Stored(), view.owner, freeBitmap, view.rings;
      ghost var rest1 := view.rings[RestRing];
      AppendRest(size, b);
      InsertLast(rest1, Block(b));
      AddrsAdd(owner1, b, RestRing);
      UntouchedTrans(old(Stored()), s1, Stored(), old(view).owner, owner1, size, b, b);
      RestMembers(size);
      AppendedBits(bits1, rings1, view.rings);
      KeptTrans(old(freeBitmap), old(view).rings, bits1, rings1, freeBitmap, view.rings);
    }

    /** The loop of the evictions. */
    method MakeRoom(size: map<Addr, Tag>, b: Addr) returns (ghost evicted: nat)
      requires Valid(size) && Block(b) !in view.owner && ValidBlock(Block(b), size)
      modifies this
      ensures Valid(size) && Block(b) !in view.owner && restCount < MAX_REST_BLOCKS
      ensures FreeAddrs(view.owner) == FreeAddrs(old(view).owner) && CachedAddrs(view.owner) == CachedAddrs(old(view).owner)
      ensures SameCache(old(view), view)
      ensures 1 + evicted <= |old(view).rings[RestRing]|
      ensures view.rings[RestRing] == [RestHead] + old(view).rings[RestRing][1 + evicted..]
      ensures old(restCount) < MAX_REST_BLOCKS ==> evicted == 0
      ensures old(restCount) <= MAX_REST_BLOCKS ==> evicted == 0 || restCount >= MAX_REST_BLOCKS - 1
      ensures Untouched(old(Stored()), Stored(), old(view).owner, size, b)
      ensures KeptBits(old(freeBitmap), old(view).rings, freeBitmap, view.rings)
      ensures Evicted(old(view), view, evicted)
    {
      hide ViewOk; hide CountLarge; hide LinksApart; hide Untouched;
      hide FreeAddrs; hide CachedAddrs; hide Remove; hide ValidBlock; hide KeptBits; hide SameCache; hide Evicted; hide EvictedOne;
      evicted := 0;
      SameCacheRefl(view);
      KeptRefl(freeBitmap, view.rings);
      RestStart(size);
      NoneEvicted(view);
      UntouchedRefl(Stored(), view.owner, size, b);
      while restCount >= MAX_REST_BLOCKS
        invariant Valid(size) && Block(b) !in view.owner
        invariant FreeAddrs(view.owner) == FreeAddrs(old(view).owner) && CachedAddrs(view.owner) == CachedAddrs(old(view).owner)
        invariant SameCache(old(view), view)
        invariant 1 + evicted <= |old(view).rings[RestRing]|
        invariant view.rings[RestRing] == [RestHead] + old(view).rings[RestRing][1 + evicted..]
        invariant old(restCount) < MAX_REST_BLOCKS ==> evicted == 0
        invariant old(restCount) <= MAX_REST_BLOCKS ==> evicted == 0 || restCount >= MAX_REST_BLOCKS - 1
        invariant Untouched(old(Stored()), Stored(), old(view).owner, size, b)
        invariant KeptBits(old(freeBitmap), old(view).rings, freeBitmap, view.rings)
        invariant Evicted(old(view), view, evicted)
        decreases |old(view).rings[RestRing]| - evicted
      {
        ghost var s1, v1, bits1 := Stored(), view, freeBitmap;
        EvictOldest(size);
        SameCacheTrans(old(view), v1, view);
        OneMoreEvicted(old(view), v1, view, evicted);
        KeptTrans(old(freeBitmap), old(view).rings, bits1, v1.rings, freeBitmap, view.rings);
        RestDropOldest(old(view).rings[RestRing], v1.rings[RestRing], evicted);
        UntouchedTrans(old(Stored()), s1, Stored(), old(view).owner, v1.owner, size, b, v1.rings[RestRing][1].addr);
        evicted := evicted + 1;
      }
    }

    lemma InsertLast(c: seq<Ptr>, e: Ptr)
      requires |c| > 0
      ensures Insert(c, |c| - 1, e) == c + [e]
    {
    }

    lemma AppendedBits(freeBitmap: nat, rings: Lists, rings': Lists)
      requires forall i: nat :: SmallRing(i) in rings <==> SmallRing(i) in rings'
      requires forall i: nat :: SmallRing(i) in rings ==> rings'[SmallRing(i)] == rings[SmallRing(i)]
      ensures KeptBits(freeBitmap, rings, freeBitmap, rings')
    {
      SameSmallKept(freeBitmap, rings, rings');
    }

    lemma RestMembers(size: map<Addr, Tag>)
      requires Valid(size)
      ensures RestRing in view.rings && forall a :: InRest(view.owner, a) <==> Block(a) in view.rings[RestRing]
    {
      hide Cells; hide Marks; hide BitsOk; hide Shape; hide Kinds; hide AllLinked; hide AllChained;
    }

    lemma RestStart(size: map<Addr, Tag>)
      requires Valid(size)
      ensures RestRing in view.rings && |view.rings[RestRing]| >= 1
      ensures view.rings[RestRing] == [RestHead] + view.rings[RestRing][1..]
    {
      hide Cells; hide Marks; hide BitsOk; hide Shape; hide ListsOk;
      ListFacts(view.rings, size, RestRing);
    }

    /** Large blocks of the rest ring are marked and counted. */
    method MarkRest(size: map<Addr, Tag>, b: Addr)
      requires b in size
      modifies this`parent, this`restCount
      ensures parent == if SmallSize(size[b].n) then old(parent) else old(parent)[b := RestMark]
      ensures restCount == old(restCount) + (if SmallSize(size[b].n) then 0 else 1)
    {
      if !SmallSize(size[b].n) {
        parent := parent[b := RestMark];
        restCount := restCount + 1;
      }
    }

    method AppendRest(size: map<Addr, Tag>, b: Addr)
      requires Valid(size) && Block(b) !in view.owner && ValidBlock(Block(b), size)
      modifies this
      ensures Valid(size)
      ensures |old(view).rings[RestRing]| > 0 && SameCache(old(view), view)
      ensures restCount == old(restCount) + (if SmallSize(size[b].n) then 0 else 1)
      ensures Untouched(old(Stored()), Stored(), old(view).owner, size, b)
      ensures freeBitmap == old(freeBitmap)
      ensures view == PutAt(old(view), RestRing, |old(view).rings[RestRing]| - 1, Block(b))
    {
      hide ViewOk; hide CountLarge; hide LinksApart; hide MayWrite; hide Untouched;
      hide NotLinks; hide Insert; hide ValidBlockSize; hide AddrOf; hide SameCache; hide SmallSize; hide PutAt;
      var e := Block(b);
      AddRestStep(next, prev, parent, cell, freeBitmap, largeBitmap, view, size, b,
                  if SmallSize(size[b].n) then parent else parent[b := RestMark]);
      CountLargeAppend(view.rings[RestRing], size, e);
      PutAtKeeps(view, RestRing, |view.rings[RestRing]| - 1, e);
      ghost var s := Stored();
      MarkRest(size, b);
      var h := prev[RestHead];
      var n := next[h];
      assert n == RestHead;
      next := next[e := n][h := e];
      prev := prev[e := h][n := e];
      data := NotLinks(data, next, prev, parent, cell);
      JoinStores(s, Stored(), view.owner, size, b, h, {b} + AddrOf(h));
      view := PutAt(view, RestRing, |view.rings[RestRing]| - 1, e);
    }

    // ---- the block cache ----

    /** `mm_block->prev_free_block = *cache; *cache = mm_block`; `head` is what `*cache` was. */
    method PushCached(size: map<Addr, Tag>, i: nat, b: Addr, head: Ptr)
      requires Valid(size) && i < NUM_BUCKETS && Block(b) !in view.owner && b in size && size[b].n == ClassSize(i)
      requires head == view.heads[i]
      modifies this
      ensures Valid(size)
      ensures CacheChain(i) in old(view).rings && view == PutCached(old(view), i, b) && freeBitmap == old(freeBitmap)
      ensures restCount == old(restCount)
      ensures Untouched(old(Stored()), Stored(), map[], map[], b)
    {
      hide ViewOk; hide CountLarge; hide LinksApart;
      PushCachedStep(next, prev, parent, cell, freeBitmap, largeBitmap, view, size, i, b);
      ghost var s := Stored();
      prev := prev[Block(b) := head];
      data := NotLinks(data, next, prev, parent, cell);
      StoredUntouched(s, Stored(), map[], map[], b, {b});
      view := PutCached(view, i, b);
    }

    /** `*cache = mm_block->prev_free_block`; `q` is what `*cache` becomes. */
    method PopCached(size: map<Addr, Tag>, i: nat, b: Addr) returns (q: Ptr)
      requires Valid(size) && i < NUM_BUCKETS && Block(b) == view.heads[i]
      modifies this`view
      ensures Valid(size)
      ensures CacheChain(i) in old(view).rings && |old(view).rings[CacheChain(i)]| > 0 && old(view).rings[CacheChain(i)][0] == Block(b)
      ensures |old(view).heads| == NUM_BUCKETS && view == TakeCached(old(view), i, b, q)
      ensures Block(b) in old(view).owner && old(view).owner[Block(b)] == CacheChain(i)
      ensures b in size && size[b].n == ClassSize(i)
    {
      hide ViewOk; hide CountLarge; hide LinksApart;
      PopCachedStep(next, prev, parent, cell, freeBitmap, largeBitmap, view, size, i);
      q := prev[Block(b)];
      view := TakeCached(view, i, b, q);
    }

    lemma HasChains(size: map<Addr, Tag>)
      requires Valid(size)
      ensures forall i :: 0 <= i < NUM_BUCKETS ==> CacheChain(i) in view.rings
    {
      hide Marks; hide CountLarge; hide LinksApart; hide Shape; hide Cells; hide BitsOk; hide ListsOk; hide KindOk;
    }

    lemma NoneCached(size: map<Addr, Tag>)
      requires Valid(size) && forall i :: 0 <= i < NUM_BUCKETS && CacheChain(i) in view.rings ==> view.rings[CacheChain(i)] == []
      ensures CachedAddrs(view.owner) == {}
    {
      hide Marks; hide CountLarge; hide LinksApart; hide Shape; hide Cells; hide BitsOk; hide AllLinked; hide AllChained;
      forall e | e in view.owner
        ensures !view.owner[e].CacheChain?
      {
        ListFacts(view.rings, size, view.owner[e]);
      }
    }

    /** The bytes from `lo` to `hi` are a client's from now on: link words that were there
        are forgotten, and what they leave is data like any other. */
    method Claim(size: map<Addr, Tag>, lo: Addr, hi: Addr)
      requires Valid(size) && ListsOutside(view.owner, size, lo, hi) && lo % 8 == 0
      modifies this
      ensures Valid(size) && view == old(view) && restCount == old(restCount) && freeBitmap == old(freeBitmap)
      ensures forall x :: x in data <==> x in old(data) || lo <= x < hi
      ensures forall x :: x in old(data) ==> data[x] == old(data)[x]
    {
      hide ViewOk; hide CountLarge; hide ListsOutside; hide LinksApart; hide LinksOutside; hide ParentsOutside; hide CellsOutside;
      ghost var s := Stored();
      Vacate(size, lo, hi);
      var data' := data + map x | lo <= x < hi && x !in data :: LeftBehind(x);
      LinksForgotten(s, lo, hi, data');
      data := data';
    }

    /** Link words that lie in [lo, hi) are forgotten. */
    method Vacate(size: map<Addr, Tag>, lo: Addr, hi: Addr)
      requires Valid(size) && ListsOutside(view.owner, size, lo, hi)
      modifies this`next, this`prev, this`parent, this`cell
      ensures Valid(size)
      ensures next == LinksOutside(old(next), NEXT_FREE, lo, hi) && prev == LinksOutside(old(prev), PREV_FREE, lo, hi)
      ensures parent == ParentsOutside(old(parent), lo, hi) && cell == CellsOutside(old(cell), lo, hi)
    {
      hide ViewOk; hide CountLarge; hide LinksApart; hide ListsOutside;
      VacateOk(next, prev, parent, cell, freeBitmap, largeBitmap, view, size, lo, hi);
      ghost var s := Stored();
      next, prev := LinksOutside(next, NEXT_FREE, lo, hi), LinksOutside(prev, PREV_FREE, lo, hi);
      parent, cell := ParentsOutside(parent, lo, hi), CellsOutside(cell, lo, hi);
      LinksApartLess(s, Stored());
    }

    /** Nothing is known of the bytes in [lo, hi). */
    method Discard(lo: Addr, hi: Addr, ghost size: map<Addr, Tag>)
      requires Valid(size)
      modifies this`data
      ensures Valid(size) && data == BytesOutside(old(data), lo, hi)
    {
      hide ViewOk; hide CountLarge; hide LinksApart;
      ghost var s := Stored();
      data := BytesOutside(data, lo, hi);
      LinksApartLess(s, Stored());
    }

    /** realloc of a segment: the bytes behind its header, as many as the old and the new
        size share, are at the new place; the rest of it is unknown, and what is known of
        the place it left is forgotten. */
    method Relocate(size: map<Addr, Tag>, from: Addr, n: nat, to: Addr, n': nat, skip: nat)
      requires Valid(size) && ListsOutside(view.owner, size, to + skip, to + n') && (to + skip) % 8 == 0
      modifies this
      ensures Valid(size) && view == old(view) && restCount == old(restCount) && freeBitmap == old(freeBitmap)
      ensures data == Relocated(old(data), from, n, to, n', skip)
    {
      hide ViewOk; hide CountLarge; hide ListsOutside; hide LinksApart;
      hide LinksOutside; hide ParentsOutside; hide CellsOutside; hide Relocated;
      ghost var s := Stored();
      Vacate(size, to + skip, to + n');
      RelocatedIs(data, from, n, to, n', skip);
      LinksForgotten(s, to + skip, to + n', Relocated(data, from, n, to, n', skip));
      data := Relocated(data, from, n, to, n', skip);
    }

    /** Header words have been stored over data. */
    method Cover(size: map<Addr, Tag>, prevTags: map<Addr, Tag>, ghost size0: map<Addr, Tag>)
      requires Valid(size0)
      modifies this`data
      ensures Valid(size0) && data == NotHeaders(old(data), size, prevTags)
    {
      hide ViewOk; hide CountLarge; hide LinksApart;
      ghost var s := Stored();
      data := NotHeaders(data, size, prevTags);
      LinksApartLess(s, Stored());
    }

    /** memcpy, between places that hold data. */
    method CopyBytes(to: Addr, from: Addr, n: nat, ghost size: map<Addr, Tag>)
      requires Valid(size) && (forall x :: from <= x < from + n ==> x in data) && (forall x :: to <= x < to + n ==> x in data)
      modifies this`data
      ensures Valid(size) && Copied(old(data), data, to, from, n)
    {
      hide ViewOk; hide CountLarge; hide LinksApart; hide CopyOf; hide Copied;
      ghost var s := Stored();
      data := CopyOf(data, to, from, n);
      LinksApartLess(s, Stored());
    }

    /** A client stores `body` at `to`. */
    method StoreBytes(to: Addr, body: seq<bv8>, ghost size: map<Addr, Tag>)
      requires Valid(size) && forall x :: to <= x < to + |body| ==> x in data
      modifies this`data
      ensures Valid(size) && data.Keys == old(data).Keys && BytesAt(data, to, body)
      ensures forall x :: x in old(data) && !(to <= x < to + |body|) ==> x in data && data[x] == old(data)[x]
    {
      hide ViewOk; hide CountLarge; hide LinksApart; hide StoredAt; hide BytesAt;
      ghost var s := Stored();
      data := StoredAt(data, to, body);
      LinksApartLess(s, Stored());
    }

    lemma HeadIsBlock(size: map<Addr, Tag>, i: nat)
      requires Valid(size) && i < NUM_BUCKETS
      ensures view.heads[i] == Null || view.heads[i].Block?
      ensures CacheChain(i) in view.rings && (view.heads[i] == Null <==> view.rings[CacheChain(i)] == [])
    {
      hide Marks; hide CountLarge; hide LinksApart; hide Shape; hide Cells; hide BitsOk; hide AllLinked; hide Owned; hide Kinds;
      assert Chained(prev, view.heads[i], view.rings[CacheChain(i)]);
      ListFacts(view.rings, size, CacheChain(i));
      assert view.rings[CacheChain(i)] != [] ==> BlockOfSize(view.rings[CacheChain(i)][0], size, ClassSize(i));
    }

    lemma ChainHasSize(size: map<Addr, Tag>, i: nat)
      requires Valid(size) && i < NUM_BUCKETS && view.heads[i] != Null
      ensures exists a :: a in CachedAddrs(view.owner) && a in size && size[a].n == ClassSize(i)
    {
      hide Marks; hide CountLarge; hide LinksApart; hide Shape; hide Cells; hide BitsOk; hide AllLinked; hide Kinds;
      assert Chained(prev, view.heads[i], view.rings[CacheChain(i)]);
      ListFacts(view.rings, size, CacheChain(i));
      var e := view.rings[CacheChain(i)][0];
      assert BlockOfSize(e, size, ClassSize(i));
      assert e in view.owner && e.addr in CachedAddrs(view.owner);
    }

    lemma CachedIsHeaded(size: map<Addr, Tag>, a: Addr) returns (i: nat)
      requires Valid(size) && a in CachedAddrs(view.owner)
      ensures i < NUM_BUCKETS && view.heads[i] != Null && a in size && size[a].n == ClassSize(i)
    {
      hide Marks; hide CountLarge; hide LinksApart; hide Shape; hide Cells; hide BitsOk; hide AllLinked; hide Kinds;
      assert Block(a) in view.owner && view.owner[Block(a)].CacheChain?;
      var k := view.owner[Block(a)];
      ListFacts(view.rings, size, k);
      i := k.index;
      var j := IndexOf(view.rings[k], Block(a));
      assert BlockOfSize(view.rings[k][j], size, ClassSize(i));
      assert Chained(prev, view.heads[i], view.rings[k]);
    }

    // ---- searching ----

    /** The first loop of zend_mm_search_large_block: along the bits of the size. */
    method SearchPath(size: map<Addr, Tag>, n: nat, index: nat)
      returns (hit: Ptr, best: Ptr, bestSize: nat, rst: Ptr, ghost turn: Turn, ghost bestPos: Pos, ghost cap: nat)
      requires Valid(size) && 0 < n < NO_SIZE && index == HighBit(n) && Pos(index, 1) in view.at
      ensures hit != Null ==> exists q :: q in view.at && hit == Block(view.at[q]) && SizeOf(view, size, q) == n
      ensures hit == Null ==> BestOk(view, size, n, best, bestSize, bestPos) && rst == TurnPtr(view, turn)
      ensures hit == Null ==> PathDone(view, size, n, bestSize, turn, cap)
    {
      hide ListsOk; hide Kinds; hide Marks; hide BitsOk; hide CountLarge;
      hide LinksApart; hide Shape; hide Cells; hide PathDone; hide HighBit;
      hide OnPath;
      hit, best, bestSize, rst, turn, cap := Null, Null, NO_SIZE, Null, NoTurn, 0;
      PathStart(view, size, n);
      BucketRoot(view.at, cell, parent, index);
      ghost var pos, k, low := Pos(index, 1), index, 0;
      bestPos := pos;
      var p := cell[Bucket(index)].addr;
      var m := Wrap(n * Pow2(NUM_BUCKETS - index));
      while true
        invariant OnPath(view, size, n, pos, m, k, low, cap, bestSize, turn)
        invariant pos in view.at && pos.bucket == index && p == view.at[pos]
        invariant BestOk(view, size, n, best, bestSize, bestPos) && rst == TurnPtr(view, turn)
        decreases n - pos.path
      {
        NodeFacts(view, size, pos);
        if size[p].n == n {
          hit := Block(p);
          return;
        }
        low, cap := PathStep(view, size, n, pos, m, k, low, cap, bestSize, turn);
        ghost var s := Step(pos.path, n);
        turn := TurnAfter(view, index, pos.path, s, turn);
        if n <= size[p].n < bestSize {
          best, bestSize, bestPos := Block(p), size[p].n, pos;
        }
        ChildPtrs(size, pos);
        if m / 0x8000_0000_0000_0000 == 0 {
          if cell[Child(p, 1)] != Null {
            rst := cell[Child(p, 1)];
          }
          if cell[Child(p, 0)] == Null {
            return;
          }
          p := cell[Child(p, 0)].addr;
        } else {
          if cell[Child(p, 1)] == Null {
            return;
          }
          p := cell[Child(p, 1)].addr;
        }
        pos := Pos(index, s);
        m, k := Wrap(2 * m), k - 1;
      }
    }

    lemma ChildPtrs(size: map<Addr, Tag>, pos: Pos)
      requires Valid(size) && pos in view.at
      ensures Child(view.at[pos], 0) in cell && cell[Child(view.at[pos], 0)] == PtrAt(view.at, Pos(pos.bucket, 2 * pos.path))
      ensures Child(view.at[pos], 1) in cell && cell[Child(view.at[pos], 1)] == PtrAt(view.at, Pos(pos.bucket, 2 * pos.path + 1))
    {
      hide ListsOk; hide Kinds; hide Marks; hide BitsOk; hide CountLarge; hide LinksApart; hide Shape;
      assert CellsAt(view.at, cell, parent, pos);
    }

    /** The second loop: from the last right sibling left behind. */
    method SearchTurn(size: map<Addr, Tag>, n: nat, rst: Ptr, best0: Ptr, bestSize0: nat, ghost r: Pos, ghost bestPos0: Pos)
      returns (best: Ptr, ghost bestSize: nat, ghost bestPos: Pos)
      requires Valid(size) && n > 0 && r in view.at && r.path >= 1 && r.bucket == HighBit(n) && rst == Block(view.at[r])
      requires forall q :: Below(view, r, q) ==> n < SizeOf(view, size, q)
      requires BestOk(view, size, n, best0, bestSize0, bestPos0)
      ensures BestOk(view, size, n, best, bestSize, bestPos) && best != Null
      ensures bestSize <= bestSize0 && bestSize <= SizeOf(view, size, r)
      ensures (forall q :: Below(view, r, q) ==> bestSize <= SizeOf(view, size, q))
        <==> LeastBelow(view, size, r) || forall q :: Below(view, r, q) ==> bestSize0 <= SizeOf(view, size, q)
    {
      hide ListsOk; hide Kinds; hide Marks; hide BitsOk; hide CountLarge; hide LinksApart; hide Shape; hide Cells; hide Prefix;
      var bestSize' := bestSize0;
      best, bestPos := best0, bestPos0;
      var p := rst;
      ghost var q := r;
      PrefixSelf(r.path);
      while p != Null
        invariant p != Null ==> OnWalk(view, r, q) && p == Block(view.at[q])
        invariant q == r || bestSize' <= SizeOf(view, size, r)
        invariant p == Null ==> q != r
        invariant 0 <= bestSize'
        invariant BestOk(view, size, n, best, bestSize', bestPos)
        invariant bestSize' <= bestSize0
        invariant bestSize' == bestSize0 || (best != Null && OnWalk(view, r, bestPos))
        decreases if p == Null then 0 else NO_SIZE - q.path
      {
        WalkOn(view, size, r, q);
        NodeFacts(view, size, q);
        if size[p.addr].n == n {
          assert false; // everything below the turn is larger
        } else if size[p.addr].n > n && size[p.addr].n < bestSize' {
          best, bestSize', bestPos := p, size[p.addr].n, q;
        }
        ChildPtrs(size, q);
        p := cell[Child(p.addr, if cell[Child(p.addr, 0)] != Null then 1 else 0)];
        q := Pos(q.bucket, 2 * q.path + 1);
      }
      bestSize := bestSize';
      NodeFacts(view, size, r);
      if bestSize != bestSize0 {
        WalkFindsLeast(view, size, r, bestPos);
      }
    }

    /** The last loop: the walk to the right from the root of a bucket. */
    method SearchSmallest(size: map<Addr, Tag>, j: nat) returns (best: Ptr, ghost q: Pos)
      requires Valid(size) && j < NUM_BUCKETS && Pos(j, 1) in view.at
      ensures q in view.at && q.bucket == j && best == Block(view.at[q])
      ensures (forall x :: Below(view, Pos(j, 1), x) ==> SizeOf(view, size, q) <= SizeOf(view, size, x))
        <==> LeastBelow(view, size, Pos(j, 1))
    {
      hide ListsOk; hide Kinds; hide Marks; hide BitsOk; hide CountLarge;
      hide LinksApart; hide Shape; hide Cells; hide Prefix; hide LeastBelow;
      BucketRoot(view.at, cell, parent, j);
      ghost var r := Pos(j, 1);
      var p := cell[Bucket(j)];
      best := p;
      q := r;
      ghost var x := r;
      PrefixSelf(r.path);
      NodeFacts(view, size, r);
      while true
        invariant OnWalk(view, r, x) && p == Block(view.at[x])
        invariant OnWalk(view, r, q) && best == Block(view.at[q]) && SizeOf(view, size, q) <= SizeOf(view, size, r)
        decreases NO_SIZE - x.path
      {
        WalkOn(view, size, r, x);
        ChildPtrs(size, x);
        NodeFacts(view, size, x);
        NodeFacts(view, size, q);
        p := cell[Child(p.addr, if cell[Child(p.addr, 0)] != Null then 1 else 0)];
        if p == Null {
          break;
        }
        x := Pos(x.bucket, 2 * x.path + 1);
        NodeFacts(view, size, x);
        if size[p.addr].n < size[best.addr].n {
          best, q := p, x;
        }
      }
      WalkFindsLeast(view, size, r, q);
    }

    /** The block behind the first of a ring, or the first when it is alone. */
    ghost predicate SecondOf(k: Key, r: Ptr)
      reads this
    {
      k in view.rings && |view.rings[k]| > 0 && r == view.rings[k][if |view.rings[k]| > 1 then 1 else 0]
    }

    /** `p->next_free_block` of a trie node: a block of the same size. */
    method NextOf(size: map<Addr, Tag>, node: Ptr, ghost q: Pos) returns (r: Ptr)
      requires Valid(size) && q in view.at && node == Block(view.at[q])
      ensures r.Block? && r.addr in size && size[r.addr].n == SizeOf(view, size, q) && Present(view, size[r.addr].n)
      ensures r in view.owner && view.owner[r] == LargeRing(size[r.addr].n)
      ensures SecondOf(LargeRing(size[r.addr].n), r)
    {
      hide ListsOk; hide Kinds; hide Marks; hide BitsOk; hide CountLarge; hide LinksApart; hide Shape; hide Cells;
      NodeFacts(view, size, q);
      ghost var k := LargeRing(SizeOf(view, size, q));
      RingEnds(next, prev, view.heads, view.rings, view.owner, k);
      OwnedByLists(next, prev, view.heads, view.rings, view.owner);
      ListFacts(view.rings, size, k);
      r := next[node];
      assert BlockOfSize(view.rings[k][if |view.rings[k]| > 1 then 1 else 0], size, k.size);
    }

    /** The part of the search that looks at the bucket of the size itself. */
    method SearchOwnBucket(size: map<Addr, Tag>, n: nat, index: nat) returns (r: Ptr)
      requires Valid(size) && 0 < n < NO_SIZE && index == HighBit(n) && Pos(index, 1) in view.at
      ensures r == Null ==> NoOwnFit(view, size, n)
      ensures r != Null ==> Found(size, n, r)
      ensures r != Null ==> (LeastFit(view, n, size[r.addr].n) <==> FindsLeast(view, size, n))
    {
      hide ListsOk; hide Kinds; hide Marks; hide BitsOk; hide CountLarge;
      hide LinksApart; hide Shape; hide Cells; hide Prefix; hide LeastBelow;
      hide HighBit; hide PathDone; hide LastTurn; hide PathBest; hide SizeOf; hide Below; hide LeastFit; hide FindsLeast;
      var hit, best, bestSize, rst, turn, bestPos, cap := SearchPath(size, n, index);
      ghost var q := bestPos;
      if hit != Null {
        q :| q in view.at && hit == Block(view.at[q]) && SizeOf(view, size, q) == n;
        r := NextOf(size, hit, q);
        ExactIsLeast(view, size, n);
        return;
      }
      ghost var pathBest := bestSize;
      TurnFacts(view, size, n, bestSize, turn, cap);
      if rst != Null {
        best, pathBest, q := SearchTurn(size, n, rst, best, bestSize, turn.pos, bestPos);
      }
      if best != Null {
        OwnBucketLeast(view, size, n, best, bestSize, turn, cap, pathBest, q);
        r := NextOf(size, best, q);
        return;
      }
      PathFoundNothing(view, size, n, cap);
      r := Null;
    }

    /** `r` is a block of the tries that fits, of the very size if there is one. */
    ghost predicate Found(size: map<Addr, Tag>, n: nat, r: Ptr)
      reads this
    {
      && r.Block? && r.addr in size && r in view.owner && view.owner[r] == LargeRing(size[r.addr].n)
      && n <= size[r.addr].n && Present(view, size[r.addr].n) && SecondOf(LargeRing(size[r.addr].n), r)
      && (Present(view, n) ==> size[r.addr].n == n)
    }

    /** zend_mm_search_large_block: finds a block that fits if there is one, of exactly
        the size if there is one; the best fit exactly when FindsLeast says. */
    method SearchLargeBlock(size: map<Addr, Tag>, n: nat) returns (r: Ptr)
      requires Valid(size) && 0 < n < NO_SIZE
      ensures r == Null <==> forall s: nat :: Present(view, s) ==> s < n
      ensures r != Null ==> Found(size, n, r)
      ensures r != Null ==> (LeastFit(view, n, size[r.addr].n) <==> FindsLeast(view, size, n))
    {
      hide ListsOk; hide Kinds; hide Marks; hide CountLarge; hide LinksApart;
      hide Shape; hide Cells; hide Prefix; hide LeastBelow; hide HighBit;
      hide Shr; hide LowBit; hide Bit; hide LastTurn; hide PathBest; hide SizeOf; hide Below; hide LeastFit; hide FindsLeast;
      var index := ZendMmHighBit(n);
      var bitmap := Shr(largeBitmap, index);
      ShiftedBits(view, largeBitmap, bitmap, index);
      if bitmap == 0 {
        NoRootNoFit(view, size, n, bitmap, largeBitmap);
        return Null;
      }
      if bitmap % 2 == 1 {
        assert Pos(index + 0, 1) in view.at;
        r := SearchOwnBucket(size, n, index);
        if r != Null {
          return;
        }
        bitmap := bitmap / 2;
        if bitmap == 0 {
          NoLaterRoot(view, size, n, bitmap, index + 1);
          return Null;
        }
        index := index + 1;
      } else {
        assert Pos(index + 0, 1) !in view.at;
        NoOwnRoot(view, size, n);
      }
      var low := ZendMmLowBit(bitmap);
      FirstBucketOk(view, size, HighBit(n), bitmap, index, low);
      var node, q := SearchSmallest(size, index + low);
      LaterBucketLeast(view, size, n, index + low, q);
      r := NextOf(size, node, q);
    }

    /** The bitmap shows no bucket from `index` on. */
    ghost predicate NoneShown(index: nat)
      reads this`freeBitmap
    {
      forall i: nat :: index <= i ==> !Bit(freeBitmap, i)
    }

    lemma NoBitAbove(index: nat)
      requires Shr(freeBitmap, index) == 0
      ensures NoneShown(index)
    {
      hide Bit; hide Shr;
      forall i: nat | index <= i
        ensures !Bit(freeBitmap, i)
      {
        ShrSpec(freeBitmap, index, i - index);
        ZeroHasNoBit(i - index);
      }
    }

    /** The first small ring at or above `index` that the bitmap shows, and its last block. */
    method SearchSmall(size: map<Addr, Tag>, index: nat) returns (r: Ptr)
      requires Valid(size) && index < NUM_BUCKETS
      ensures r == Null <==> Shr(freeBitmap, index) == 0
      ensures r == Null <==> NoneShown(index)
      ensures r != Null ==> r.Block? && IsFree(r.addr) && r.addr in size && size[r.addr].n >= ClassSize(index) && SmallSize(size[r.addr].n)
      ensures r != Null ==> view.owner[r] == SmallRing(BucketIndex(size[r.addr].n))
      ensures r != Null ==> var i := BucketIndex(size[r.addr].n);
        && i >= index && Bit(freeBitmap, i) && (forall j: nat :: index <= j < i ==> !Bit(freeBitmap, j))
        && SmallRing(i) in view.rings && |view.rings[SmallRing(i)]| > 0
        && r == view.rings[SmallRing(i)][|view.rings[SmallRing(i)]| - 1]
    {
      hide ListsOk; hide Kinds; hide Marks; hide CountLarge; hide LinksApart;
      hide Shape; hide Cells; hide Shr; hide Bit; hide LowBit;
      var bitmap := Shr(freeBitmap, index);
      if bitmap == 0 {
        NoBitAbove(index);
        return Null;
      }
      var low := ZendMmLowBit(bitmap);
      ShrSpec(freeBitmap, index, low);
      forall j: nat | index <= j < index + low
        ensures !Bit(freeBitmap, j)
      {
        ShrSpec(freeBitmap, index, j - index);
      }
      ghost var k := SmallRing(index + low);
      ListFacts(view.rings, size, k);
      RingEnds(next, prev, view.heads, view.rings, view.owner, k);
      OwnedByLists(next, prev, view.heads, view.rings, view.owner);
      ClassesAreSmallSizes(index + low);
      r := prev[SmallHead(index + low)];
      assert r == view.rings[k][|view.rings[k]| - 1];
    }

    /** The block that is chosen for a request of `n` bytes: the oldest of the first small
        ring that is shown, else one of the tries, else, near the limit, the newest of the
        smallest in the rest ring. */
    ghost predicate Picks(size: map<Addr, Tag>, n: nat, near: bool, r: Ptr)
      requires RestRing in view.rings && n > 0
      reads this
    {
      && r.Block? && r.addr in size && r in view.owner && n <= size[r.addr].n
      && match view.owner[r]
         case SmallRing(i) =>
           && SmallSize(n) && BucketIndex(n) <= i && Bit(freeBitmap, i) && (forall j: nat :: BucketIndex(n) <= j < i ==> !Bit(freeBitmap, j))
           && SmallRing(i) in view.rings && |view.rings[SmallRing(i)]| > 0 && r == view.rings[SmallRing(i)][|view.rings[SmallRing(i)]| - 1]
         case LargeRing(_) =>
           && (SmallSize(n) && BucketIndex(n) >= 0 ==> NoneShown(BucketIndex(n)))
           && Found(size, n, r) && (LeastFit(view, n, size[r.addr].n) <==> FindsLeast(view, size, n))
         case RestRing =>
           && near && (SmallSize(n) && BucketIndex(n) >= 0 ==> NoneShown(BucketIndex(n))) && (forall s: nat :: Present(view, s) ==> s < n)
           && (forall j :: 1 <= j < |view.rings[RestRing]| && n <= RestSize(size, j) ==> size[r.addr].n <= RestSize(size, j))
           && NewestRest(size, n, r)
         case CacheChain(_) => false
    }

    /** The searches look at free block `a`. */
    ghost predicate Seen(near: bool, a: Addr)
      reads this
    {
      && Block(a) in view.owner
      && match view.owner[Block(a)]
         case SmallRing(i) => Bit(freeBitmap, i)
         case LargeRing(_) => true
         case RestRing => near
         case CacheChain(_) => false
    }

    /** A listed block of the free lists is found by the searches for what fits into it. */
    lemma FitsSomewhere(size: map<Addr, Tag>, b: Addr, n: nat, t: nat)
      requires Valid(size) && ValidBlockSize(n) && ValidBlockSize(t) && t <= n
      requires Block(b) in view.owner && view.owner[Block(b)] == ListKey(n)
      requires SmallSize(n) ==> BucketIndex(n) >= 0 && Bit(freeBitmap, BucketIndex(n))
      ensures SmallSize(n) ==> SmallSize(t) && Shr(freeBitmap, BucketIndex(t)) != 0
      ensures !SmallSize(n) ==> Present(view, n)
    {
      hide Marks; hide CountLarge; hide LinksApart; hide Shape; hide Cells; hide Kinds;
      hide AllLinked; hide AllChained; hide BitsOk; hide Bit; hide Shr;
      SmallSizesAreClasses(n);
      SmallSizesAreClasses(t);
      if SmallSize(n) {
        ShrSpec(freeBitmap, BucketIndex(t), BucketIndex(n) - BucketIndex(t));
        ZeroHasNoBit(BucketIndex(n) - BucketIndex(t));
      }
    }

    /** When every listed free block is too small no search finds one. */
    lemma FitsNowhere(size: map<Addr, Tag>, t: nat)
      requires Valid(size) && ValidBlockSize(t)
      requires forall b: Addr :: IsFree(b) ==> b in size && size[b].n < t
      ensures SmallSize(t) ==> Shr(freeBitmap, BucketIndex(t)) == 0
      ensures forall s: nat :: Present(view, s) ==> s < t
      ensures forall j :: 1 <= j < |view.rings[RestRing]| ==> RestSize(size, j) < t
    {
      hide Marks; hide CountLarge; hide LinksApart; hide Shape; hide Cells; hide ListsOk; hide Kinds; hide Bit; hide Shr;
      SmallSizesAreClasses(t);
      OwnedByLists(next, prev, view.heads, view.rings, view.owner);
      if SmallSize(t) && Shr(freeBitmap, BucketIndex(t)) != 0 {
        var low := LowBit(Shr(freeBitmap, BucketIndex(t)));
        NonzeroHasBit(Shr(freeBitmap, BucketIndex(t)));
        ShrSpec(freeBitmap, BucketIndex(t), low);
        SecondIsFree(size, SmallRing(BucketIndex(t) + low), 1);
        assert false;
      }
      forall s: nat | Present(view, s)
        ensures s < t
      {
        SecondIsFree(size, LargeRing(s), 0);
      }
      forall j | 1 <= j < |view.rings[RestRing]|
        ensures RestSize(size, j) < t
      {
        SecondIsFree(size, RestRing, j);
      }
    }

    /** A free block that the searches look at is no smaller than they find. */
    lemma SeenFits(size: map<Addr, Tag>, near: bool, a: Addr, t: nat)
      requires Valid(size) && ValidBlockSize(t) && Seen(near, a)
      ensures a in size
      ensures t <= size[a].n ==>
        || (SmallSize(t) && Shr(freeBitmap, BucketIndex(t)) != 0)
        || (exists s: nat :: Present(view, s) && t <= s)
        || (near && exists j :: 1 <= j < |view.rings[RestRing]| && t <= RestSize(size, j))
    {
      hide Marks; hide CountLarge; hide LinksApart; hide Shape; hide Cells;
      hide AllLinked; hide AllChained; hide Bit; hide Shr; hide Kinds; hide BitsOk;
      var k := view.owner[Block(a)];
      var j := IndexOf(view.rings[k], Block(a));
      ListFacts(view.rings, size, k);
      SmallSizesAreClasses(t);
      match k
      case SmallRing(i) =>
        assert BlockOfSize(view.rings[k][j], size, ClassSize(i));
        if t <= size[a].n {
          ShrSpec(freeBitmap, BucketIndex(t), i - BucketIndex(t));
          ZeroHasNoBit(i - BucketIndex(t));
        }
      case LargeRing(n) =>
        assert BlockOfSize(view.rings[k][j], size, n);
        assert Present(view, n);
      case RestRing =>
        assert ValidBlock(view.rings[k][j], size);
        assert RestSize(size, j) == size[a].n;
      case CacheChain(_) =>
    }

    /** And they find nothing but free blocks that they look at. */
    lemma FoundIsSeen(size: map<Addr, Tag>, near: bool, t: nat) returns (a: Addr)
      requires Valid(size) && ValidBlockSize(t)
      requires || (SmallSize(t) && Shr(freeBitmap, BucketIndex(t)) != 0)
               || (exists s: nat :: Present(view, s) && t <= s)
               || (near && exists j :: 1 <= j < |view.rings[RestRing]| && t <= RestSize(size, j))
      ensures Seen(near, a) && a in size && t <= size[a].n
    {
      hide Marks; hide CountLarge; hide LinksApart; hide Shape; hide Cells; hide ListsOk; hide Kinds; hide Bit; hide Shr;
      SmallSizesAreClasses(t);
      OwnedByLists(next, prev, view.heads, view.rings, view.owner);
      if SmallSize(t) && Shr(freeBitmap, BucketIndex(t)) != 0 {
        var low := LowBit(Shr(freeBitmap, BucketIndex(t)));
        NonzeroHasBit(Shr(freeBitmap, BucketIndex(t)));
        ShrSpec(freeBitmap, BucketIndex(t), low);
        var k := SmallRing(BucketIndex(t) + low);
        SecondIsFree(size, k, 1);
        a := view.rings[k][1].addr;
      } else if s: nat :| Present(view, s) && t <= s {
        SecondIsFree(size, LargeRing(s), 0);
        a := view.rings[LargeRing(s)][0].addr;
      } else {
        var j :| 1 <= j < |view.rings[RestRing]| && t <= RestSize(size, j);
        SecondIsFree(size, RestRing, j);
        a := view.rings[RestRing][j].addr;
      }
    }

    /** A listed block of a small bucket that is shown right has its bit set. */
    lemma ListedIsShown(size: map<Addr, Tag>, b: Addr, i: nat)
      requires Valid(size) && Block(b) in view.owner && view.owner[Block(b)] == SmallRing(i) && Shows(freeBitmap, view.rings, i)
      ensures Bit(freeBitmap, i)
    {
      hide Marks; hide CountLarge; hide LinksApart; hide Shape; hide Cells; hide AllLinked; hide AllChained; hide Bit; hide Kinds; hide BitsOk;
      ListFacts(view.rings, size, SmallRing(i));
      var j := IndexOf(view.rings[SmallRing(i)], Block(b));
      assert j >= 1;
    }

    /** The elements of the lists behind the heads are free blocks. */
    lemma SecondIsFree(size: map<Addr, Tag>, k: Key, j: nat)
      requires Valid(size) && k in view.rings && !k.CacheChain? && (if k.LargeRing? then j == 0 else 1 <= j < |view.rings[k]|)
      ensures j < |view.rings[k]| && view.rings[k][j].Block? && IsFree(view.rings[k][j].addr) && view.rings[k][j].addr in size
      ensures k.LargeRing? ==> size[view.rings[k][j].addr].n == k.size
      ensures k.SmallRing? ==> size[view.rings[k][j].addr].n == ClassSize(k.index)
    {
      hide Marks; hide CountLarge; hide LinksApart; hide Shape; hide Cells;
      hide AllLinked; hide AllChained; hide BitsOk; hide Kinds;
      ListFacts(view.rings, size, k);
      assert k.LargeRing? ==> BlockOfSize(view.rings[k][j], size, k.size);
      assert k.SmallRing? ==> BlockOfSize(view.rings[k][j], size, ClassSize(k.index));
      assert k.RestRing? ==> ValidBlock(view.rings[k][j], size);
    }

    /** All blocks of the rest ring behind `best` that fit are larger. */
    ghost predicate NewestRest(size: map<Addr, Tag>, n: nat, best: Ptr)
      requires RestRing in view.rings
      reads this
    {
      best.Block? && best.addr in size && exists at ::
        && 1 <= at < |view.rings[RestRing]| && best == view.rings[RestRing][at]
        && forall i :: at < i < |view.rings[RestRing]| && n <= RestSize(size, i) ==> size[best.addr].n < RestSize(size, i)
    }

    /** Near the memory limit: the scan of the rest ring from its newest block. */
    method SearchRest(size: map<Addr, Tag>, n: nat) returns (best: Ptr)
      requires Valid(size) && n < WORD
      ensures best == Null <==> forall j :: 1 <= j < |view.rings[RestRing]| ==> RestSize(size, j) < n
      ensures best != Null ==> best.Block? && IsFree(best.addr) && best.addr in size && n <= size[best.addr].n
      ensures best != Null ==> forall j :: 1 <= j < |view.rings[RestRing]| && n <= RestSize(size, j) ==>
        size[best.addr].n <= RestSize(size, j)
      ensures best != Null ==> view.owner[best] == RestRing
      ensures best != Null ==> NewestRest(size, n, best)
    {
      hide ListsOk; hide Kinds; hide Marks; hide CountLarge; hide LinksApart; hide Shape; hide Cells; hide BitsOk;
      ghost var c := view.rings[RestRing];
      RestFacts(size);
      best := Null;
      var p := prev[RestHead];
      var bestSize := NO_SIZE;
      ghost var j, at := |c| - 1, 0;
      while p != RestHead
        invariant 0 <= j < |c| && p == c[j]
        invariant best == Null ==> bestSize == NO_SIZE
        invariant best == Null ==> forall i :: j < i < |c| ==> RestSize(size, i) < n
        invariant best != Null ==> 1 <= at < |c| && best == c[at] && n < size[best.addr].n == bestSize
        invariant best != Null ==> forall i :: j < i < |c| && n <= RestSize(size, i) ==> bestSize <= RestSize(size, i)
        invariant best != Null ==> forall i :: at < i < |c| && n <= RestSize(size, i) ==> bestSize < RestSize(size, i)
        decreases j
      {
        assert RestSize(size, j) == size[p.addr].n;
        if size[p.addr].n == n {
          best := p;
          return;
        } else if size[p.addr].n > n && size[p.addr].n < bestSize {
          best, bestSize, at := p, size[p.addr].n, j;
        }
        p := prev[p];
        j := j - 1;
      }
      assert best != Null ==> RestSize(size, at) == size[best.addr].n;
    }

    ghost function RestSize(size: map<Addr, Tag>, j: nat): nat
      requires RestRing in view.rings && j < |view.rings[RestRing]|
      reads this
    {
      var e := view.rings[RestRing][j];
      if e.Block? && e.addr in size then size[e.addr].n else 0
    }

    lemma RestFacts(size: map<Addr, Tag>)
      requires Valid(size)
      ensures var c := view.rings[RestRing];
        && |c| > 0 && c[0] == RestHead && RestHead in prev && prev[RestHead] == c[|c| - 1]
        && (forall j :: 1 <= j < |c| ==> c[j] in prev && prev[c[j]] == c[j - 1])
        && (forall j :: 1 <= j < |c| ==> c[j].Block? && c[j].addr in size && size[c[j].addr].n < NO_SIZE)
        && (forall e :: e in c ==> e in view.owner && view.owner[e] == RestRing)
    {
      hide Marks; hide CountLarge; hide LinksApart; hide Shape; hide Cells; hide BitsOk;
      ListFacts(view.rings, size, RestRing);
      assert Linked(next, prev, view.rings[RestRing]);
      forall j | 1 <= j < |view.rings[RestRing]|
        ensures size[view.rings[RestRing][j].addr].n < NO_SIZE
      {
        assert ValidBlock(view.rings[RestRing][j], size);
      }
    }

    /** zend_mm_init: empty rings, empty buckets, no bits. */
    method Init(size: map<Addr, Tag>)
      requires LinksApart(next, prev, parent, cell, data)
      modifies this
      ensures Valid(size) && view == InitView() && restCount == 0
      ensures FreeAddrs(view.owner) == {} && CachedAddrs(view.owner) == {}
      ensures data == old(data) && BitsExact(freeBitmap, view.rings)
    {
      hide ViewOk; hide LinksApart; hide InitView; hide FreeAddrs; hide CachedAddrs; hide SelfLinked; hide BitsExact;
      ExactAtFirst();
      freeBitmap, largeBitmap := 0, 0;
      InitBuckets();
      restCount := 0;
      view := InitView();
      InitOk(next, prev, parent, cell, size);
      assert CountLarge([RestHead], size) == 0 by {
        assert [RestHead][1..] == [];
      }
    }

    /** Its loop over the buckets, and the rest bucket. */
    method InitBuckets()
      requires LinksApart(next, prev, parent, cell, data)
      modifies this`next, this`prev, this`cell
      ensures forall j :: 0 <= j < NUM_BUCKETS ==> SelfLinked(next, prev, SmallHead(j))
      ensures forall j :: 0 <= j < NUM_BUCKETS ==> Bucket(j) in cell && cell[Bucket(j)] == Null
      ensures SelfLinked(next, prev, RestHead) && LinksApart(next, prev, parent, cell, data)
    {
      hide LinksApart;
      var i := 0;
      while i < NUM_BUCKETS
        invariant 0 <= i <= NUM_BUCKETS && LinksApart(next, prev, parent, cell, data)
        invariant forall j :: 0 <= j < i ==> SelfLinked(next, prev, SmallHead(j))
        invariant forall j :: 0 <= j < i ==> Bucket(j) in cell && cell[Bucket(j)] == Null
      {
        var p := SmallHead(i);
        HeadsAreNoLinks(Stored(), p, Bucket(i));
        next := next[p := p];
        prev := prev[p := p];
        cell := cell[Bucket(i) := Null];
        i := i + 1;
      }
      HeadsAreNoLinks(Stored(), RestHead, Bucket(0));
      prev, next := prev[RestHead := RestHead], next[RestHead := RestHead];
    }

    constructor ()
      ensures Valid(map[]) && view == InitView() && restCount == 0 && data == map[] && BitsExact(freeBitmap, view.rings)
      ensures FreeAddrs(view.owner) == {} && CachedAddrs(view.owner) == {}
    {
      next, prev, parent, cell := map[], map[], map[], map[];
      freeBitmap, largeBitmap, restCount := 0, 0, 0;
      data := map[];
      view := InitView();
      new;
      Init(map[]);
    }
  }

  /** What an unknown byte of memory happens to be. */
  function LeftBehind(x: Addr): bv8 {
    0
  }

  /** List heads lie in the heap structure, outside of all blocks. */
  lemma HeadsAreNoLinks(s: Store, p: Ptr, q: Slot)
    requires LinksApart(s.next, s.prev, s.parent, s.cell, s.data) && !p.Block? && q.Bucket?
    ensures LinksApart(s.next[p := p], s.prev[p := p], s.parent, s.cell[q := Null], s.data)
    ensures LinksApart(s.next[p := p], s.prev[p := p], s.parent, s.cell, s.data)
  {
  }

  /** A leaf takes a node's place: link words of other blocks stay. */
  lemma LeafMovedStores(s: Store, s1: Store, s': Store, slot: Slot, rp: Slot, b: Addr, x: Addr)
    requires rp in s.cell && s1 == s.(cell := s.cell[rp := Null]) && TakeOverFacts(s1.cell, s.parent, slot, b, x)
    requires s' == s.(cell := TakeOverCells(s1.cell, slot, b, x), parent := TakeOverParents(s1.cell, s.parent, slot, b, x), data := s'.data)
    ensures forall a :: a !in SlotAddr(rp) + TakeOverWrites(s1.cell, slot, b, x) ==> SameFields(s, s', a)
    ensures forall a :: a in s'.parent && a !in s.parent ==> a == x
    ensures forall a :: (Child(a, 0) in s'.cell && Child(a, 0) !in s.cell) || (Child(a, 1) in s'.cell && Child(a, 1) !in s.cell) ==> a == x
  {
    hide TakeOverCells; hide TakeOverParents; hide TakeOverWrites;
    forall a
      ensures a !in SlotAddr(rp) + TakeOverWrites(s1.cell, slot, b, x) ==> SameFields(s, s', a)
      ensures a in s'.parent && a !in s.parent ==> a == x
      ensures Child(a, 0) in s'.cell && Child(a, 0) !in s.cell ==> a == x
      ensures Child(a, 1) in s'.cell && Child(a, 1) !in s.cell ==> a == x
    {
      TakeOverStores(s1.cell, s.parent, slot, b, x, a);
    }
  }

  /** A ring mate takes a node's place. */
  lemma MateMovedStores(s: Store, s': Store, slot: Slot, b: Addr, x: Addr)
    requires TakeOverFacts(s.cell, s.parent, slot, b, x) && Block(b) in s.next && Block(b) in s.prev
    requires var p, n := s.prev[Block(b)], s.next[Block(b)];
      s' == Store(s.next[p := n], s.prev[n := p], TakeOverParents(s.cell, s.parent, slot, b, x), TakeOverCells(s.cell, slot, b, x), s'.data)
    ensures forall a :: a !in AddrOf(s.prev[Block(b)]) + AddrOf(s.next[Block(b)]) + TakeOverWrites(s.cell, slot, b, x) ==>
      SameFields(s, s', a)
    ensures forall a :: a in s'.parent && a !in s.parent ==> a == x
    ensures forall a :: (Child(a, 0) in s'.cell && Child(a, 0) !in s.cell) || (Child(a, 1) in s'.cell && Child(a, 1) !in s.cell) ==> a == x
  {
    hide TakeOverCells; hide TakeOverParents; hide TakeOverWrites;
    forall a
      ensures a !in AddrOf(s.prev[Block(b)]) + AddrOf(s.next[Block(b)]) + TakeOverWrites(s.cell, slot, b, x) ==> SameFields(s, s', a)
      ensures a in s'.parent && a !in s.parent ==> a == x
      ensures Child(a, 0) in s'.cell && Child(a, 0) !in s.cell ==> a == x
      ensures Child(a, 1) in s'.cell && Child(a, 1) !in s.cell ==> a == x
    {
      TakeOverStores(s.cell, s.parent, slot, b, x, a);
    }
  }
}
