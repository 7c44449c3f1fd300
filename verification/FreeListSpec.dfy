/** What the free lists, the large-block tries and the block cache hold, as values. */
module FreeListSpec {
  import opened Bits
  import opened Sequences
  import opened Sizes
  import opened Tags
  import opened Rings
  import opened LargeTrie
  import opened Memory

  type Lists = map<Key, seq<Ptr>>
  type Owners = map<Ptr, Key>

  /** What the words of the free lists mean: the heads of the cache chains, the contents
      of the lists, the list of every element, and the place of every trie node. */
  datatype View = View(heads: seq<Ptr>, rings: Lists, owner: Owners, at: map<Pos, Addr>, posOf: map<Addr, Pos>)

  /** The words and bitmaps say what the view says. */
  ghost predicate ViewOk(next: Words, prev: Words, parent: map<Addr, Parent>, cell: map<Slot, Ptr>,
                         freeBitmap: nat, largeBitmap: nat, v: View, size: map<Addr, Tag>)
  {
    && |v.heads| == NUM_BUCKETS
    && ListsOk(next, prev, v.heads, v.rings, v.owner)
    && Kinds(v.rings, size)
    && Shape(v.at, v.posOf, v.rings, size)
    && Cells(v.at, cell, parent)
    && Marks(v.rings, parent, size)
    && BitsOk(freeBitmap, largeBitmap, v.rings, v.at)
  }

  /** The block cache means the same in both views. */
  ghost predicate SameCache(v: View, v': View) {
    && v'.heads == v.heads
    && forall i :: 0 <= i < NUM_BUCKETS && CacheChain(i) in v.rings
         ==> CacheChain(i) in v'.rings && v'.rings[CacheChain(i)] == v.rings[CacheChain(i)]
  }

  lemma SameCacheRefl(v: View)
    ensures SameCache(v, v)
  {
  }

  lemma SameCacheTrans(v: View, v': View, v'': View)
    requires SameCache(v, v') && SameCache(v', v'')
    ensures SameCache(v, v'')
  {
  }

  ghost predicate SameRest(v: View, v': View) {
    RestRing in v.rings ==> RestRing in v'.rings && v'.rings[RestRing] == v.rings[RestRing]
  }

  /** The link words agree with the lists; `heads` are the heads of the cache chains. */
  ghost predicate ListsOk(next: Words, prev: Words, heads: seq<Ptr>, rings: Lists, owner: Owners) {
    Owned(rings, owner) && AllLinked(next, prev, rings) && AllChained(prev, heads, rings)
  }

  ghost predicate BlockOfSize(e: Ptr, size: map<Addr, Tag>, n: nat) {
    e.Block? && e.addr in size && size[e.addr].n == n
  }

  ghost predicate ValidBlock(e: Ptr, size: map<Addr, Tag>) {
    e.Block? && e.addr in size && ValidBlockSize(size[e.addr].n) && size[e.addr].n < WORD
  }

  /** The list of a key holds the blocks the key is for, behind its head block. */
  ghost predicate KindOk(k: Key, c: seq<Ptr>, size: map<Addr, Tag>) {
    match k
    case SmallRing(i) =>
      i < NUM_BUCKETS && |c| > 0 && c[0] == SmallHead(i) && forall j :: 1 <= j < |c| ==> BlockOfSize(c[j], size, ClassSize(i))
    case RestRing =>
      |c| > 0 && c[0] == RestHead && forall j :: 1 <= j < |c| ==> ValidBlock(c[j], size)
    case LargeRing(n) =>
      |c| > 0 && n < WORD && ValidBlockSize(n) && !SmallSize(n) && forall j :: 0 <= j < |c| ==> BlockOfSize(c[j], size, n)
    case CacheChain(i) =>
      i < NUM_BUCKETS && forall j :: 0 <= j < |c| ==> BlockOfSize(c[j], size, ClassSize(i))
  }

  ghost predicate Kinds(rings: Lists, size: map<Addr, Tag>) {
    && RestRing in rings
    && (forall i :: 0 <= i < NUM_BUCKETS ==> SmallRing(i) in rings)
    && (forall i :: 0 <= i < NUM_BUCKETS ==> CacheChain(i) in rings)
    && (forall k :: k in rings ==> KindOk(k, rings[k], size))
  }

  ghost predicate Marked(e: Ptr, parent: map<Addr, Parent>, v: Parent) {
    e.Block? && e.addr in parent && parent[e.addr] == v
  }

  /** The parent words of blocks that are not trie nodes. */
  ghost predicate MarkOk(k: Key, c: seq<Ptr>, parent: map<Addr, Parent>, size: map<Addr, Tag>) {
    match k
    case RestRing =>
      forall j :: 1 <= j < |c| && ValidBlock(c[j], size) && !SmallSize(size[c[j].addr].n) ==> Marked(c[j], parent, RestMark)
    case LargeRing(_) =>
      forall j :: 1 <= j < |c| ==> Marked(c[j], parent, NoParent)
    case _ => true
  }

  ghost predicate Marks(rings: Lists, parent: map<Addr, Parent>, size: map<Addr, Tag>) {
    forall k :: k in rings ==> MarkOk(k, rings[k], parent, size)
  }

  /** The large bitmap is exact; a bit of the small bitmap promises a block. */
  ghost predicate BitsOk(freeBitmap: nat, largeBitmap: nat, rings: Lists, at: map<Pos, Addr>) {
    && (forall i: nat :: Bit(freeBitmap, i) ==> i < NUM_BUCKETS && SmallRing(i) in rings && |rings[SmallRing(i)]| >= 2)
    && (forall i: nat :: Bit(largeBitmap, i) <==> Pos(i, 1) in at)
  }

  ghost predicate InRest(owner: Owners, a: Addr) {
    Block(a) in owner && owner[Block(a)] == RestRing
  }

  /** The rest ring keeps its order when a free block leaves the lists. */
  ghost predicate RestWithout(v: View, v': View, e: Ptr) {
    && RestRing in v.rings && RestRing in v'.rings && e in v.owner
    && (v.owner[e] == RestRing ==> e in v.rings[RestRing] && v'.rings[RestRing] == Remove(v.rings[RestRing], IndexOf(v.rings[RestRing], e)))
    && (v.owner[e] != RestRing ==> v'.rings[RestRing] == v.rings[RestRing])
  }

  /** The list that zend_mm_add_to_free_list chooses for a block of size `n`. */
  function ListKey(n: nat): Key
    requires SmallSize(n) ==> n >= MIN_BLOCK
  {
    if SmallSize(n) then SmallRing(BucketIndex(n)) else LargeRing(n)
  }

  predicate IsLargeBlock(e: Ptr, size: map<Addr, Tag>) {
    e.Block? && e.addr in size && !SmallSize(size[e.addr].n)
  }

  function CountLarge(c: seq<Ptr>, size: map<Addr, Tag>): nat {
    if c == [] then 0 else (if IsLargeBlock(c[0], size) then 1 else 0) + CountLarge(c[1..], size)
  }

  lemma RestHasBlock(c: seq<Ptr>, size: map<Addr, Tag>)
    requires KindOk(RestRing, c, size) && CountLarge(c, size) > 0
    ensures |c| >= 2
  {
    assert CountLarge(c[1..], size) > 0;
  }

  lemma RestDropOldest(rest0: seq<Ptr>, rest: seq<Ptr>, n: nat)
    requires 1 + n < |rest0| && rest == [RestHead] + rest0[1 + n..]
    ensures Remove(rest, 1) == [RestHead] + rest0[1 + (n + 1)..]
  {
  }

  // ---- link words ----

  lemma ListInsert(next: Words, prev: Words, heads: seq<Ptr>, rings: Lists, owner: Owners, k: Key, j: nat, b: Ptr)
    requires ListsOk(next, prev, heads, rings, owner)
    requires k in rings && !k.CacheChain? && j < |rings[k]| && b !in owner
    ensures var h := rings[k][j];
      && h in next && h in prev && h in owner && owner[h] == k && next[h] in owner && owner[next[h]] == k
      && ListsOk(next[b := next[h]][h := b], prev[b := h][next[h] := b], heads,
                 rings[k := Insert(rings[k], j, b)], owner[b := k])
  {
    hide Insert; hide Linked; hide Chained;
    var c := rings[k];
    var h := c[j];
    LinkRing(next, prev, c, j, b);
    InsertContents(c, j, b);
    var n := next[h];
    assert n in owner && owner[n] == k;
    var next', prev' := next[b := n][h := b], prev[b := h][n := b];
    var c' := Insert(c, j, b);
    OwnedAdd(rings, owner, k, b, c');
    AllLinkedFrame(next, prev, next', prev', rings, owner, k, c');
    AllChainedFrame(prev, prev', heads, rings, owner, k, c');
  }

  lemma ListUnlink(next: Words, prev: Words, heads: seq<Ptr>, rings: Lists, owner: Owners, k: Key, j: nat)
    requires ListsOk(next, prev, heads, rings, owner)
    requires k in rings && !k.CacheChain? && j < |rings[k]| && |rings[k]| >= 2
    ensures var b := rings[k][j];
      && b in next && b in prev && b in owner && owner[b] == k
      && prev[b] in next && next[b] in prev && next[prev[b]] == b && prev[next[b]] == b
      && prev[b] != b && next[b] != b
      && prev[b] in owner && next[b] in owner && owner[prev[b]] == k && owner[next[b]] == k
      && (prev[b] == next[b] <==> |rings[k]| == 2)
      && ListsOk(next[prev[b] := next[b]], prev[next[b] := prev[b]], heads,
                 rings[k := Remove(rings[k], j)], owner - {b})
  {
    var c := rings[k];
    var b := c[j];
    UnlinkRing(next, prev, c, j);
    RemoveContents(c, j);
    var p, n := prev[b], next[b];
    assert p in owner && owner[p] == k && n in owner && owner[n] == k;
    var next', prev' := next[p := n], prev[n := p];
    var c' := Remove(c, j);
    OwnedRemove(rings, owner, k, b, c');
    AllLinkedFrame(next, prev, next', prev', rings, owner, k, c');
    AllChainedFrame(prev, prev', heads, rings, owner, k, c');
    hide Linked;
    hide Remove;
  }

  /** Unlinking the first block of a ring, the ring then being read from its last block. */
  lemma ListPromote(next: Words, prev: Words, heads: seq<Ptr>, rings: Lists, owner: Owners, k: Key)
    requires ListsOk(next, prev, heads, rings, owner)
    requires k in rings && !k.CacheChain? && |rings[k]| >= 2
    ensures var b := rings[k][0];
      && b in next && b in prev && b in owner && owner[b] == k
      && prev[b] in next && next[b] in prev && next[prev[b]] == b && prev[next[b]] == b
      && prev[b] != b && next[b] != b
      && prev[b] in owner && next[b] in owner && owner[prev[b]] == k && owner[next[b]] == k
      && prev[b] == rings[k][|rings[k]| - 1]
      && ListsOk(next[prev[b] := next[b]], prev[next[b] := prev[b]], heads,
                 rings[k := Promote(rings[k])], owner - {b})
  {
    var c := rings[k];
    var b := c[0];
    UnlinkRing(next, prev, c, 0);
    PromoteRing(next, prev, c);
    PromoteContents(c);
    var p, n := prev[b], next[b];
    assert p in owner && owner[p] == k && n in owner && owner[n] == k;
    var next', prev' := next[p := n], prev[n := p];
    var c' := Promote(c);
    OwnedRemove(rings, owner, k, b, c');
    AllLinkedFrame(next, prev, next', prev', rings, owner, k, c');
    AllChainedFrame(prev, prev', heads, rings, owner, k, c');
    hide Linked;
    hide Promote;
  }

  lemma ListNew(next: Words, prev: Words, heads: seq<Ptr>, rings: Lists, owner: Owners, k: Key, b: Ptr)
    requires ListsOk(next, prev, heads, rings, owner)
    requires k !in rings && !k.CacheChain? && b !in owner
    ensures ListsOk(next[b := b], prev[b := b], heads, rings[k := [b]], owner[b := k])
  {
    OwnedAdd(rings, owner, k, b, [b]);
    AllLinkedFrame(next, prev, next[b := b], prev[b := b], rings, owner, k, [b]);
    AllChainedFrame(prev, prev[b := b], heads, rings, owner, k, [b]);
  }

  lemma ListDrop(next: Words, prev: Words, heads: seq<Ptr>, rings: Lists, owner: Owners, k: Key)
    requires ListsOk(next, prev, heads, rings, owner)
    requires k in rings && !k.CacheChain? && |rings[k]| == 1
    ensures var b := rings[k][0];
      && b in next && b in prev && next[b] == b && prev[b] == b && b in owner && owner[b] == k
      && ListsOk(next, prev, heads, rings - {k}, owner - {b})
  {
    var b := rings[k][0];
    assert Linked(next, prev, rings[k]);
    assert Owned(rings - {k}, owner - {b});
  }

  lemma ChainPush(next: Words, prev: Words, heads: seq<Ptr>, rings: Lists, owner: Owners, i: nat, b: Ptr)
    requires ListsOk(next, prev, heads, rings, owner)
    requires i < |heads| && b !in owner && b != Null
    ensures CacheChain(i) in rings
    ensures ListsOk(next, prev[b := heads[i]], heads[i := b],
                    rings[CacheChain(i) := [b] + rings[CacheChain(i)]], owner[b := CacheChain(i)])
  {
    var k := CacheChain(i);
    var c := rings[k];
    var c' := [b] + c;
    var prev' := prev[b := heads[i]];
    assert Chained(prev, heads[i], c);
    assert forall j :: 0 <= j < |c| ==> c[j] in owner;
    OwnedAdd(rings, owner, k, b, c');
    AllLinkedFrame(next, prev, next, prev', rings, owner, k, c');
    PushChain(prev, heads[i], c, b);
    forall i' | 0 <= i' < |heads| && i' != i
      ensures Chained(prev', heads[i'], rings[CacheChain(i')])
    {
      assert forall e :: e in rings[CacheChain(i')] ==> e in owner;
      ChainedFrame(prev, prev', heads[i'], rings[CacheChain(i')]);
    }
    hide Chained;
  }

  lemma PushChain(prev: Words, head: Ptr, c: seq<Ptr>, b: Ptr)
    requires Chained(prev, head, c) && b !in c && b != Null
    ensures Chained(prev[b := head], b, [b] + c)
  {
  }

  lemma PopChain(prev: Words, head: Ptr, c: seq<Ptr>)
    requires Chained(prev, head, c) && |c| > 0
    ensures head == c[0] && head in prev && Chained(prev, prev[head], c[1..])
  {
  }

  lemma ChainPop(next: Words, prev: Words, heads: seq<Ptr>, rings: Lists, owner: Owners, i: nat)
    requires ListsOk(next, prev, heads, rings, owner)
    requires i < |heads| && heads[i] != Null
    ensures CacheChain(i) in rings && |rings[CacheChain(i)]| > 0
    ensures heads[i] == rings[CacheChain(i)][0] && heads[i] in prev && heads[i] in owner && owner[heads[i]] == CacheChain(i)
    ensures ListsOk(next, prev, heads[i := prev[heads[i]]],
                    rings[CacheChain(i) := rings[CacheChain(i)][1..]], owner - {heads[i]})
  {
    var k := CacheChain(i);
    var c := rings[k];
    assert Chained(prev, heads[i], c);
    PopChain(prev, heads[i], c);
    assert c == [c[0]] + c[1..];
    OwnedRemove(rings, owner, k, c[0], c[1..]);
    hide Chained;
  }

  // ---- kinds, marks and bits when one list changes ----

  lemma KindsUpdate(rings: Lists, size: map<Addr, Tag>, k: Key, c: seq<Ptr>)
    requires Kinds(rings, size) && KindOk(k, c, size)
    ensures Kinds(rings[k := c], size)
  {
    hide KindOk;
  }

  lemma KindsDrop(rings: Lists, size: map<Addr, Tag>, k: Key)
    requires Kinds(rings, size) && k.LargeRing?
    ensures Kinds(rings - {k}, size)
  {
    hide KindOk;
  }

  lemma KindInsert(k: Key, c: seq<Ptr>, size: map<Addr, Tag>, j: nat, b: Ptr)
    requires KindOk(k, c, size) && !k.CacheChain? && j < |c|
    requires KindOk(k, [c[0], b], size)
    ensures KindOk(k, Insert(c, j, b), size)
    ensures |Insert(c, j, b)| == |c| + 1 && Insert(c, j, b)[0] == c[0]
  {
    var r := Insert(c, j, b);
    assert [c[0], b][1] == b;
    assert forall i :: 0 <= i < |r| ==> r[i] == if i <= j then c[i] else if i == j + 1 then b else c[i - 1];
  }

  lemma KindRemove(k: Key, c: seq<Ptr>, size: map<Addr, Tag>, j: nat)
    requires KindOk(k, c, size) && !k.CacheChain? && 1 <= j < |c|
    ensures KindOk(k, Remove(c, j), size)
    ensures |Remove(c, j)| == |c| - 1 && Remove(c, j)[0] == c[0]
  {
    var r := Remove(c, j);
    assert forall i :: 0 <= i < |r| ==> r[i] == if i < j then c[i] else c[i + 1];
  }

  lemma KindPromote(k: Key, c: seq<Ptr>, size: map<Addr, Tag>)
    requires KindOk(k, c, size) && k.LargeRing? && |c| >= 2
    ensures KindOk(k, Promote(c), size)
    ensures |Promote(c)| == |c| - 1 && Promote(c)[0] == c[|c| - 1]
  {
    var r := Promote(c);
    assert forall i :: 0 <= i < |r| ==> r[i] == if i == 0 then c[|c| - 1] else c[i];
  }

  /** Parent words may change for trie nodes and for blocks outside the lists. */
  lemma MarksUpdate(rings: Lists, owner: Owners, at: map<Pos, Addr>, posOf: map<Addr, Pos>,
                    parent: map<Addr, Parent>, parent': map<Addr, Parent>, size: map<Addr, Tag>, k: Key, c: seq<Ptr>)
    requires ListsOwnNodes(rings, owner, posOf) && Marks(rings, parent, size)
    requires forall a :: a in parent && Block(a) in owner && a !in posOf ==> a in parent' && parent'[a] == parent[a]
    requires MarkOk(k, c, parent', size)
    ensures Marks(rings[k := c], parent', size)
  {
    forall k' | k' in rings && k' != k
      ensures MarkOk(k', rings[k'], parent', size)
    {
      assert MarkOk(k', rings[k'], parent, size);
      assert forall j :: 1 <= j < |rings[k']| ==> rings[k'][j] in owner;
    }
  }

  /** Trie nodes come first in their rings. */
  ghost predicate ListsOwnNodes(rings: Lists, owner: Owners, posOf: map<Addr, Pos>) {
    && (forall k, j :: k in rings && 0 <= j < |rings[k]| ==> rings[k][j] in owner)
    && (forall k, j :: k in rings && !k.CacheChain? && 1 <= j < |rings[k]| && rings[k][j].Block? ==> rings[k][j].addr !in posOf)
  }

  lemma NodesAreHeads(rings: Lists, owner: Owners, at: map<Pos, Addr>, posOf: map<Addr, Pos>, size: map<Addr, Tag>)
    requires Owned(rings, owner) && Shape(at, posOf, rings, size)
    ensures ListsOwnNodes(rings, owner, posOf)
  {
    forall k, j | k in rings && !k.CacheChain? && 1 <= j < |rings[k]| && rings[k][j].Block?
      ensures rings[k][j].addr !in posOf
    {
      var a := rings[k][j].addr;
      assert rings[k][0] != rings[k][j];
      assert a in posOf ==> ShapeAt(at, posOf, rings, size, posOf[a]);
    }
  }

  lemma NodeOwner(rings: Lists, owner: Owners, at: map<Pos, Addr>, posOf: map<Addr, Pos>, size: map<Addr, Tag>, a: Addr)
    requires Owned(rings, owner) && Shape(at, posOf, rings, size) && a in posOf
    ensures posOf[a] in at && at[posOf[a]] == a && ShapeAt(at, posOf, rings, size, posOf[a])
    ensures Block(a) in owner && owner[Block(a)] == LargeRing(size[a].n)
    ensures rings[LargeRing(size[a].n)][0] == Block(a)
  {
    assert ShapeAt(at, posOf, rings, size, posOf[a]);
  }

  lemma ListFacts(rings: Lists, size: map<Addr, Tag>, k: Key)
    requires Kinds(rings, size)
    ensures k.SmallRing? && k.index < NUM_BUCKETS ==> k in rings && |rings[k]| > 0 && rings[k][0] == SmallHead(k.index)
    ensures k.RestRing? ==> k in rings && |rings[k]| > 0 && rings[k][0] == RestHead
    ensures k in rings ==> KindOk(k, rings[k], size)
  {
    assert k in rings ==> KindOk(k, rings[k], size);
  }

  lemma BitsAddSmall(freeBitmap: nat, largeBitmap: nat, rings: Lists, at: map<Pos, Addr>, i: nat, c: seq<Ptr>, wasEmpty: bool)
    requires BitsOk(freeBitmap, largeBitmap, rings, at)
    requires i < NUM_BUCKETS && |c| >= 2
    ensures BitsOk(if wasEmpty then SetBit(freeBitmap, i) else freeBitmap, largeBitmap, rings[SmallRing(i) := c], at)
  {
    var bits := if wasEmpty then SetBit(freeBitmap, i) else freeBitmap;
    forall j: nat | Bit(bits, j)
      ensures j < NUM_BUCKETS && SmallRing(j) in rings[SmallRing(i) := c] && |rings[SmallRing(i) := c][SmallRing(j)]| >= 2
    {
      SetBitSpec(freeBitmap, i, j);
    }
  }

  function AddrOf(e: Ptr): set<Addr> {
    if e.Block? then {e.addr} else {}
  }

  /** The blocks in the free lists, and the blocks in the cache. */
  ghost function FreeAddrs(owner: Owners): set<Addr> {
    set e | e in owner && e.Block? && !owner[e].CacheChain? :: e.addr
  }

  ghost function CachedAddrs(owner: Owners): set<Addr> {
    set e | e in owner && e.Block? && owner[e].CacheChain? :: e.addr
  }

  lemma AddrsAdd(owner: Owners, b: Addr, k: Key)
    requires Block(b) !in owner
    ensures !k.CacheChain? ==> FreeAddrs(owner[Block(b) := k]) == FreeAddrs(owner) + {b}
    ensures !k.CacheChain? ==> CachedAddrs(owner[Block(b) := k]) == CachedAddrs(owner)
    ensures k.CacheChain? ==> FreeAddrs(owner[Block(b) := k]) == FreeAddrs(owner)
    ensures k.CacheChain? ==> CachedAddrs(owner[Block(b) := k]) == CachedAddrs(owner) + {b}
  {
    var owner' := owner[Block(b) := k];
    assert forall a: Addr :: a in FreeAddrs(owner') <==> Block(a) in owner' && !owner'[Block(a)].CacheChain?;
    assert forall a: Addr :: a in CachedAddrs(owner') <==> Block(a) in owner' && owner'[Block(a)].CacheChain?;
    assert forall a: Addr :: a in FreeAddrs(owner) <==> Block(a) in owner && !owner[Block(a)].CacheChain?;
    assert forall a: Addr :: a in CachedAddrs(owner) <==> Block(a) in owner && owner[Block(a)].CacheChain?;
  }

  lemma AddrsRemove(owner: Owners, b: Addr)
    requires Block(b) in owner
    ensures !owner[Block(b)].CacheChain? ==> FreeAddrs(owner - {Block(b)}) == FreeAddrs(owner) - {b}
    ensures !owner[Block(b)].CacheChain? ==> CachedAddrs(owner - {Block(b)}) == CachedAddrs(owner)
    ensures owner[Block(b)].CacheChain? ==> FreeAddrs(owner - {Block(b)}) == FreeAddrs(owner)
    ensures owner[Block(b)].CacheChain? ==> CachedAddrs(owner - {Block(b)}) == CachedAddrs(owner) - {b}
  {
    var owner' := owner - {Block(b)};
    assert forall a: Addr :: a in FreeAddrs(owner') <==> Block(a) in owner' && !owner'[Block(a)].CacheChain?;
    assert forall a: Addr :: a in CachedAddrs(owner') <==> Block(a) in owner' && owner'[Block(a)].CacheChain?;
    assert forall a: Addr :: a in FreeAddrs(owner) <==> Block(a) in owner && !owner[Block(a)].CacheChain?;
    assert forall a: Addr :: a in CachedAddrs(owner) <==> Block(a) in owner && owner[Block(a)].CacheChain?;
  }

  // ---- what an operation on the lists may store, and where ----

  /** The operation works on block `b`; it may store into the link fields of `b` and of
      the blocks in the free lists. */
  ghost predicate MayOverwrite(owner: Owners, b: Addr, a: Addr) {
    a == b || (Block(a) in owner && !owner[Block(a)].CacheChain?)
  }

  ghost predicate MayWrite(owner: Owners, b: Addr, written: set<Addr>) {
    forall a :: a in written ==> MayOverwrite(owner, b, a)
  }

  ghost predicate LargeBlock(size: map<Addr, Tag>, a: Addr) {
    a in size && !SmallSize(size[a].n)
  }

  /** Where the link fields of block `a` end. */
  ghost function LinksEnd(size: map<Addr, Tag>, a: Addr): Addr {
    a + if LargeBlock(size, a) then LARGE_LINKS else SMALL_LINKS
  }

  /** Byte `x` lies in link fields that may be stored to. */
  ghost predicate InLinks(owner: Owners, size: map<Addr, Tag>, b: Addr, x: Addr) {
    exists a :: MayOverwrite(owner, b, a) && a + HEADER <= x < LinksEnd(size, a)
  }

  ghost predicate SameAt<K, V>(m: map<K, V>, m': map<K, V>, k: K) {
    (k in m <==> k in m') && (k in m ==> m'[k] == m[k])
  }

  ghost predicate SameFields(s: Store, s': Store, a: Addr) {
    && SameAt(s.next, s'.next, Block(a)) && SameAt(s.prev, s'.prev, Block(a)) && SameAt(s.parent, s'.parent, a)
    && SameAt(s.cell, s'.cell, Child(a, 0)) && SameAt(s.cell, s'.cell, Child(a, 1))
  }

  /** Link fields of other blocks are as before, and so are all bytes outside the link
      fields that may be stored to. */
  ghost predicate Untouched(s: Store, s': Store, owner: Owners, size: map<Addr, Tag>, b: Addr) {
    && (forall a :: !MayOverwrite(owner, b, a) ==> SameFields(s, s', a))
    && (forall x :: x in s.data && !InLinks(owner, size, b, x) ==> x in s'.data && s'.data[x] == s.data[x])
    && (forall x :: x in s'.data ==> x in s.data)
  }

  lemma UntouchedRefl(s: Store, owner: Owners, size: map<Addr, Tag>, b: Addr)
    ensures Untouched(s, s, owner, size, b)
  {
  }

  lemma UntouchedTrans(s: Store, s': Store, s'': Store, owner: Owners, owner': Owners, size: map<Addr, Tag>, b: Addr, b': Addr)
    requires Untouched(s, s', owner, size, b) && Untouched(s', s'', owner', size, b')
    requires forall a: Addr :: a in FreeAddrs(owner') ==> a in FreeAddrs(owner) + {b}
    requires b' in FreeAddrs(owner) + {b}
    ensures Untouched(s, s'', owner, size, b)
  {
    assert forall a: Addr :: a in FreeAddrs(owner) <==> Block(a) in owner && !owner[Block(a)].CacheChain?;
    assert forall a: Addr :: a in FreeAddrs(owner') <==> Block(a) in owner' && !owner'[Block(a)].CacheChain?;
    assert forall a :: MayOverwrite(owner', b', a) ==> MayOverwrite(owner, b, a);
    forall x | InLinks(owner', size, b', x)
      ensures InLinks(owner, size, b, x)
    {
    }
  }

  /** Link words were stored to blocks of `written` only, and what they cover is no longer data. */
  lemma StoredUntouched(s: Store, s': Store, owner: Owners, size: map<Addr, Tag>, b: Addr, written: set<Addr>)
    requires MayWrite(owner, b, written) && LinksApart(s.next, s.prev, s.parent, s.cell, s.data)
    requires s'.data == NotLinks(s.data, s'.next, s'.prev, s'.parent, s'.cell)
    requires forall a :: a !in written ==> SameFields(s, s', a)
    requires forall a :: a in s'.parent && a !in s.parent ==> LargeBlock(size, a)
    requires forall a ::
      (Child(a, 0) in s'.cell && Child(a, 0) !in s.cell) || (Child(a, 1) in s'.cell && Child(a, 1) !in s.cell) ==>
        LargeBlock(size, a)
    ensures Untouched(s, s', owner, size, b)
    ensures LinksApart(s'.next, s'.prev, s'.parent, s'.cell, s'.data)
  {
    forall a | !MayOverwrite(owner, b, a)
      ensures SameFields(s, s', a)
    {
      assert a !in written;
    }
    forall x | x in s.data && !InLinks(owner, size, b, x)
      ensures !IsLink(s'.next, s'.prev, s'.parent, s'.cell, x)
    {
      assert !IsLink(s.next, s.prev, s.parent, s.cell, x);
      FieldsCover(s, s', owner, size, b, written, x);
    }
  }

  /** The same for a block that joins a list behind `h`. */
  lemma JoinStores(s: Store, s': Store, owner: Owners, size: map<Addr, Tag>, b: Addr, h: Ptr, written: set<Addr>)
    requires h in s.next && MayWrite(owner, b, written) && {b} + AddrOf(h) + AddrOf(s.next[h]) <= written
    requires LinksApart(s.next, s.prev, s.parent, s.cell, s.data)
    requires s'.next == s.next[Block(b) := s.next[h]][h := Block(b)] && s'.prev == s.prev[Block(b) := h][s.next[h] := Block(b)]
    requires s'.parent == s.parent || (LargeBlock(size, b) && b in s'.parent && s'.parent == s.parent[b := s'.parent[b]])
    requires s'.cell == s.cell || (LargeBlock(size, b) && s'.cell == s.cell[Child(b, 0) := Null][Child(b, 1) := Null])
    requires s'.data == NotLinks(s.data, s'.next, s'.prev, s'.parent, s'.cell)
    ensures Untouched(s, s', owner, size, b)
    ensures LinksApart(s'.next, s'.prev, s'.parent, s'.cell, s'.data)
  {
    StoredUntouched(s, s', owner, size, b, written);
  }

  /** For a new leaf in slot `p`. */
  lemma LeafStores(s: Store, s': Store, owner: Owners, size: map<Addr, Tag>, b: Addr, p: Slot, written: set<Addr>)
    requires p in s.cell && MayWrite(owner, b, written) && b in written && (p.Child? ==> p.addr in written)
    requires LinksApart(s.next, s.prev, s.parent, s.cell, s.data) && LargeBlock(size, b)
    requires s'.next == s.next[Block(b) := Block(b)] && s'.prev == s.prev[Block(b) := Block(b)] && s'.parent == s.parent[b := At(p)]
    requires s'.cell == s.cell[Child(b, 0) := Null][Child(b, 1) := Null][p := Block(b)]
    requires s'.data == NotLinks(s.data, s'.next, s'.prev, s'.parent, s'.cell)
    ensures Untouched(s, s', owner, size, b)
    ensures LinksApart(s'.next, s'.prev, s'.parent, s'.cell, s'.data)
  {
    StoredUntouched(s, s', owner, size, b, written);
  }

  /** For a block that leaves its ring. */
  lemma LeaveStores(s: Store, s': Store, owner: Owners, size: map<Addr, Tag>, b: Addr, pv: Ptr, nx: Ptr)
    requires pv in s.next && nx in s.prev && MayWrite(owner, b, AddrOf(pv) + AddrOf(nx))
    requires LinksApart(s.next, s.prev, s.parent, s.cell, s.data)
    requires s'.next == s.next[pv := nx] && s'.prev == s.prev[nx := pv] && s'.parent == s.parent && s'.cell == s.cell
    requires s'.data == NotLinks(s.data, s'.next, s'.prev, s'.parent, s'.cell)
    ensures Untouched(s, s', owner, size, b)
    ensures LinksApart(s'.next, s'.prev, s'.parent, s'.cell, s'.data)
  {
    StoredUntouched(s, s', owner, size, b, AddrOf(pv) + AddrOf(nx));
  }

  lemma FieldsCover(s: Store, s': Store, owner: Owners, size: map<Addr, Tag>, b: Addr, written: set<Addr>, x: Addr)
    requires MayWrite(owner, b, written) && !InLinks(owner, size, b, x)
    requires forall a :: a !in written ==> SameFields(s, s', a)
    requires forall a :: a in s'.parent && a !in s.parent ==> LargeBlock(size, a)
    requires forall a ::
      (Child(a, 0) in s'.cell && Child(a, 0) !in s.cell) || (Child(a, 1) in s'.cell && Child(a, 1) !in s.cell) ==>
        LargeBlock(size, a)
    requires !IsLink(s.next, s.prev, s.parent, s.cell, x)
    ensures !IsLink(s'.next, s'.prev, s'.parent, s'.cell, x)
  {
    var w := WordAt(x);
    NotCovered(owner, size, b, written, w - PREV_FREE, x);
    NotCovered(owner, size, b, written, w - NEXT_FREE, x);
    NotCovered(owner, size, b, written, w - PARENT, x);
    NotCovered(owner, size, b, written, w - LEFT_CHILD, x);
    NotCovered(owner, size, b, written, w - RIGHT_CHILD, x);
    assert w <= x < w + 8;
    hide WordAt;
  }

  lemma NotCovered(owner: Owners, size: map<Addr, Tag>, b: Addr, written: set<Addr>, a: Addr, x: Addr)
    requires MayWrite(owner, b, written) && !InLinks(owner, size, b, x)
    ensures a in written ==> !(a + HEADER <= x < LinksEnd(size, a))
  {
    if a in written {
      assert MayOverwrite(owner, b, a);
    }
  }

  /** The words of the lists do not lie in [lo, hi). */
  ghost predicate ListsOutside(owner: Owners, size: map<Addr, Tag>, lo: Addr, hi: Addr) {
    forall a :: Block(a) in owner ==> a in size && (a + size[a].n <= lo || hi <= a)
  }

  lemma ListedSize(v: View, size: map<Addr, Tag>, a: Addr)
    requires Owned(v.rings, v.owner) && Kinds(v.rings, size) && Block(a) in v.owner
    ensures a in size && size[a].n >= MIN_BLOCK
    ensures v.owner[Block(a)].LargeRing? ==> LargeBlock(size, a)
  {
    var k := v.owner[Block(a)];
    var j := IndexOf(v.rings[k], Block(a));
    ListFacts(v.rings, size, k);
    assert k.LargeRing? || k.CacheChain? || j >= 1;
    hide Owned; hide Kinds;
    assert k.RestRing? ==> ValidBlock(v.rings[k][j], size);
    assert k.LargeRing? ==> BlockOfSize(v.rings[k][j], size, k.size);
    assert k.SmallRing? ==> BlockOfSize(v.rings[k][j], size, ClassSize(k.index));
    assert k.CacheChain? ==> BlockOfSize(v.rings[k][j], size, ClassSize(k.index));
  }

  lemma WordsKept(v: View, size: map<Addr, Tag>, w: Words, off: nat, lo: Addr, hi: Addr)
    requires Owned(v.rings, v.owner) && Kinds(v.rings, size) && ListsOutside(v.owner, size, lo, hi)
    requires off == PREV_FREE || off == NEXT_FREE
    ensures forall e :: e in v.owner && e in w ==> e in LinksOutside(w, off, lo, hi) && LinksOutside(w, off, lo, hi)[e] == w[e]
  {
    forall e | e in v.owner && e in w
      ensures !LinkWithin(e, off, lo, hi)
    {
      if e.Block? {
        ListedSize(v, size, e.addr);
      }
    }
  }

  lemma ParentsKept(v: View, size: map<Addr, Tag>, parent: map<Addr, Parent>, lo: Addr, hi: Addr)
    requires Owned(v.rings, v.owner) && Kinds(v.rings, size) && ListsOutside(v.owner, size, lo, hi)
    ensures forall a :: Block(a) in v.owner && LargeBlock(size, a) && a in parent ==>
      a in ParentsOutside(parent, lo, hi) && ParentsOutside(parent, lo, hi)[a] == parent[a]
  {
  }

  lemma CellsKept(v: View, size: map<Addr, Tag>, cell: map<Slot, Ptr>, lo: Addr, hi: Addr)
    requires Owned(v.rings, v.owner) && Kinds(v.rings, size) && ListsOutside(v.owner, size, lo, hi)
    ensures forall a, side :: Block(a) in v.owner && LargeBlock(size, a) && Child(a, side) in cell ==>
      Child(a, side) in CellsOutside(cell, lo, hi) && CellsOutside(cell, lo, hi)[Child(a, side)] == cell[Child(a, side)]
    ensures forall i :: Bucket(i) in cell ==>
      Bucket(i) in CellsOutside(cell, lo, hi) && CellsOutside(cell, lo, hi)[Bucket(i)] == cell[Bucket(i)]
  {
  }

  lemma MarksKept(v: View, size: map<Addr, Tag>, parent: map<Addr, Parent>, parent': map<Addr, Parent>)
    requires Owned(v.rings, v.owner) && Kinds(v.rings, size) && Marks(v.rings, parent, size)
    requires forall a :: Block(a) in v.owner && LargeBlock(size, a) && a in parent ==> a in parent' && parent'[a] == parent[a]
    ensures Marks(v.rings, parent', size)
  {
    forall k | k in v.rings
      ensures MarkOk(k, v.rings[k], parent', size)
    {
      assert MarkOk(k, v.rings[k], parent, size);
      ListFacts(v.rings, size, k);
      forall j | 1 <= j < |v.rings[k]| && k.LargeRing?
        ensures Marked(v.rings[k][j], parent', NoParent)
      {
        assert Marked(v.rings[k][j], parent, NoParent);
        assert v.rings[k][j] in v.owner;
        ListedSize(v, size, v.rings[k][j].addr);
      }
    }
  }

  lemma TriesKept(v: View, size: map<Addr, Tag>, parent: map<Addr, Parent>, parent': map<Addr, Parent>,
                  cell: map<Slot, Ptr>, cell': map<Slot, Ptr>)
    requires Owned(v.rings, v.owner) && Kinds(v.rings, size) && Shape(v.at, v.posOf, v.rings, size) && Cells(v.at, cell, parent)
    requires forall a :: Block(a) in v.owner && LargeBlock(size, a) && a in parent ==> a in parent' && parent'[a] == parent[a]
    requires forall a, side :: Block(a) in v.owner && LargeBlock(size, a) && Child(a, side) in cell ==>
      Child(a, side) in cell' && cell'[Child(a, side)] == cell[Child(a, side)]
    requires forall i :: Bucket(i) in cell ==> Bucket(i) in cell' && cell'[Bucket(i)] == cell[Bucket(i)]
    ensures Cells(v.at, cell', parent')
  {
    hide Shape; hide Cells; hide Kinds; hide Owned; hide BucketAt; hide CellsAt;
    ShapeIsClosed(v.at, v.posOf, v.rings, size);
    forall p | p in v.at
      ensures CellsAt(v.at, cell', parent', p)
    {
      CellsHold(v.at, cell, parent, p);
      ClosedAt(v.at, v.posOf, p);
      NodeOwner(v.rings, v.owner, v.at, v.posOf, size, v.at[p]);
      ListedSize(v, size, v.at[p]);
      SameCells(v.at, cell, cell', parent, parent', p);
    }
    forall i | 0 <= i < NUM_BUCKETS
      ensures BucketAt(v.at, cell', i)
    {
      BucketHolds(v.at, cell, parent, i);
      SameBucket(v.at, cell, cell', i);
    }
    CellsMade(v.at, cell', parent');
  }

  lemma CellsMade(at: map<Pos, Addr>, cell: map<Slot, Ptr>, parent: map<Addr, Parent>)
    requires forall i :: 0 <= i < NUM_BUCKETS ==> BucketAt(at, cell, i)
    requires forall p :: p in at ==> CellsAt(at, cell, parent, p)
    ensures Cells(at, cell, parent)
  {
    hide BucketAt; hide CellsAt;
  }

  lemma SameCells(at: map<Pos, Addr>, cell: map<Slot, Ptr>, cell': map<Slot, Ptr>, parent: map<Addr, Parent>,
                  parent': map<Addr, Parent>, p: Pos)
    requires p in at && CellsAt(at, cell, parent, p)
    requires at[p] in parent ==> at[p] in parent' && parent'[at[p]] == parent[at[p]]
    requires forall side :: Child(at[p], side) in cell ==>
      Child(at[p], side) in cell' && cell'[Child(at[p], side)] == cell[Child(at[p], side)]
    ensures CellsAt(at, cell', parent', p)
  {
  }

  lemma SameBucket(at: map<Pos, Addr>, cell: map<Slot, Ptr>, cell': map<Slot, Ptr>, i: nat)
    requires BucketAt(at, cell, i)
    requires Bucket(i) in cell ==> Bucket(i) in cell' && cell'[Bucket(i)] == cell[Bucket(i)]
    ensures BucketAt(at, cell', i)
  {
  }

  lemma LinkedKept(v: View, next: Words, prev: Words, next': Words, prev': Words)
    requires ListsOk(next, prev, v.heads, v.rings, v.owner)
    requires forall e :: e in v.owner && e in next ==> e in next' && next'[e] == next[e]
    requires forall e :: e in v.owner && e in prev ==> e in prev' && prev'[e] == prev[e]
    ensures ListsOk(next', prev', v.heads, v.rings, v.owner)
  {
    hide Linked; hide Chained;
    forall k | k in v.rings && !k.CacheChain?
      ensures Linked(next', prev', v.rings[k])
    {
      assert forall e :: e in v.rings[k] ==> e in v.owner;
      LinkedWords(next, prev, v.rings[k]);
      LinkedFrame(next, prev, next', prev', v.rings[k]);
    }
    forall i | 0 <= i < |v.heads|
      ensures Chained(prev', v.heads[i], v.rings[CacheChain(i)])
    {
      assert forall e :: e in v.rings[CacheChain(i)] ==> e in v.owner;
      ChainedWords(prev, v.heads[i], v.rings[CacheChain(i)]);
      ChainedFrame(prev, prev', v.heads[i], v.rings[CacheChain(i)]);
    }
  }

  lemma LinkedWords(next: Words, prev: Words, c: seq<Ptr>)
    requires Linked(next, prev, c)
    ensures forall e :: e in c ==> e in next && e in prev
  {
  }

  lemma ChainedWords(prev: Words, head: Ptr, c: seq<Ptr>)
    requires Chained(prev, head, c)
    ensures forall e :: e in c ==> e in prev
  {
  }

  /** Words that lie in [lo, hi) can be forgotten when no list has its words there. */
  lemma VacateOk(next: Words, prev: Words, parent: map<Addr, Parent>, cell: map<Slot, Ptr>,
                 freeBitmap: nat, largeBitmap: nat, v: View, size: map<Addr, Tag>, lo: Addr, hi: Addr)
    requires ViewOk(next, prev, parent, cell, freeBitmap, largeBitmap, v, size) && ListsOutside(v.owner, size, lo, hi)
    ensures ViewOk(LinksOutside(next, NEXT_FREE, lo, hi), LinksOutside(prev, PREV_FREE, lo, hi), ParentsOutside(parent, lo, hi),
                   CellsOutside(cell, lo, hi), freeBitmap, largeBitmap, v, size)
  {
    hide AllLinked; hide AllChained; hide Owned; hide Kinds; hide Shape; hide Marks; hide Cells; hide BitsOk; hide ListsOutside;
    hide LinksOutside; hide ParentsOutside; hide CellsOutside;
    WordsKept(v, size, next, NEXT_FREE, lo, hi);
    WordsKept(v, size, prev, PREV_FREE, lo, hi);
    LinkedKept(v, next, prev, LinksOutside(next, NEXT_FREE, lo, hi), LinksOutside(prev, PREV_FREE, lo, hi));
    ParentsKept(v, size, parent, lo, hi);
    CellsKept(v, size, cell, lo, hi);
    MarksKept(v, size, parent, ParentsOutside(parent, lo, hi));
    TriesKept(v, size, parent, ParentsOutside(parent, lo, hi), cell, CellsOutside(cell, lo, hi));
  }

  lemma LargeRingsOfBucket(rings: Lists, at: map<Pos, Addr>, posOf: map<Addr, Pos>, size: map<Addr, Tag>, n: nat)
    requires Shape(at, posOf, rings, size) && LargeRing(n) in rings && n > 0
    ensures |rings[LargeRing(n)]| > 0 && rings[LargeRing(n)][0].Block?
    ensures exists q :: q in at && Block(at[q]) == rings[LargeRing(n)][0] && q.bucket == HighBit(n) && at[q] in size && size[at[q]].n == n
  {
    assert HeadPlaced(posOf, rings, size, n);
    var a := rings[LargeRing(n)][0].addr;
    assert ShapeAt(at, posOf, rings, size, posOf[a]);
    assert at[posOf[a]] == a;
  }

  /** With its root missing a bucket has no rings. */
  lemma EmptyBucket(rings: Lists, at: map<Pos, Addr>, posOf: map<Addr, Pos>, size: map<Addr, Tag>, n: nat)
    requires Shape(at, posOf, rings, size) && n > 0 && Pos(HighBit(n), 1) !in at
    ensures LargeRing(n) !in rings
  {
    ShapeIsClosed(at, posOf, rings, size);
    if LargeRing(n) in rings {
      LargeRingsOfBucket(rings, at, posOf, size, n);
      var q :| q in at && q.bucket == HighBit(n);
      RootPrefix(q.path);
      PrefixOccupied(at, posOf, q.bucket, 1, q.path);
      assert false;
    }
  }

  /** A node of size `n` below prefix `path`, not at it, lies beyond the next prefix. */
  lemma NodeBeyond(rings: Lists, at: map<Pos, Addr>, posOf: map<Addr, Pos>, size: map<Addr, Tag>, q: Pos, path: nat, n: nat)
    requires Shape(at, posOf, rings, size) && q in at && at[q] in size && size[at[q]].n == n
    requires Prefix(path, n) && 1 <= path < q.path
    ensures path < n && Step(path, n) <= q.path && Pos(q.bucket, Step(path, n)) in at
  {
    ShapeIsClosed(at, posOf, rings, size);
    assert ShapeAt(at, posOf, rings, size, q);
    PrefixTotal(path, q.path, n);
    StepThrough(path, q.path, n);
    PrefixOccupied(at, posOf, q.bucket, Step(path, q.path), q.path);
  }
}
