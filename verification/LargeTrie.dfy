/** The bitwise tries of large free blocks. A node's position is the binary prefix of its
    size that leads to it: the root of a bucket is the prefix 1, and the child on side s
    of the node at prefix n is at prefix 2n + s. */
module LargeTrie {
  import opened Bits
  import opened Sizes
  import opened Tags
  import opened Rings

  datatype Pos = Pos(bucket: nat, path: nat)

  /** What a pointer to a pointer cell may denote: a bucket head or a child of a block. */
  datatype Slot = Bucket(index: nat) | Child(addr: Addr, side: nat)

  /** The `parent` word: NULL for a ring mate, the rest-list mark, or a cell. */
  datatype Parent = NoParent | RestMark | At(slot: Slot)

  // ---- prefixes of binary numbers ----

  predicate Prefix(n: nat, s: nat) {
    n == s || (n < s && Prefix(n, s / 2))
  }

  /** The prefix of `s` one bit longer than `n`. */
  function Step(n: nat, s: nat): (r: nat)
    requires Prefix(n, s) && n < s
    ensures Prefix(r, s) && r / 2 == n && n <= r <= s
  {
    if s / 2 == n then s else Step(n, s / 2)
  }

  lemma {:induction false} PrefixTrans(a: nat, b: nat, c: nat)
    requires Prefix(a, b) && Prefix(b, c)
    ensures Prefix(a, c)
  {
    if b < c {
      PrefixTrans(a, b, c / 2);
      if a == c {
        PrefixLe(a, b);
      }
    }
  }

  lemma {:induction false} PrefixLe(a: nat, b: nat)
    requires Prefix(a, b)
    ensures a <= b
  {
  }

  /** Two prefixes of one number are prefixes one of the other. */
  lemma {:induction false} PrefixTotal(a: nat, b: nat, s: nat)
    requires Prefix(a, s) && Prefix(b, s) && a <= b
    ensures Prefix(a, b)
  {
    if b < s {
      PrefixTotal(a, b, s / 2);
    }
  }

  lemma {:induction false} RootPrefix(s: nat)
    requires s >= 1
    ensures Prefix(1, s)
  {
    if s > 1 {
      RootPrefix(s / 2);
    }
  }

  /** The next prefix towards `s` is the next prefix towards any longer prefix of `s`. */
  lemma {:induction false} StepThrough(n: nat, p: nat, s: nat)
    requires Prefix(n, p) && n < p && Prefix(p, s) && 1 <= n
    ensures Prefix(n, s) && n < s && Step(n, p) == Step(n, s)
  {
    PrefixTrans(n, p, s);
    PrefixLe(p, s);
    if p < s {
      StepThrough(n, p, s / 2);
      PrefixLe(p, s / 2);
    }
  }

  lemma {:induction false} StepUnique(n: nat, r: nat, s: nat)
    requires Prefix(n, s) && n < s && Prefix(r, s) && r / 2 == n && n >= 1
    ensures Step(n, s) == r
  {
    var t := Step(n, s);
    if t <= r {
      PrefixTotal(t, r, s);
      if t < r {
        PrefixLe(t, n);
      }
    } else {
      PrefixTotal(r, t, s);
      PrefixLe(r, n);
    }
  }

  // ---- the shift register that steers a descent ----

  /** `m` holds, at its top, the bits of `s` below its prefix `n`; `k` of them are left. */
  ghost predicate Shifted(m: nat, n: nat, s: nat, k: nat) {
    var low := s - n * Pow2(k);
    0 <= low < Pow2(k) && m * Pow2(k) == low * WORD
  }

  lemma StepBits(n: nat, s: nat)
    requires Prefix(n, s) && n < s && n >= 1
    ensures Prefix(Step(n, s), s) && Step(n, s) / 2 == n && 1 < Step(n, s) <= s
  {
  }

  lemma {:induction false} QuotientIsPrefix(n: nat, s: nat, k: nat)
    requires n >= 1 && 0 <= s - n * Pow2(k) < Pow2(k)
    ensures Prefix(n, s)
  {
    if k > 0 {
      var h := Pow2(k - 1);
      assert n * Pow2(k) == 2 * (n * h);
      QuotientIsPrefix(n, s / 2, k - 1);
      assert n * Pow2(k) >= 2 * n by {
        assert n * h >= n;
      }
    }
  }

  /** `size << (ZEND_MM_NUM_BUCKETS - index)` drops the leading one and keeps the rest. */
  lemma ShiftStart(s: nat)
    requires 0 < s < WORD
    ensures HighBit(s) < 64
    ensures Shifted(Wrap(s * Pow2(64 - HighBit(s))), 1, s, HighBit(s))
  {
    hide Wrap;
    hide Pow2;
    hide HighBit;
    HighBitOfWord(s);
    HighBitBounds(s);
    var k := HighBit(s);
    Pow2Add(k, 64 - k);
    Pow2Of64();
    var p, q := Pow2(k), Pow2(64 - k);
    var low := s - p;
    StartProducts(low, p, q);
    assert s == low + p;
    WrapOnce(low * q);
    IsShifted(low * q, 1, s, k, low);
  }

  lemma IsShifted(m: nat, n: nat, s: nat, k: nat, low: nat)
    requires s == n * Pow2(k) + low && low < Pow2(k) && m * Pow2(k) == low * WORD
    ensures Shifted(m, n, s, k)
  {
  }

  lemma StartProducts(low: nat, p: nat, q: nat)
    requires p * q == WORD && low < p && q > 0
    ensures (low + p) * q == low * q + WORD
    ensures low * q < WORD
    ensures low * q * p == low * WORD
  {
    ProductLess(low, p, q);
    assert low * q * p == low * (q * p);
  }

  lemma ProductLess(a: nat, b: nat, c: nat)
    requires a < b && c > 0
    ensures a * c < b * c
  {
  }

  lemma WrapOnce(x: nat)
    requires x < WORD
    ensures Wrap(x + WORD) == x && Wrap(x) == x
  {
  }

  /** (m >> (ZEND_MM_NUM_BUCKETS - 1)) & 1, the top bit of the shift register. */
  function TopBit(m: nat): nat {
    m / 0x8000_0000_0000_0000
  }

  /** m <<= 1. */
  function ShiftedOn(m: nat): nat {
    Wrap(2 * m)
  }

  /** size << (ZEND_MM_NUM_BUCKETS - index). */
  function ShiftRegister(s: nat, index: nat): nat
    requires index < NUM_BUCKETS
  {
    Wrap(s * Pow2(NUM_BUCKETS - index))
  }

  lemma RegisterStart(s: nat)
    requires 0 < s < WORD
    ensures HighBit(s) < NUM_BUCKETS && Shifted(ShiftRegister(s, HighBit(s)), 1, s, HighBit(s))
  {
    ShiftStart(s);
  }

  lemma RegisterStep(m: nat, n: nat, s: nat, k: nat)
    requires Shifted(m, n, s, k) && n >= 1 && n < s
    ensures k >= 1 && Prefix(n, s) && TopBit(m) < 2
    ensures Step(n, s) == 2 * n + TopBit(m) && Step(n, s) > 1 && Prefix(Step(n, s), s)
    ensures Shifted(ShiftedOn(m), Step(n, s), s, k - 1)
  {
    ShiftStep(m, n, s, k);
    StepBits(n, s);
  }

  lemma ShiftStep(m: nat, n: nat, s: nat, k: nat)
    requires Shifted(m, n, s, k) && n >= 1 && n < s
    ensures k >= 1 && Prefix(n, s)
    ensures m < WORD && m / 0x8000_0000_0000_0000 < 2
    ensures Step(n, s) == 2 * n + m / 0x8000_0000_0000_0000
    ensures Shifted(Wrap(2 * m), Step(n, s), s, k - 1)
  {
    QuotientIsPrefix(n, s, k);
    assert n * Pow2(0) == n;
    var h := Pow2(k - 1);
    StepProducts(m, n, s, h);
    var n' := 2 * n + m / 0x8000_0000_0000_0000;
    QuotientIsPrefix(n', s, k - 1);
    StepUnique(n, n', s);
  }

  lemma StepProducts(m: nat, n: nat, s: nat, h: nat)
    requires h > 0 && 0 <= s - n * (2 * h) < 2 * h && m * (2 * h) == (s - n * (2 * h)) * WORD
    ensures m < WORD && m / 0x8000_0000_0000_0000 < 2
    ensures var n' := 2 * n + m / 0x8000_0000_0000_0000;
      0 <= s - n' * h < h && Wrap(2 * m) * h == (s - n' * h) * WORD
  {
    var low := s - n * (2 * h);
    ProductLe(WORD, m, 2 * h);
    ProductLess(low, 2 * h, WORD);
    ShiftBit(m, low, h);
    var bit := m / 0x8000_0000_0000_0000;
    assert (2 * n + bit) * h == n * (2 * h) + bit * h;
  }

  lemma ProductLe(a: nat, b: nat, c: nat)
    ensures a <= b ==> a * c <= b * c
  {
  }

  /** The top bit of the register says in which half the remaining number lies. */
  lemma ShiftBit(m: nat, low: nat, h: nat)
    requires m < WORD && h > 0 && low < 2 * h && m * (2 * h) == low * WORD
    ensures var bit := m / 0x8000_0000_0000_0000;
      && bit < 2
      && 0 <= low - bit * h < h
      && Wrap(2 * m) == 2 * m - bit * WORD
      && Wrap(2 * m) * h == (low - bit * h) * WORD
  {
    var half := 0x8000_0000_0000_0000;
    assert m * (2 * h) == (m * h) * 2;
    if m >= half {
      ProductLe(half, m, h);
      WrapOnce(2 * m - WORD);
      assert (2 * m - WORD) * h == 2 * (m * h) - WORD * h;
    } else {
      ProductLe(m, half - 1, h);
      WrapOnce(2 * m);
    }
  }

  // ---- where the nodes are ----

  /** `rings` gives each size present its ring, the trie node first. */
  ghost predicate Shape(at: map<Pos, Addr>, posOf: map<Addr, Pos>, rings: map<Key, seq<Ptr>>, size: map<Addr, Tag>) {
    && (forall p :: p in at ==> ShapeAt(at, posOf, rings, size, p))
    && (forall a :: a in posOf ==> posOf[a] in at && at[posOf[a]] == a)
    && (forall s :: LargeRing(s) in rings ==> HeadPlaced(posOf, rings, size, s))
  }

  ghost predicate ShapeAt(at: map<Pos, Addr>, posOf: map<Addr, Pos>, rings: map<Key, seq<Ptr>>, size: map<Addr, Tag>, p: Pos)
    requires p in at
  {
    && p.bucket < NUM_BUCKETS && p.path >= 1
    && at[p] in posOf && posOf[at[p]] == p
    && (p.path > 1 ==> Pos(p.bucket, p.path / 2) in at)
    && at[p] in size && size[at[p]].n > 0
    && Prefix(p.path, size[at[p]].n) && HighBit(size[at[p]].n) == p.bucket
    && LargeRing(size[at[p]].n) in rings
    && |rings[LargeRing(size[at[p]].n)]| > 0
    && rings[LargeRing(size[at[p]].n)][0] == Block(at[p])
  }

  ghost predicate HeadPlaced(posOf: map<Addr, Pos>, rings: map<Key, seq<Ptr>>, size: map<Addr, Tag>, s: nat)
    requires LargeRing(s) in rings
  {
    && |rings[LargeRing(s)]| > 0
    && rings[LargeRing(s)][0].Block?
    && rings[LargeRing(s)][0].addr in posOf
    && rings[LargeRing(s)][0].addr in size
    && size[rings[LargeRing(s)][0].addr].n == s
  }

  function SlotOf(at: map<Pos, Addr>, p: Pos): Slot
    requires p.path > 1 ==> Pos(p.bucket, p.path / 2) in at
  {
    if p.path <= 1 then Bucket(p.bucket) else Child(at[Pos(p.bucket, p.path / 2)], p.path % 2)
  }

  function PtrAt(at: map<Pos, Addr>, p: Pos): Ptr {
    if p in at then Block(at[p]) else Null
  }

  ghost predicate Closed(at: map<Pos, Addr>, posOf: map<Addr, Pos>) {
    && (forall p :: p in at ==> p.bucket < NUM_BUCKETS && p.path >= 1 && at[p] in posOf && posOf[at[p]] == p)
    && (forall p :: p in at && p.path > 1 ==> Pos(p.bucket, p.path / 2) in at)
    && (forall a :: a in posOf ==> posOf[a] in at && at[posOf[a]] == a)
  }

  /** The pointer cells and parent words say what `at` says. */
  ghost predicate Cells(at: map<Pos, Addr>, cell: map<Slot, Ptr>, parent: map<Addr, Parent>) {
    && (forall i :: 0 <= i < NUM_BUCKETS ==> BucketAt(at, cell, i))
    && (forall p :: p in at ==> CellsAt(at, cell, parent, p))
  }

  ghost predicate BucketAt(at: map<Pos, Addr>, cell: map<Slot, Ptr>, i: nat) {
    Bucket(i) in cell && cell[Bucket(i)] == PtrAt(at, Pos(i, 1))
  }

  ghost predicate CellsAt(at: map<Pos, Addr>, cell: map<Slot, Ptr>, parent: map<Addr, Parent>, p: Pos)
    requires p in at
  {
    && (p.path > 1 ==> Pos(p.bucket, p.path / 2) in at)
    && at[p] in parent && parent[at[p]] == At(SlotOf(at, p))
    && Child(at[p], 0) in cell && cell[Child(at[p], 0)] == PtrAt(at, Pos(p.bucket, 2 * p.path))
    && Child(at[p], 1) in cell && cell[Child(at[p], 1)] == PtrAt(at, Pos(p.bucket, 2 * p.path + 1))
  }

  lemma ShapeIsClosed(at: map<Pos, Addr>, posOf: map<Addr, Pos>, rings: map<Key, seq<Ptr>>, size: map<Addr, Tag>)
    requires Shape(at, posOf, rings, size)
    ensures Closed(at, posOf)
  {
    forall p | p in at
      ensures p.bucket < NUM_BUCKETS && p.path >= 1 && at[p] in posOf && posOf[at[p]] == p
      ensures p.path > 1 ==> Pos(p.bucket, p.path / 2) in at
    {
      assert ShapeAt(at, posOf, rings, size, p);
    }
  }

  lemma ClosedAt(at: map<Pos, Addr>, posOf: map<Addr, Pos>, p: Pos)
    requires Closed(at, posOf) && p in at
    ensures p.bucket < NUM_BUCKETS && p.path >= 1 && at[p] in posOf && posOf[at[p]] == p
    ensures p.path > 1 ==> Pos(p.bucket, p.path / 2) in at
  {
  }

  /** The slot that holds a node points back at it. */
  lemma SlotHolds(at: map<Pos, Addr>, posOf: map<Addr, Pos>, cell: map<Slot, Ptr>, parent: map<Addr, Parent>, p: Pos)
    requires Closed(at, posOf) && Cells(at, cell, parent) && p in at
    ensures p.path > 1 ==> Pos(p.bucket, p.path / 2) in at
    ensures SlotOf(at, p) in cell && cell[SlotOf(at, p)] == Block(at[p])
  {
    hide Closed; hide Cells; hide CellsAt;
    ClosedAt(at, posOf, p);
    if p.path > 1 {
      CellsHold(at, cell, parent, Pos(p.bucket, p.path / 2));
      ChildHolds(at, cell, parent, p.bucket, p.path / 2, p.path % 2);
    } else {
      BucketHolds(at, cell, parent, p.bucket);
    }
  }

  lemma CellsHold(at: map<Pos, Addr>, cell: map<Slot, Ptr>, parent: map<Addr, Parent>, p: Pos)
    requires Cells(at, cell, parent) && p in at
    ensures CellsAt(at, cell, parent, p)
  {
    hide CellsAt;
  }

  lemma BucketHolds(at: map<Pos, Addr>, cell: map<Slot, Ptr>, parent: map<Addr, Parent>, i: nat)
    requires Cells(at, cell, parent) && i < NUM_BUCKETS
    ensures BucketAt(at, cell, i)
  {
    hide CellsAt;
  }

  lemma ChildHolds(at: map<Pos, Addr>, cell: map<Slot, Ptr>, parent: map<Addr, Parent>, b: nat, h: nat, side: nat)
    requires side < 2 && h >= 1 && Pos(b, h) in at && Pos(b, 2 * h + side) in at && CellsAt(at, cell, parent, Pos(b, h))
    ensures Child(at[Pos(b, h)], side) in cell && cell[Child(at[Pos(b, h)], side)] == Block(at[Pos(b, 2 * h + side)])
  {
    hide SlotOf;
  }

  /** Every prefix of an occupied position is occupied. */
  lemma {:induction false} PrefixOccupied(at: map<Pos, Addr>, posOf: map<Addr, Pos>, b: nat, n: nat, p: nat)
    requires Closed(at, posOf) && Pos(b, p) in at && Prefix(n, p) && n >= 1
    ensures Pos(b, n) in at
    decreases p
  {
    if n < p {
      assert Pos(b, p).path > 1;
      PrefixOccupied(at, posOf, b, n, p / 2);
    }
  }

  // ---- adding a leaf ----

  ghost predicate FreeSpot(at: map<Pos, Addr>, p: Pos) {
    && p.bucket < NUM_BUCKETS && p.path >= 1 && p !in at
    && (p.path > 1 ==> Pos(p.bucket, p.path / 2) in at)
  }

  lemma NoChildren(at: map<Pos, Addr>, posOf: map<Addr, Pos>, p: Pos)
    requires Closed(at, posOf) && p !in at && p.path >= 1
    ensures Pos(p.bucket, 2 * p.path) !in at && Pos(p.bucket, 2 * p.path + 1) !in at
  {
    var l, r := Pos(p.bucket, 2 * p.path), Pos(p.bucket, 2 * p.path + 1);
    assert Pos(l.bucket, l.path / 2) == p && Pos(r.bucket, r.path / 2) == p;
  }

  lemma AddLeafCells(at: map<Pos, Addr>, posOf: map<Addr, Pos>, cell: map<Slot, Ptr>, parent: map<Addr, Parent>, p: Pos, b: Addr)
    requires Closed(at, posOf) && Cells(at, cell, parent) && FreeSpot(at, p) && b !in posOf
    ensures SlotOf(at, p) in cell && cell[SlotOf(at, p)] == Null
    ensures Cells(at[p := b], cell[Child(b, 0) := Null][Child(b, 1) := Null][SlotOf(at, p) := Block(b)],
                  parent[b := At(SlotOf(at, p))])
  {
    hide CellsAt;
    hide SlotOf;
    hide PtrAt;
    FreeSlotIsNull(at, cell, parent, p);
    var at' := at[p := b];
    var cell' := cell[Child(b, 0) := Null][Child(b, 1) := Null][SlotOf(at, p) := Block(b)];
    forall i | 0 <= i < NUM_BUCKETS
      ensures BucketAt(at', cell', i)
    {
      AddLeafBucket(at, cell, parent, p, b, i);
    }
    var parent' := parent[b := At(SlotOf(at, p))];
    forall q | q in at && q != p
      ensures CellsAt(at', cell', parent', q)
    {
      AddLeafCellsAt(at, posOf, cell, parent, p, b, q);
    }
    AddLeafSelf(at, posOf, cell, parent, p, b);
  }

  lemma FreeSlotIsNull(at: map<Pos, Addr>, cell: map<Slot, Ptr>, parent: map<Addr, Parent>, p: Pos)
    requires Cells(at, cell, parent) && FreeSpot(at, p)
    ensures SlotOf(at, p) in cell && cell[SlotOf(at, p)] == Null
  {
    if p.path > 1 {
      assert CellsAt(at, cell, parent, Pos(p.bucket, p.path / 2));
    } else {
      assert BucketAt(at, cell, p.bucket);
    }
  }

  lemma AddLeafBucket(at: map<Pos, Addr>, cell: map<Slot, Ptr>, parent: map<Addr, Parent>, p: Pos, b: Addr, i: nat)
    requires Cells(at, cell, parent) && FreeSpot(at, p) && i < NUM_BUCKETS
    ensures BucketAt(at[p := b], cell[Child(b, 0) := Null][Child(b, 1) := Null][SlotOf(at, p) := Block(b)], i)
  {
    assert BucketAt(at, cell, i);
  }

  lemma AddLeafSelf(at: map<Pos, Addr>, posOf: map<Addr, Pos>, cell: map<Slot, Ptr>, parent: map<Addr, Parent>, p: Pos, b: Addr)
    requires Closed(at, posOf) && FreeSpot(at, p) && b !in posOf
    ensures CellsAt(at[p := b], cell[Child(b, 0) := Null][Child(b, 1) := Null][SlotOf(at, p) := Block(b)],
                    parent[b := At(SlotOf(at, p))], p)
  {
    NoChildren(at, posOf, p);
    if p.path > 1 {
      assert at[Pos(p.bucket, p.path / 2)] in posOf;
    }
  }

  lemma AddLeafCellsAt(at: map<Pos, Addr>, posOf: map<Addr, Pos>, cell: map<Slot, Ptr>, parent: map<Addr, Parent>, p: Pos, b: Addr, q: Pos)
    requires Closed(at, posOf) && FreeSpot(at, p) && b !in posOf
    requires q in at && q != p && CellsAt(at, cell, parent, q)
    ensures CellsAt(at[p := b], cell[Child(b, 0) := Null][Child(b, 1) := Null][SlotOf(at, p) := Block(b)],
                    parent[b := At(SlotOf(at, p))], q)
  {
    AddLeafChild(at, posOf, p, q);
  }

  /** The slot of a free spot is a child cell of exactly one node, on its own side. */
  lemma AddLeafChild(at: map<Pos, Addr>, posOf: map<Addr, Pos>, p: Pos, q: Pos)
    requires Closed(at, posOf) && FreeSpot(at, p) && q in at
    ensures SlotOf(at, p) == Child(at[q], 0) <==> p == Pos(q.bucket, 2 * q.path)
    ensures SlotOf(at, p) == Child(at[q], 1) <==> p == Pos(q.bucket, 2 * q.path + 1)
  {
    if p.path > 1 && SlotOf(at, p).addr == at[q] {
      assert Pos(p.bucket, p.path / 2) == q;
    }
  }

  lemma AddLeafShape(at: map<Pos, Addr>, posOf: map<Addr, Pos>, rings: map<Key, seq<Ptr>>, size: map<Addr, Tag>, p: Pos, b: Addr)
    requires Shape(at, posOf, rings, size) && FreeSpot(at, p) && b !in posOf
    requires b in size && size[b].n > 0 && Prefix(p.path, size[b].n) && HighBit(size[b].n) == p.bucket
    requires LargeRing(size[b].n) !in rings
    ensures Shape(at[p := b], posOf[b := p], rings[LargeRing(size[b].n) := [Block(b)]], size)
  {
    var at', posOf', rings' := at[p := b], posOf[b := p], rings[LargeRing(size[b].n) := [Block(b)]];
    forall q | q in at'
      ensures ShapeAt(at', posOf', rings', size, q)
    {
      if q != p {
        assert ShapeAt(at, posOf, rings, size, q);
      }
    }
    forall s | LargeRing(s) in rings'
      ensures HeadPlaced(posOf', rings', size, s)
    {
      if s != size[b].n {
        assert HeadPlaced(posOf, rings, size, s);
      }
    }
  }

  // ---- taking nodes out ----

  ghost predicate IsLeaf(at: map<Pos, Addr>, p: Pos) {
    && p in at
    && Pos(p.bucket, 2 * p.path) !in at
    && Pos(p.bucket, 2 * p.path + 1) !in at
  }

  lemma NotChildOfLeaf(at: map<Pos, Addr>, posOf: map<Addr, Pos>, p: Pos, q: Pos)
    requires Closed(at, posOf) && IsLeaf(at, p) && q in at && q.path > 1
    ensures Pos(q.bucket, q.path / 2) != p
  {
    assert q.path == 2 * (q.path / 2) + q.path % 2;
  }

  lemma RemoveLeafClosed(at: map<Pos, Addr>, posOf: map<Addr, Pos>, p: Pos)
    requires Closed(at, posOf) && IsLeaf(at, p)
    ensures Closed(at - {p}, posOf - {at[p]})
  {
    forall q | q in at - {p} && q.path > 1
      ensures Pos(q.bucket, q.path / 2) in at - {p}
    {
      NotChildOfLeaf(at, posOf, p, q);
    }
  }

  lemma RemoveLeafCells(at: map<Pos, Addr>, posOf: map<Addr, Pos>, cell: map<Slot, Ptr>, parent: map<Addr, Parent>, p: Pos)
    requires Closed(at, posOf) && Cells(at, cell, parent) && IsLeaf(at, p)
    ensures Cells(at - {p}, cell[SlotOf(at, p) := Null], parent)
  {
    hide CellsAt;
    var at', cell' := at - {p}, cell[SlotOf(at, p) := Null];
    forall i | 0 <= i < NUM_BUCKETS
      ensures BucketAt(at', cell', i)
    {
      assert BucketAt(at, cell, i);
    }
    forall q | q in at && q != p
      ensures CellsAt(at', cell', parent, q)
    {
      RemoveLeafCellsAt(at, posOf, cell, parent, p, q);
    }
  }

  lemma RemoveLeafCellsAt(at: map<Pos, Addr>, posOf: map<Addr, Pos>, cell: map<Slot, Ptr>, parent: map<Addr, Parent>, p: Pos, q: Pos)
    requires Closed(at, posOf) && IsLeaf(at, p) && q in at && q != p && CellsAt(at, cell, parent, q)
    ensures CellsAt(at - {p}, cell[SlotOf(at, p) := Null], parent, q)
  {
    if q.path > 1 {
      NotChildOfLeaf(at, posOf, p, q);
    }
    SlotIsChild(at, posOf, p, q);
  }

  lemma SlotIsChild(at: map<Pos, Addr>, posOf: map<Addr, Pos>, p: Pos, q: Pos)
    requires Closed(at, posOf) && p in at && q in at
    ensures SlotOf(at, p) == Child(at[q], 0) <==> p == Pos(q.bucket, 2 * q.path)
    ensures SlotOf(at, p) == Child(at[q], 1) <==> p == Pos(q.bucket, 2 * q.path + 1)
  {
    if p.path > 1 && at[Pos(p.bucket, p.path / 2)] == at[q] {
      assert Pos(p.bucket, p.path / 2) == q;
    }
  }

  /** `if ((x->child[side] = c)) c->parent = &x->child[side]`. */
  function Reparent(parent: map<Addr, Parent>, c: Ptr, slot: Slot): map<Addr, Parent> {
    if c.Block? then parent[c.addr := At(slot)] else parent
  }

  /** The cells after block `x` took over the place of block `b`. */
  function TakeOverCells(cell: map<Slot, Ptr>, slot: Slot, b: Addr, x: Addr): map<Slot, Ptr>
    requires Child(b, 0) in cell && Child(b, 1) in cell
  {
    cell[slot := Block(x)][Child(x, 0) := cell[Child(b, 0)]][Child(x, 1) := cell[Child(b, 1)]]
  }

  function TakeOverParents(cell: map<Slot, Ptr>, parent: map<Addr, Parent>, slot: Slot, b: Addr, x: Addr): map<Addr, Parent>
    requires Child(b, 0) in cell && Child(b, 1) in cell
  {
    Reparent(Reparent(parent[x := At(slot)], cell[Child(b, 0)], Child(x, 0)), cell[Child(b, 1)], Child(x, 1))
  }

  lemma TakeOverCellsOk(at: map<Pos, Addr>, posOf: map<Addr, Pos>, cell: map<Slot, Ptr>, parent: map<Addr, Parent>, p: Pos, x: Addr)
    requires Closed(at, posOf) && Cells(at, cell, parent) && p in at && x !in posOf
    ensures CellsAt(at, cell, parent, p)
    ensures Cells(at[p := x], TakeOverCells(cell, SlotOf(at, p), at[p], x),
                  TakeOverParents(cell, parent, SlotOf(at, p), at[p], x))
  {
    assert CellsAt(at, cell, parent, p);
    var at', slot := at[p := x], SlotOf(at, p);
    var cell', parent' := TakeOverCells(cell, slot, at[p], x), TakeOverParents(cell, parent, slot, at[p], x);
    forall i | 0 <= i < NUM_BUCKETS
      ensures BucketAt(at', cell', i)
    {
      TakeOverBucket(at, cell, parent, p, x, i);
    }
    forall q | q in at'
      ensures CellsAt(at', cell', parent', q)
    {
      assert CellsAt(at, cell, parent, q);
      TakeOverAt(at, posOf, cell, parent, p, x, q);
    }
    hide CellsAt;
    hide TakeOverCells;
    hide TakeOverParents;
    hide PtrAt;
  }

  lemma TakeOverBucket(at: map<Pos, Addr>, cell: map<Slot, Ptr>, parent: map<Addr, Parent>, p: Pos, x: Addr, i: nat)
    requires Cells(at, cell, parent) && p in at && p.path >= 1 && i < NUM_BUCKETS
    ensures CellsAt(at, cell, parent, p)
    ensures BucketAt(at[p := x], TakeOverCells(cell, SlotOf(at, p), at[p], x), i)
  {
    assert BucketAt(at, cell, i);
  }

  lemma TakeOverAt(at: map<Pos, Addr>, posOf: map<Addr, Pos>, cell: map<Slot, Ptr>, parent: map<Addr, Parent>, p: Pos, x: Addr, q: Pos)
    requires Closed(at, posOf) && p in at && x !in posOf && q in at
    requires CellsAt(at, cell, parent, p) && CellsAt(at, cell, parent, q)
    ensures CellsAt(at[p := x], TakeOverCells(cell, SlotOf(at, p), at[p], x),
                    TakeOverParents(cell, parent, SlotOf(at, p), at[p], x), q)
  {
    hide TakeOverCells;
    hide TakeOverParents;
    hide PtrAt;
    TakeOverChild(at, posOf, cell, parent, p, x, q, 0);
    TakeOverChild(at, posOf, cell, parent, p, x, q, 1);
    TakeOverParent(at, posOf, cell, parent, p, x, q);
  }

  lemma TakeOverChild(at: map<Pos, Addr>, posOf: map<Addr, Pos>, cell: map<Slot, Ptr>, parent: map<Addr, Parent>,
                      p: Pos, x: Addr, q: Pos, side: nat)
    requires Closed(at, posOf) && p in at && x !in posOf && q in at && side < 2
    requires CellsAt(at, cell, parent, p) && CellsAt(at, cell, parent, q)
    ensures var cell', a := TakeOverCells(cell, SlotOf(at, p), at[p], x), at[p := x][q];
      Child(a, side) in cell' && cell'[Child(a, side)] == PtrAt(at[p := x], Pos(q.bucket, 2 * q.path + side))
  {
    SlotIsChild(at, posOf, p, q);
    if q == p {
      assert 2 * q.path + side != p.path;
    }
  }

  lemma TakeOverParent(at: map<Pos, Addr>, posOf: map<Addr, Pos>, cell: map<Slot, Ptr>, parent: map<Addr, Parent>, p: Pos, x: Addr, q: Pos)
    requires Closed(at, posOf) && p in at && x !in posOf && q in at
    requires CellsAt(at, cell, parent, p) && CellsAt(at, cell, parent, q)
    ensures q.path > 1 ==> Pos(q.bucket, q.path / 2) in at
    ensures var parent', a := TakeOverParents(cell, parent, SlotOf(at, p), at[p], x), at[p := x][q];
      a in parent' && parent'[a] == At(SlotOf(at[p := x], q))
  {
    var l, r := Pos(p.bucket, 2 * p.path), Pos(p.bucket, 2 * p.path + 1);
    assert l in at ==> posOf[at[l]] == l;
    assert r in at ==> posOf[at[r]] == r;
    assert q.path == 2 * (q.path / 2) + q.path % 2;
    if q == p {
      TakeOverParentSelf(at, cell, parent, p, x);
    } else if q.path > 1 && Pos(q.bucket, q.path / 2) == p {
      assert q == l || q == r;
      assert SlotOf(at[p := x], q) == Child(x, q.path % 2);
    } else {
      assert q != l && q != r;
      assert SlotOf(at[p := x], q) == SlotOf(at, q);
    }
  }

  lemma TakeOverParentSelf(at: map<Pos, Addr>, cell: map<Slot, Ptr>, parent: map<Addr, Parent>, p: Pos, x: Addr)
    requires p in at && CellsAt(at, cell, parent, p)
    requires forall q :: q in at ==> at[q] != x && q.path >= 1
    ensures var parent' := TakeOverParents(cell, parent, SlotOf(at, p), at[p], x);
      x in parent' && parent'[x] == At(SlotOf(at[p := x], p))
  {
    assert p.path > 1 ==> p.path / 2 < p.path;
  }

  // ---- the shape after a removal ----

  lemma RemoveLeafShape(at: map<Pos, Addr>, posOf: map<Addr, Pos>, rings: map<Key, seq<Ptr>>, size: map<Addr, Tag>, p: Pos)
    requires Shape(at, posOf, rings, size) && IsLeaf(at, p)
    ensures at[p] in size
    ensures Shape(at - {p}, posOf - {at[p]}, rings - {LargeRing(size[at[p]].n)}, size)
  {
    ShapeIsClosed(at, posOf, rings, size);
    RemoveLeafClosed(at, posOf, p);
    assert ShapeAt(at, posOf, rings, size, p);
    var at', posOf', rings' := at - {p}, posOf - {at[p]}, rings - {LargeRing(size[at[p]].n)};
    forall q | q in at'
      ensures ShapeAt(at', posOf', rings', size, q)
    {
      assert ShapeAt(at, posOf, rings, size, q);
      assert q.path > 1 ==> Pos(q.bucket, q.path / 2) in at';
    }
    forall s | LargeRing(s) in rings'
      ensures HeadPlaced(posOf', rings', size, s)
    {
      HeadSize(at, posOf, rings, size, s);
    }
  }

  /** A ring's head has the ring's size. */
  lemma HeadSize(at: map<Pos, Addr>, posOf: map<Addr, Pos>, rings: map<Key, seq<Ptr>>, size: map<Addr, Tag>, s: nat)
    requires Shape(at, posOf, rings, size) && LargeRing(s) in rings
    ensures HeadPlaced(posOf, rings, size, s)
    ensures rings[LargeRing(s)][0].addr in size
    ensures posOf[rings[LargeRing(s)][0].addr] in at
    ensures ShapeAt(at, posOf, rings, size, posOf[rings[LargeRing(s)][0].addr])
  {
    assert HeadPlaced(posOf, rings, size, s);
    var a := rings[LargeRing(s)][0].addr;
    assert ShapeAt(at, posOf, rings, size, posOf[a]);
  }

  /** Block `x` takes the place of node `p`, whose ring is gone: `x` was a leaf below. */
  lemma LeafTakesOverShape(at: map<Pos, Addr>, posOf: map<Addr, Pos>, rings: map<Key, seq<Ptr>>, size: map<Addr, Tag>, p: Pos, q: Pos)
    requires Shape(at, posOf, rings, size) && p in at && IsLeaf(at, q)
    requires p != q && q.bucket == p.bucket && Prefix(p.path, q.path)
    ensures at[p] in size
    ensures Shape((at - {q})[p := at[q]], (posOf - {at[p]})[at[q] := p], rings - {LargeRing(size[at[p]].n)}, size)
  {
    var b, x := at[p], at[q];
    assert ShapeAt(at, posOf, rings, size, p) && ShapeAt(at, posOf, rings, size, q);
    var at', posOf', rings' := (at - {q})[p := x], (posOf - {b})[x := p], rings - {LargeRing(size[b].n)};
    PrefixTrans(p.path, q.path, size[x].n);
    ShapeIsClosed(at, posOf, rings, size);
    forall r | r in at'
      ensures ShapeAt(at', posOf', rings', size, r)
    {
      LeafTakesOverAt(at, posOf, rings, size, p, q, r);
    }
    forall s | LargeRing(s) in rings'
      ensures HeadPlaced(posOf', rings', size, s)
    {
      assert HeadPlaced(posOf, rings, size, s);
    }
    forall a | a in posOf'
      ensures posOf'[a] in at' && at'[posOf'[a]] == a
    {
      assert a in posOf;
    }
  }

  lemma LeafTakesOverAt(at: map<Pos, Addr>, posOf: map<Addr, Pos>, rings: map<Key, seq<Ptr>>, size: map<Addr, Tag>, p: Pos, q: Pos, r: Pos)
    requires Closed(at, posOf) && p in at && IsLeaf(at, q) && p != q && q.bucket == p.bucket
    requires r in at && r != q
    requires ShapeAt(at, posOf, rings, size, p) && ShapeAt(at, posOf, rings, size, q) && ShapeAt(at, posOf, rings, size, r)
    requires Prefix(p.path, size[at[q]].n)
    ensures ShapeAt((at - {q})[p := at[q]], (posOf - {at[p]})[at[q] := p], rings - {LargeRing(size[at[p]].n)}, size, r)
  {
    if r.path > 1 {
      NotChildOfLeaf(at, posOf, q, r);
    }
  }

  /** Ring mate `x` of node `p` takes its place. */
  lemma MateTakesOverShape(at: map<Pos, Addr>, posOf: map<Addr, Pos>, rings: map<Key, seq<Ptr>>, size: map<Addr, Tag>,
                           p: Pos, x: Addr, c: seq<Ptr>)
    requires Shape(at, posOf, rings, size) && p in at && x !in posOf && x in size
    requires at[p] in size && size[x].n == size[at[p]].n
    requires |c| > 0 && c[0] == Block(x)
    ensures Shape(at[p := x], (posOf - {at[p]})[x := p], rings[LargeRing(size[x].n) := c], size)
  {
    var b := at[p];
    var at', posOf', rings' := at[p := x], (posOf - {b})[x := p], rings[LargeRing(size[x].n) := c];
    assert ShapeAt(at, posOf, rings, size, p);
    forall r | r in at'
      ensures ShapeAt(at', posOf', rings', size, r)
    {
      assert ShapeAt(at, posOf, rings, size, r);
    }
    forall s | LargeRing(s) in rings'
      ensures HeadPlaced(posOf', rings', size, s)
    {
      if s != size[x].n {
        assert HeadPlaced(posOf, rings, size, s);
      }
    }
  }

  /** A list changed without changing the head of a large ring. */
  lemma SameHeadShape(at: map<Pos, Addr>, posOf: map<Addr, Pos>, rings: map<Key, seq<Ptr>>, size: map<Addr, Tag>, k: Key, c: seq<Ptr>)
    requires Shape(at, posOf, rings, size)
    requires k.LargeRing? ==> k in rings && |rings[k]| > 0 && |c| > 0 && c[0] == rings[k][0]
    ensures Shape(at, posOf, rings[k := c], size)
  {
    forall r | r in at
      ensures ShapeAt(at, posOf, rings[k := c], size, r)
    {
      assert ShapeAt(at, posOf, rings, size, r);
    }
    forall s | LargeRing(s) in rings[k := c]
      ensures HeadPlaced(posOf, rings[k := c], size, s)
    {
      assert HeadPlaced(posOf, rings, size, s);
    }
  }
}
