/** Circular doubly linked lists over link words, the chains of the block cache, and
    the ownership of their elements. Values only: the heap objects are elsewhere. */
module Rings {
  import opened Sequences
  import opened Tags

  /** A pointer to a block or to one of the heap's list heads. A head is the fake block
      that ZEND_MM_SMALL_FREE_BUCKET and ZEND_MM_REST_BUCKET overlay on the bucket words. */
  datatype Ptr = Null | SmallHead(index: nat) | RestHead | Block(addr: Addr)

  datatype Key = SmallRing(index: nat) | RestRing | LargeRing(size: nat) | CacheChain(index: nat)

  type Words = map<Ptr, Ptr>

  /** Following `next` from `c[0]` goes round `c`, following `prev` goes round backwards. */
  ghost predicate Linked(next: Words, prev: Words, c: seq<Ptr>) {
    && |c| > 0
    && (forall j :: 0 <= j < |c| ==> c[j] in next && c[j] in prev)
    && (forall j :: 0 <= j < |c| - 1 ==> next[c[j]] == c[j + 1])
    && (forall j :: 1 <= j < |c| ==> prev[c[j]] == c[j - 1])
    && next[c[|c| - 1]] == c[0]
    && prev[c[0]] == c[|c| - 1]
  }

  /** A NULL-terminated chain through `prev`. */
  ghost predicate Chained(prev: Words, head: Ptr, c: seq<Ptr>) {
    if c == [] then
      head == Null
    else
      && head == c[0]
      && (forall j :: 0 <= j < |c| ==> c[j] in prev && c[j] != Null)
      && (forall j :: 0 <= j < |c| - 1 ==> prev[c[j]] == c[j + 1])
      && prev[c[|c| - 1]] == Null
  }

  /** Every element of every list belongs to that list alone, once. */
  ghost predicate Owned(rings: map<Key, seq<Ptr>>, owner: map<Ptr, Key>) {
    && (forall k, j :: k in rings && 0 <= j < |rings[k]| ==> rings[k][j] in owner && owner[rings[k][j]] == k)
    && (forall k :: k in rings ==> Distinct(rings[k]))
    && (forall e :: e in owner ==> owner[e] in rings && e in rings[owner[e]])
  }

  ghost predicate AllLinked(next: Words, prev: Words, rings: map<Key, seq<Ptr>>) {
    forall k :: k in rings && !k.CacheChain? ==> Linked(next, prev, rings[k])
  }

  ghost predicate AllChained(prev: Words, heads: seq<Ptr>, rings: map<Key, seq<Ptr>>) {
    forall i :: 0 <= i < |heads| ==> CacheChain(i) in rings && Chained(prev, heads[i], rings[CacheChain(i)])
  }

  function Insert<T>(c: seq<T>, j: nat, b: T): seq<T>
    requires j < |c|
  {
    c[..j + 1] + [b] + c[j + 1..]
  }

  /** A ring whose head left: its last element takes the head's place. */
  function Promote<T>(c: seq<T>): seq<T>
    requires |c| >= 2
  {
    [c[|c| - 1]] + c[1..|c| - 1]
  }

  function IndexOf<T(==)>(c: seq<T>, e: T): (j: nat)
    requires e in c
    ensures j < |c| && c[j] == e
  {
    if c[0] == e then 0 else 1 + IndexOf(c[1..], e)
  }

  /** Unlinking one element leaves the ring of the others; its neighbours pointed at it. */
  lemma UnlinkRing(next: Words, prev: Words, c: seq<Ptr>, j: nat)
    requires Linked(next, prev, c) && Distinct(c) && j < |c| && |c| >= 2
    ensures prev[c[j]] in c && next[c[j]] in c
    ensures prev[c[j]] != c[j] && next[c[j]] != c[j]
    ensures next[prev[c[j]]] == c[j] && prev[next[c[j]]] == c[j]
    ensures prev[c[j]] == next[c[j]] <==> |c| == 2
    ensures var p, n := prev[c[j]], next[c[j]];
      Linked(next[p := n], prev[n := p], Remove(c, j))
  {
    var p, n := prev[c[j]], next[c[j]];
    var pi := if j == 0 then |c| - 1 else j - 1;
    var ni := if j == |c| - 1 then 0 else j + 1;
    assert p == c[pi] && n == c[ni];
    var r := Remove(c, j);
    assert |c| > 2 ==> pi != ni;
    RemoveAt(c, j);
    hide Remove;
    var next', prev' := next[p := n], prev[n := p];
    forall i | 0 <= i < |r|
      ensures r[i] in next' && next'[r[i]] == r[if i == |r| - 1 then 0 else i + 1]
      ensures r[i] in prev' && prev'[r[i]] == r[if i == 0 then |r| - 1 else i - 1]
    {
      var o := if i < j then i else i + 1;
      assert r[i] == c[o] && (o == pi || c[o] != p) && (o == ni || c[o] != n);
    }
  }

  lemma RemoveAt<T>(c: seq<T>, j: nat)
    requires j < |c|
    ensures |Remove(c, j)| == |c| - 1
    ensures forall i :: 0 <= i < |c| - 1 ==> Remove(c, j)[i] == if i < j then c[i] else c[i + 1]
  {
  }

  /** A ring may be read from any of its elements; here from the last. */
  lemma RotateRing(next: Words, prev: Words, c: seq<Ptr>)
    requires Linked(next, prev, c)
    ensures Linked(next, prev, [c[|c| - 1]] + c[..|c| - 1])
  {
    var q := [c[|c| - 1]] + c[..|c| - 1];
    assert forall i :: 0 <= i < |q| ==> q[i] == if i == 0 then c[|c| - 1] else c[i - 1];
  }

  lemma PromoteRing(next: Words, prev: Words, c: seq<Ptr>)
    requires Linked(next, prev, c) && Distinct(c) && |c| >= 2
    ensures prev[c[0]] == c[|c| - 1]
    ensures var p, n := prev[c[0]], next[c[0]];
      Linked(next[p := n], prev[n := p], Promote(c))
  {
    UnlinkRing(next, prev, c, 0);
    var p, n := prev[c[0]], next[c[0]];
    var r := Remove(c, 0);
    RotateRing(next[p := n], prev[n := p], r);
    assert Promote(c) == [r[|r| - 1]] + r[..|r| - 1];
  }

  lemma LinkRing(next: Words, prev: Words, c: seq<Ptr>, j: nat, b: Ptr)
    requires Linked(next, prev, c) && Distinct(c) && j < |c| && b !in c
    ensures c[j] in next && c[j] in prev && next[c[j]] in c
    ensures var n := next[c[j]];
      Linked(next[b := n][c[j] := b], prev[b := c[j]][n := b], Insert(c, j, b))
  {
    var n := next[c[j]];
    var ni := if j == |c| - 1 then 0 else j + 1;
    assert n == c[ni];
    var r := Insert(c, j, b);
    InsertAt(c, j, b);
    hide Insert;
    assert r[j] == c[j] && r[j + 1] == b;
    assert r[if j == |c| - 1 then 0 else j + 2] == n;
    var next', prev' := next[b := n][c[j] := b], prev[b := c[j]][n := b];
    forall i | 0 <= i < |r|
      ensures r[i] in next' && next'[r[i]] == r[if i == |c| then 0 else i + 1]
      ensures r[i] in prev' && prev'[r[i]] == r[if i == 0 then |c| else i - 1]
    {
      var o := if i <= j then i else i - 1;
      assert i != j + 1 ==> r[i] == c[o] && c[o] != b;
    }
  }

  lemma InsertAt<T>(c: seq<T>, j: nat, b: T)
    requires j < |c|
    ensures |Insert(c, j, b)| == |c| + 1
    ensures forall i :: 0 <= i <= |c| ==> Insert(c, j, b)[i] == if i <= j then c[i] else if i == j + 1 then b else c[i - 1]
  {
  }

  lemma LinkedFrame(next: Words, prev: Words, next': Words, prev': Words, c: seq<Ptr>)
    requires Linked(next, prev, c)
    requires forall e :: e in c ==> e in next' && next'[e] == next[e]
    requires forall e :: e in c ==> e in prev' && prev'[e] == prev[e]
    ensures Linked(next', prev', c)
  {
  }

  lemma ChainedFrame(prev: Words, prev': Words, head: Ptr, c: seq<Ptr>)
    requires Chained(prev, head, c)
    requires forall e :: e in c ==> e in prev' && prev'[e] == prev[e]
    ensures Chained(prev', head, c)
  {
  }

  /** Words of elements outside list `k` keep their values. */
  ghost predicate AgreeOutside(w: Words, w': Words, owner: map<Ptr, Key>, k: Key) {
    forall e :: e in owner && owner[e] != k && e in w ==> e in w' && w'[e] == w[e]
  }

  lemma AllLinkedFrame(next: Words, prev: Words, next': Words, prev': Words,
                       rings: map<Key, seq<Ptr>>, owner: map<Ptr, Key>, k: Key, c: seq<Ptr>)
    requires Owned(rings, owner)
    requires AllLinked(next, prev, rings)
    requires AgreeOutside(next, next', owner, k) && AgreeOutside(prev, prev', owner, k)
    requires !k.CacheChain? ==> Linked(next', prev', c)
    ensures AllLinked(next', prev', rings[k := c])
  {
    forall k' | k' in rings && k' != k && !k'.CacheChain?
      ensures Linked(next', prev', rings[k'])
    {
      forall e | e in rings[k']
        ensures e in owner && owner[e] == k'
      {
      }
      LinkedFrame(next, prev, next', prev', rings[k']);
    }
  }

  lemma AllChainedFrame(prev: Words, prev': Words, heads: seq<Ptr>,
                        rings: map<Key, seq<Ptr>>, owner: map<Ptr, Key>, k: Key, c: seq<Ptr>)
    requires Owned(rings, owner)
    requires AllChained(prev, heads, rings)
    requires AgreeOutside(prev, prev', owner, k)
    requires !k.CacheChain?
    ensures AllChained(prev', heads, rings[k := c])
  {
    forall i | 0 <= i < |heads|
      ensures Chained(prev', heads[i], rings[CacheChain(i)])
    {
      forall e | e in rings[CacheChain(i)]
        ensures e in owner && owner[e] == CacheChain(i)
      {
      }
      ChainedFrame(prev, prev', heads[i], rings[CacheChain(i)]);
    }
  }

  lemma InsertContents<T(!new)>(c: seq<T>, j: nat, b: T)
    requires Distinct(c) && j < |c| && b !in c
    ensures Distinct(Insert(c, j, b))
    ensures forall e :: e in Insert(c, j, b) <==> e in c || e == b
  {
    var r := Insert(c, j, b);
    InsertAt(c, j, b);
    hide Insert;
    forall i, k | 0 <= i < k < |r|
      ensures r[i] != r[k]
    {
      assert i != j + 1 ==> r[i] == c[if i <= j then i else i - 1];
      assert k != j + 1 ==> r[k] == c[if k <= j then k else k - 1];
    }
    assert r[j + 1] == b;
    forall e | e in c
      ensures e in r
    {
      var i :| 0 <= i < |c| && c[i] == e;
      assert r[if i <= j then i else i + 1] == e;
    }
    forall i | 0 <= i < |r|
      ensures r[i] in c || r[i] == b
    {
      assert i != j + 1 ==> r[i] == c[if i <= j then i else i - 1];
    }
  }

  /** A list that holds the elements of list `k` and `b`, in any order; `k` may be new. */
  lemma OwnedAdd(rings: map<Key, seq<Ptr>>, owner: map<Ptr, Key>, k: Key, b: Ptr, c: seq<Ptr>)
    requires Owned(rings, owner) && b !in owner
    requires Distinct(c) && b in c
    requires forall e :: e in c && e != b ==> k in rings && e in rings[k]
    requires k in rings ==> forall e :: e in rings[k] ==> e in c
    ensures Owned(rings[k := c], owner[b := k])
  {
    forall j | 0 <= j < |c|
      ensures c[j] == b || (c[j] in owner && owner[c[j]] == k)
    {
      assert c[j] in c;
    }
  }

  /** A list that holds the elements of list `k` less `b`, in any order. */
  lemma OwnedRemove(rings: map<Key, seq<Ptr>>, owner: map<Ptr, Key>, k: Key, b: Ptr, c: seq<Ptr>)
    requires Owned(rings, owner) && b in owner && owner[b] == k
    requires Distinct(c) && forall e :: e in c <==> e in rings[k] && e != b
    ensures Owned(rings[k := c], owner - {b})
  {
    forall j | 0 <= j < |c|
      ensures c[j] in owner - {b} && owner[c[j]] == k
    {
      assert c[j] in c;
    }
  }

  lemma PromoteContents<T(!new)>(c: seq<T>)
    requires Distinct(c) && |c| >= 2
    ensures Distinct(Promote(c))
    ensures forall e :: e in Promote(c) <==> e in c && e != c[0]
  {
    var q := Promote(c);
    forall e | e in c && e != c[0]
      ensures e in q
    {
      var i :| 0 <= i < |c| && c[i] == e;
      assert q[if i == |c| - 1 then 0 else i] == e;
    }
  }
}
