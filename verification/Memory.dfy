/** Memory as the heap uses it. A word of memory is a header word, a link word, or eight
    bytes of data; never two of these. Header and link words are kept by block, in maps;
    data by address. */
module Memory {
  import opened Sizes
  import opened Tags
  import opened Rings
  import opened LargeTrie

  type Data = map<Addr, bv8>

  /** The link fields of blocks, and the bytes that are known. */
  datatype Store = Store(next: Words, prev: Words, parent: map<Addr, Parent>, cell: map<Slot, Ptr>, data: Data)

  // where the fields of zend_mm_block and zend_mm_free_block are
  const PREV_SIZE: nat := 8
  const PREV_FREE: nat := 16
  const NEXT_FREE: nat := 24
  const SMALL_LINKS: nat := 32  // the end of zend_mm_small_free_block
  const PARENT: nat := 32
  const LEFT_CHILD: nat := 40
  const RIGHT_CHILD: nat := 48
  const LARGE_LINKS: nat := 56  // the end of zend_mm_free_block

  /** The address of the word that holds byte `x`. */
  function WordAt(x: Addr): Addr {
    x - x % 8
  }

  /** Byte `x` belongs to a link field. */
  predicate IsLink(next: Words, prev: Words, parent: map<Addr, Parent>, cell: map<Slot, Ptr>, x: Addr) {
    var w := WordAt(x);
    || Block(w - PREV_FREE) in prev || Block(w - NEXT_FREE) in next || w - PARENT in parent
    || Child(w - LEFT_CHILD, 0) in cell || Child(w - RIGHT_CHILD, 1) in cell
  }

  /** Byte `x` belongs to a header. */
  predicate IsHeader(size: map<Addr, Tag>, prev: map<Addr, Tag>, x: Addr) {
    WordAt(x) in size || WordAt(x) - PREV_SIZE in prev
  }

  ghost predicate LinksApart(next: Words, prev: Words, parent: map<Addr, Parent>, cell: map<Slot, Ptr>, data: Data) {
    forall x :: x in data ==> !IsLink(next, prev, parent, cell, x)
  }

  ghost predicate HeadersApart(size: map<Addr, Tag>, prev: map<Addr, Tag>, data: Data) {
    forall x :: x in data ==> !IsHeader(size, prev, x)
  }

  /** The data that is left when words have been stored. */
  function NotLinks(data: Data, next: Words, prev: Words, parent: map<Addr, Parent>, cell: map<Slot, Ptr>): (r: Data)
    ensures LinksApart(next, prev, parent, cell, r)
  {
    map x | x in data && !IsLink(next, prev, parent, cell, x) :: data[x]
  }

  function NotHeaders(data: Data, size: map<Addr, Tag>, prev: map<Addr, Tag>): (r: Data)
    ensures HeadersApart(size, prev, r)
  {
    map x | x in data && !IsHeader(size, prev, x) :: data[x]
  }

  /** The bytes from `lo` to `hi` that were known are known and the same. */
  ghost predicate SameBytes(data: Data, data': Data, lo: Addr, hi: Addr) {
    forall x :: lo <= x < hi && x in data ==> x in data' && data'[x] == data[x]
  }

  /** `body` is what memory holds from `lo` on. */
  ghost predicate BytesAt(data: Data, lo: Addr, body: seq<bv8>) {
    forall x :: lo <= x < lo + |body| ==> x in data && data[x] == body[x - lo]
  }

  /** Bytes of the headers at `c` and `d`. */
  predicate HeaderBytes(c: Addr, d: Addr, x: Addr) {
    c <= x < c + HEADER || d <= x < d + HEADER
  }

  /** Nothing but what lay under the headers at `c` and `d` was forgotten. */
  ghost predicate ButHeaders(data: Data, data': Data, c: Addr, d: Addr) {
    forall x :: x in data && !HeaderBytes(c, d, x) ==> x in data' && data'[x] == data[x]
  }

  /** ZEND_MM_BLOCK stores a word of the header at `b` and one of the next. */
  lemma HeadersStored(size: map<Addr, Tag>, prev: map<Addr, Tag>, data: Data, b: Addr, c: Addr, t: Tag, u: Tag)
    requires HeadersApart(size, prev, data)
    ensures ButHeaders(data, NotHeaders(data, size[b := t], prev[c := u]), b, c)
    ensures ButHeaders(data, NotHeaders(data, size[b := t], prev), b, c)
  {
  }

  lemma SwapHeaders(data: Data, data': Data, c: Addr, d: Addr)
    requires ButHeaders(data, data', d, c)
    ensures ButHeaders(data, data', c, d)
  {
  }

  lemma HeadersApartLess(size: map<Addr, Tag>, prev: map<Addr, Tag>, data: Data, data': Data)
    requires HeadersApart(size, prev, data) && data'.Keys <= data.Keys
    ensures HeadersApart(size, prev, data')
  {
  }

  // ---- words are forgotten where bytes are stored ----

  predicate Within(w: Addr, lo: Addr, hi: Addr) {
    lo <= w < hi
  }

  /** A pointer's link field at offset `off` lies in [lo, hi). */
  predicate LinkWithin(e: Ptr, off: nat, lo: Addr, hi: Addr) {
    e.Block? && Within(e.addr + off, lo, hi)
  }

  predicate CellWithin(s: Slot, lo: Addr, hi: Addr) {
    s.Child? && Within(s.addr + (if s.side == 0 then LEFT_CHILD else RIGHT_CHILD), lo, hi)
  }

  function LinksOutside(w: Words, off: nat, lo: Addr, hi: Addr): Words {
    map e | e in w && !LinkWithin(e, off, lo, hi) :: w[e]
  }

  function ParentsOutside(parent: map<Addr, Parent>, lo: Addr, hi: Addr): map<Addr, Parent> {
    map a | a in parent && !Within(a + PARENT, lo, hi) :: parent[a]
  }

  function CellsOutside(cell: map<Slot, Ptr>, lo: Addr, hi: Addr): map<Slot, Ptr> {
    map s | s in cell && !CellWithin(s, lo, hi) :: cell[s]
  }

  function TagsOutside(tags: map<Addr, Tag>, off: nat, lo: Addr, hi: Addr): map<Addr, Tag> {
    map a | a in tags && !Within(a + off, lo, hi) :: tags[a]
  }

  lemma WordWithin(x: Addr, lo: Addr, hi: Addr)
    requires lo % 8 == 0 && lo <= x < hi
    ensures Within(WordAt(x), lo, hi)
  {
  }

  /** After that no word lies there. */
  lemma NoLinkWithin(next: Words, prev: Words, parent: map<Addr, Parent>, cell: map<Slot, Ptr>, lo: Addr, hi: Addr, x: Addr)
    requires lo % 8 == 0 && lo <= x < hi
    ensures !IsLink(LinksOutside(next, NEXT_FREE, lo, hi), LinksOutside(prev, PREV_FREE, lo, hi),
                    ParentsOutside(parent, lo, hi), CellsOutside(cell, lo, hi), x)
  {
    hide WordAt;
    WordWithin(x, lo, hi);
  }

  lemma NoHeaderWithin(size: map<Addr, Tag>, prev: map<Addr, Tag>, lo: Addr, hi: Addr, x: Addr)
    requires lo % 8 == 0 && lo <= x < hi
    ensures !IsHeader(TagsOutside(size, 0, lo, hi), TagsOutside(prev, PREV_SIZE, lo, hi), x)
  {
    hide WordAt;
    WordWithin(x, lo, hi);
  }

  /** Where headers are forgotten there is room for bytes. */
  lemma HeadersForgotten(size: map<Addr, Tag>, prev: map<Addr, Tag>, data: Data, lo: Addr, hi: Addr, data': Data)
    requires HeadersApart(size, prev, data) && lo % 8 == 0
    requires forall x :: x in data' ==> x in data || lo <= x < hi
    ensures HeadersApart(TagsOutside(size, 0, lo, hi), TagsOutside(prev, PREV_SIZE, lo, hi), data')
  {
    forall x | x in data'
      ensures !IsHeader(TagsOutside(size, 0, lo, hi), TagsOutside(prev, PREV_SIZE, lo, hi), x)
    {
      if lo <= x < hi {
        NoHeaderWithin(size, prev, lo, hi, x);
      }
    }
  }

  lemma LinksForgotten(s: Store, lo: Addr, hi: Addr, data': Data)
    requires LinksApart(s.next, s.prev, s.parent, s.cell, s.data) && lo % 8 == 0
    requires forall x :: x in data' ==> x in s.data || lo <= x < hi
    ensures LinksApart(LinksOutside(s.next, NEXT_FREE, lo, hi), LinksOutside(s.prev, PREV_FREE, lo, hi),
                       ParentsOutside(s.parent, lo, hi), CellsOutside(s.cell, lo, hi), data')
  {
    forall x | x in data'
      ensures !IsLink(LinksOutside(s.next, NEXT_FREE, lo, hi), LinksOutside(s.prev, PREV_FREE, lo, hi),
                      ParentsOutside(s.parent, lo, hi), CellsOutside(s.cell, lo, hi), x)
    {
      if lo <= x < hi {
        NoLinkWithin(s.next, s.prev, s.parent, s.cell, lo, hi, x);
      }
    }
  }

  /** Fewer words, or fewer bytes, do not collide either. */
  lemma LinksApartLess(s: Store, s': Store)
    requires LinksApart(s.next, s.prev, s.parent, s.cell, s.data)
    requires s'.next.Keys <= s.next.Keys && s'.prev.Keys <= s.prev.Keys && s'.parent.Keys <= s.parent.Keys && s'.cell.Keys <= s.cell.Keys
    requires s'.data.Keys <= s.data.Keys
    ensures LinksApart(s'.next, s'.prev, s'.parent, s'.cell, s'.data)
  {
  }

  function BytesOutside(data: Data, lo: Addr, hi: Addr): Data {
    map x | x in data && !Within(x, lo, hi) :: data[x]
  }

  /** What is known of the `n` bytes at `from` has a byte for `y` when they move to `to`. */
  predicate Arrives(data: Data, from: Addr, n: nat, to: Addr, y: Addr) {
    to <= y < to + n && y - to + from in data
  }

  /** The bytes that arrive. */
  function Arrived(data: Data, from: Addr, n: nat, to: Addr, n': nat, skip: nat): Data {
    map y | to + skip <= y < to + n' && Arrives(data, from, n, to, y) :: data[y - to + from]
  }

  lemma ArrivedAt(data: Data, from: Addr, n: nat, to: Addr, n': nat, skip: nat, y: Addr)
    ensures var r := Arrived(data, from, n, to, n', skip);
      && (y in r <==> to + skip <= y < to + n' && Arrives(data, from, n, to, y))
      && (y in r ==> y - to + from in data && r[y] == data[y - to + from])
  {
  }

  /** Memory after the `n` bytes at `from`, but for the first `skip`, moved to the `n'` bytes at `to`. */
  function Relocated(data: Data, from: Addr, n: nat, to: Addr, n': nat, skip: nat): Data {
    BytesOutside(BytesOutside(data, from, from + n), to, to + n') + Arrived(data, from, n, to, n', skip)
  }

  lemma OutsideAt(data: Data, lo: Addr, hi: Addr, lo': Addr, hi': Addr, x: Addr)
    ensures var r := BytesOutside(BytesOutside(data, lo, hi), lo', hi');
      && (x in r <==> x in data && !Within(x, lo, hi) && !Within(x, lo', hi'))
      && (x in r ==> r[x] == data[x])
  {
  }

  lemma RelocatedAt(data: Data, from: Addr, n: nat, to: Addr, n': nat, skip: nat, x: Addr)
    ensures var r := Relocated(data, from, n, to, n', skip);
      && (x in r && !(to + skip <= x < to + n') ==> x in data && r[x] == data[x])
      && (x in data && !Within(x, from, from + n) && !Within(x, to, to + n') ==> x in r && r[x] == data[x])
      && (from + skip <= x < from + n && x < from + n' && x in data ==> x - from + to in r && r[x - from + to] == data[x])
  {
    hide BytesOutside; hide Arrived;
    OutsideAt(data, from, from + n, to, to + n', x);
    ArrivedAt(data, from, n, to, n', skip, x);
    ArrivedAt(data, from, n, to, n', skip, x - from + to);
  }

  lemma RelocatedIs(data: Data, from: Addr, n: nat, to: Addr, n': nat, skip: nat)
    ensures var r := Relocated(data, from, n, to, n', skip);
      && (forall x :: x in r && !(to + skip <= x < to + n') ==> x in data && r[x] == data[x])
      && (forall x :: x in data && !Within(x, from, from + n) && !Within(x, to, to + n') ==> x in r && r[x] == data[x])
      && (forall x :: from + skip <= x < from + n && x < from + n' && x in data ==> x - from + to in r && r[x - from + to] == data[x])
  {
    hide Relocated; hide Within;
    var r := Relocated(data, from, n, to, n', skip);
    forall x | x in r && !(to + skip <= x < to + n')
      ensures x in data && r[x] == data[x]
    {
      RelocatedAt(data, from, n, to, n', skip, x);
    }
    forall x | x in data && !Within(x, from, from + n) && !Within(x, to, to + n')
      ensures x in r && r[x] == data[x]
    {
      RelocatedAt(data, from, n, to, n', skip, x);
    }
    forall x | from + skip <= x < from + n && x < from + n' && x in data
      ensures x - from + to in r && r[x - from + to] == data[x]
    {
      RelocatedAt(data, from, n, to, n', skip, x);
    }
  }

  /** The `n` bytes at `from` have been copied to `to`, where there was data, too. */
  ghost predicate Copied(data: Data, data': Data, to: Addr, from: Addr, n: nat) {
    && (forall x :: x in data' <==> x in data)
    && (forall x :: x in data && !(to <= x < to + n) ==> x in data' && data'[x] == data[x])
    && (forall x :: x in data && from <= x < from + n ==> x - from + to in data' && data'[x - from + to] == data[x])
  }

  /** memcpy, between places that hold data. */
  function CopyOf(data: Data, to: Addr, from: Addr, n: nat): (r: Data)
    requires (forall x :: from <= x < from + n ==> x in data) && (forall x :: to <= x < to + n ==> x in data)
    ensures Copied(data, r, to, from, n) && r.Keys == data.Keys
  {
    data + map x | to <= x < to + n && x in data :: data[x - to + from]
  }

  /** `body` stored at `to`. */
  function StoredAt(data: Data, to: Addr, body: seq<bv8>): (r: Data)
    requires forall x :: to <= x < to + |body| ==> x in data
    ensures BytesAt(r, to, body) && r.Keys == data.Keys
    ensures forall x :: x in data && !(to <= x < to + |body|) ==> x in r && r[x] == data[x]
  {
    data + map x | to <= x < to + |body| && x in data :: body[x - to]
  }

  lemma CopiedBytes(data: Data, data': Data, to: Addr, from: Addr, n: nat, body: seq<bv8>, body': seq<bv8>)
    requires Copied(data, data', to, from, n) && BytesAt(data, from, body) && BytesAt(data', to, body')
    requires n <= |body| && n <= |body'|
    ensures forall k :: 0 <= k < n ==> body'[k] == body[k]
  {
    forall k | 0 <= k < n
      ensures body'[k] == body[k]
    {
      assert from + k in data && data[from + k] == body[k];
      assert to + k in data' && data'[to + k] == body'[k];
    }
  }
}
