/** The realpath cache: 1024 chains of buckets, newest first, that expire. */
module RealpathCache {
  import opened Options
  import opened Paths
  import opened Resolver
  import opened Routes

  const BUCKETS: nat := 1024
  const BUCKET_BYTES: nat := 56   // sizeof(realpath_cache_bucket)

  datatype Entry = Entry(key: nat, path: string, realpath: string, dir: bool, expires: int)

  type Chain = seq<Entry>

  // ---- the hash ----

  function Xor(a: nat, b: nat): nat {
    if a == 0 && b == 0 then 0 else (a % 2 + b % 2) % 2 + 2 * Xor(a / 2, b / 2)
  }

  /** A character as the hash sees it: signed, widened to 64 bits. */
  function Widened(c: char): nat {
    var code := c as int % 256;
    if code < 128 then code else 0x1_0000_0000_0000_0000 - 256 + code
  }

  /** realpath_cache_key. */
  function Key(path: string): nat {
    if path == [] then 2166136261
    else Xor(Key(path[..|path| - 1]) * 16777619 % 0x1_0000_0000_0000_0000, Widened(path[|path| - 1]))
  }

  function ChainOf(path: string): (n: nat)
    ensures n < BUCKETS
  {
    Key(path) % BUCKETS
  }

  // ---- sizes ----

  /** What an entry takes: the resolved path is stored only when it differs. */
  function Bytes(e: Entry): nat {
    BUCKET_BYTES + |e.path| + 1 + (if e.realpath == e.path then 0 else |e.realpath| + 1)
  }

  /** What its removal subtracts. */
  function Subtracted(e: Entry): nat {
    BUCKET_BYTES + |e.path| + 1 + |e.realpath| + 1
  }

  /** What the removals of these entries subtract. */
  function Charged(out: Chain): nat {
    if out == [] then 0 else Subtracted(out[0]) + Charged(out[1..])
  }

  function ChainBytes(c: Chain): nat {
    if c == [] then 0 else Bytes(c[0]) + ChainBytes(c[1..])
  }

  function Held(chains: seq<Chain>): nat {
    if chains == [] then 0 else ChainBytes(chains[0]) + Held(chains[1..])
  }

  lemma {:induction false} HeldUpdate(chains: seq<Chain>, n: nat, c: Chain)
    requires n < |chains|
    ensures Held(chains[n := c]) == Held(chains) - ChainBytes(chains[n]) + ChainBytes(c)
  {
    if n == 0 {
      assert chains[0 := c][1..] == chains[1..];
    } else {
      HeldUpdate(chains[1..], n - 1, c);
      assert chains[n := c][1..] == chains[1..][n - 1 := c];
    }
  }

  lemma {:induction false} ChainBytesRemove(c: Chain, i: nat)
    requires i < |c|
    ensures ChainBytes(c[..i] + c[i + 1..]) == ChainBytes(c) - Bytes(c[i])
  {
    if i == 0 {
      assert c[..0] + c[1..] == c[1..];
    } else {
      ChainBytesRemove(c[1..], i - 1);
      assert (c[..i] + c[i + 1..])[1..] == c[1..][..i - 1] + c[1..][i..];
    }
  }

  // ---- what a lookup finds and leaves ----

  predicate Expired(e: Entry, t: int, ttl: int) {
    ttl != 0 && e.expires < t
  }

  function Lookup(c: Chain, path: string, t: int, ttl: int): Option<Entry> {
    if c == [] then None
    else if !Expired(c[0], t, ttl) && c[0].path == path then Some(c[0])
    else Lookup(c[1..], path, t, ttl)
  }

  /** The chain after a lookup: expired entries before the hit are gone. */
  function Swept(c: Chain, path: string, t: int, ttl: int): Chain {
    if c == [] then []
    else if Expired(c[0], t, ttl) then Swept(c[1..], path, t, ttl)
    else if c[0].path == path then c
    else [c[0]] + Swept(c[1..], path, t, ttl)
  }

  /** The entries that a lookup unlinks. */
  function SweptOut(c: Chain, path: string, t: int, ttl: int): Chain {
    if c == [] then []
    else if Expired(c[0], t, ttl) then [c[0]] + SweptOut(c[1..], path, t, ttl)
    else if c[0].path == path then []
    else SweptOut(c[1..], path, t, ttl)
  }

  lemma ChargedOne(e: Entry, out: Chain)
    ensures Charged([e] + out) == Subtracted(e) + Charged(out) && Charged([]) == 0
  {
    assert ([e] + out)[1..] == out;
  }

  /** One step along a chain. */
  lemma ScanStep(c: Chain, i: nat, path: string, t: int, ttl: int)
    requires i < |c|
    ensures Expired(c[i], t, ttl) ==>
      && Swept(c[i..], path, t, ttl) == Swept(c[i + 1..], path, t, ttl) && Lookup(c[i..], path, t, ttl) == Lookup(c[i + 1..], path, t, ttl)
      && SweptOut(c[i..], path, t, ttl) == [c[i]] + SweptOut(c[i + 1..], path, t, ttl)
    ensures !Expired(c[i], t, ttl) && c[i].path == path ==>
      Swept(c[i..], path, t, ttl) == c[i..] && Lookup(c[i..], path, t, ttl) == Some(c[i]) && SweptOut(c[i..], path, t, ttl) == []
    ensures !Expired(c[i], t, ttl) && c[i].path != path ==>
      && Swept(c[i..], path, t, ttl) == [c[i]] + Swept(c[i + 1..], path, t, ttl)
      && Lookup(c[i..], path, t, ttl) == Lookup(c[i + 1..], path, t, ttl)
      && SweptOut(c[i..], path, t, ttl) == SweptOut(c[i + 1..], path, t, ttl)
  {
    assert c[i..][0] == c[i] && c[i..][1..] == c[i + 1..];
  }

  lemma ScanEnd(path: string, t: int, ttl: int)
    ensures Charged([]) == 0 && Swept([], path, t, ttl) == [] && Lookup([], path, t, ttl) == None && SweptOut([], path, t, ttl) == []
  {
  }

  /** A lookup does not change what lookups at that time find. */
  lemma {:induction false} SweptLookup(c: Chain, path: string, other: string, t: int, ttl: int)
    ensures Lookup(Swept(c, path, t, ttl), other, t, ttl) == Lookup(c, other, t, ttl)
  {
    if c != [] {
      SweptLookup(c[1..], path, other, t, ttl);
      var r := Swept(c[1..], path, t, ttl);
      assert ([c[0]] + r)[1..] == r;
    }
  }

  // ---- the cache as a value ----

  datatype Store = Store(chains: seq<Chain>, size: int, limit: int, ttl: int)

  /** What a lookup of the path at time `t` finds. */
  function Visible(st: Store, path: string, t: int): Option<Entry>
    requires |st.chains| == BUCKETS
  {
    Lookup(st.chains[ChainOf(path)], path, t, st.ttl)
  }

  /** The cache after the lookup. */
  function Looked(st: Store, path: string, t: int): Store
    requires |st.chains| == BUCKETS
  {
    var n := ChainOf(path);
    st.(chains := st.chains[n := Swept(st.chains[n], path, t, st.ttl)], size := st.size - Charged(SweptOut(st.chains[n], path, t, st.ttl)))
  }

  /** The cache after an addition. */
  function Added(st: Store, path: string, realpath: string, dir: bool, t: int): Store
    requires |st.chains| == BUCKETS
  {
    var n, e := ChainOf(path), Entry(Key(path), path, realpath, dir, t + st.ttl);
    if st.size + Bytes(e) <= st.limit then st.(chains := st.chains[n := [e] + st.chains[n]], size := st.size + Bytes(e)) else st
  }

  /** The entry that a deletion unlinks: the newest for the path, expired or not. */
  function DeletedOut(c: Chain, path: string): Chain {
    if c == [] then [] else if c[0].path == path then [c[0]] else DeletedOut(c[1..], path)
  }

  /** The cache after a deletion. */
  function Deleted(st: Store, path: string): Store
    requires |st.chains| == BUCKETS
  {
    var n := ChainOf(path);
    st.(chains := st.chains[n := WithoutNewest(st.chains[n], path)], size := st.size - Charged(DeletedOut(st.chains[n], path)))
  }

  function NoEntries(): (chains: seq<Chain>)
    ensures |chains| == BUCKETS && forall n :: 0 <= n < BUCKETS ==> chains[n] == []
  {
    seq(BUCKETS, _ => [])
  }

  function EmptyStore(limit: int, ttl: int): Store {
    Store(NoEntries(), 0, limit, ttl)
  }

  /** The cache after cleaning. */
  function Cleaned(st: Store): Store {
    st.(chains := NoEntries(), size := 0)
  }

  lemma LookedSees(st: Store, path: string, other: string, t: int)
    requires |st.chains| == BUCKETS
    ensures Visible(Looked(st, path, t), other, t) == Visible(st, other, t)
  {
    hide Key;
    SweptLookup(st.chains[ChainOf(path)], path, other, t, st.ttl);
  }

  /** An addition that fits is found for as long as entries live, and then what is older;
      one that does not changes nothing; and no other path is concerned. */
  lemma AddedLives(st: Store, path: string, realpath: string, dir: bool, t: int, other: string, t': int)
    requires |st.chains| == BUCKETS
    ensures var st' := Added(st, path, realpath, dir, t);
      var bytes := BUCKET_BYTES + |path| + 1 + (if realpath == path then 0 else |realpath| + 1);
      && (st.size + bytes > st.limit ==> st' == st)
      && (st.size + bytes <= st.limit ==> st'.size == st.size + bytes)
      && (st.size + bytes <= st.limit && (st.ttl == 0 || t' <= t + st.ttl) ==>
            Visible(st', path, t').Some? && Visible(st', path, t').value.realpath == realpath && Visible(st', path, t').value.dir == dir)
      && (st.ttl != 0 && t' > t + st.ttl ==> Visible(st', path, t') == Visible(st, path, t'))
      && (other != path ==> Visible(st', other, t') == Visible(st, other, t'))
  {
    hide Key;
    var n, e := ChainOf(path), Entry(Key(path), path, realpath, dir, t + st.ttl);
    assert ([e] + st.chains[n])[1..] == st.chains[n];
  }

  /** A deletion concerns no other path, and leaves nothing to be found of its own unless there
      was more than one entry for it; cleaning leaves nothing at all. */
  lemma DeletedGoes(st: Store, path: string, other: string, t: int)
    requires |st.chains| == BUCKETS
    ensures other != path ==> Visible(Deleted(st, path), other, t) == Visible(st, other, t)
    ensures (forall i, j :: 0 <= i < j < |st.chains[ChainOf(path)]| ==>
               !(st.chains[ChainOf(path)][i].path == path && st.chains[ChainOf(path)][j].path == path)) ==>
      Visible(Deleted(st, path), path, t) == None
    ensures Visible(Cleaned(st), other, t) == None
  {
    hide Key;
    var c := st.chains[ChainOf(path)];
    WithoutLookup(c, path, other, t, st.ttl);
    LookupFindsNewest(WithoutNewest(c, path), path, t, st.ttl);
    if forall i, j :: 0 <= i < j < |c| ==> !(c[i].path == path && c[j].path == path) {
      NoneWithout(c, path);
    }
  }

  lemma {:induction false} WithoutLookup(c: Chain, path: string, other: string, t: int, ttl: int)
    ensures other != path ==> Lookup(WithoutNewest(c, path), other, t, ttl) == Lookup(c, other, t, ttl)
  {
    if c != [] && c[0].path != path {
      WithoutLookup(c[1..], path, other, t, ttl);
      var r := WithoutNewest(c[1..], path);
      assert ([c[0]] + r)[1..] == r;
    }
  }

  lemma {:induction false} NoneWithout(c: Chain, path: string)
    requires forall i, j :: 0 <= i < j < |c| ==> !(c[i].path == path && c[j].path == path)
    ensures forall e :: e in WithoutNewest(c, path) ==> e.path != path
  {
    if c != [] {
      assert forall i :: 0 <= i < |c[1..]| ==> c[1..][i] == c[i + 1];
      if c[0].path != path {
        NoneWithout(c[1..], path);
      }
    }
  }

  /** The newest entry for the path that has not expired. */
  ghost predicate NewestAt(c: Chain, i: int, path: string, t: int, ttl: int) {
    && 0 <= i < |c| && c[i].path == path && !Expired(c[i], t, ttl)
    && forall j :: 0 <= j < i ==> c[j].path != path || Expired(c[j], t, ttl)
  }

  /** A lookup finds the newest entry for exactly that path that has not expired, and
      fails only when there is none. */
  lemma {:induction false} LookupFindsNewest(c: Chain, path: string, t: int, ttl: int)
    ensures Lookup(c, path, t, ttl).Some? ==> exists i :: NewestAt(c, i, path, t, ttl) && c[i] == Lookup(c, path, t, ttl).value
    ensures Lookup(c, path, t, ttl).None? ==> forall i :: 0 <= i < |c| ==> c[i].path != path || Expired(c[i], t, ttl)
  {
    if c != [] {
      if !Expired(c[0], t, ttl) && c[0].path == path {
        assert NewestAt(c, 0, path, t, ttl);
      } else {
        LookupFindsNewest(c[1..], path, t, ttl);
        if Lookup(c[1..], path, t, ttl).Some? {
          var i :| NewestAt(c[1..], i, path, t, ttl) && c[1..][i] == Lookup(c, path, t, ttl).value;
          assert forall j :: 1 <= j < |c| ==> c[j] == c[1..][j - 1];
          assert c[i + 1] == c[1..][i];
          assert NewestAt(c, i + 1, path, t, ttl);
        } else {
          assert forall j :: 1 <= j < |c| ==> c[j] == c[1..][j - 1];
        }
      }
    }
  }

  function Unexpired(c: Chain, t: int, ttl: int): Chain {
    if c == [] then [] else (if Expired(c[0], t, ttl) then [] else [c[0]]) + Unexpired(c[1..], t, ttl)
  }

  /** A lookup unlinks only expired entries and leaves the order of the others. */
  lemma {:induction false} SweepKeepsUnexpired(c: Chain, path: string, t: int, ttl: int)
    ensures Unexpired(Swept(c, path, t, ttl), t, ttl) == Unexpired(c, t, ttl)
    ensures forall e :: e in Swept(c, path, t, ttl) ==> e in c
    ensures Lookup(c, path, t, ttl).None? ==> Swept(c, path, t, ttl) == Unexpired(c, t, ttl)
  {
    if c != [] {
      SweepKeepsUnexpired(c[1..], path, t, ttl);
      var r := Swept(c[1..], path, t, ttl);
      assert ([c[0]] + r)[1..] == r;
    }
  }

  /** The chain without its newest entry for the path, expired or not. */
  function WithoutNewest(c: Chain, path: string): Chain {
    if c == [] then [] else if c[0].path == path then c[1..] else [c[0]] + WithoutNewest(c[1..], path)
  }

  lemma {:induction false} WithoutNewestAt(c: Chain, path: string, i: nat)
    requires i <= |c| && (forall j :: 0 <= j < i ==> c[j].path != path) && (i < |c| ==> c[i].path == path)
    ensures WithoutNewest(c, path) == if i < |c| then c[..i] + c[i + 1..] else c
    ensures DeletedOut(c, path) == if i < |c| then [c[i]] else []
  {
    if i > 0 {
      assert forall j :: 0 <= j < i - 1 ==> c[1..][j] == c[j + 1];
      WithoutNewestAt(c[1..], path, i - 1);
      Uncons(c, i);
    }
  }

  lemma Uncons(c: Chain, i: nat)
    requires 0 < i <= |c|
    ensures c == [c[0]] + c[1..]
    ensures i < |c| ==> c[1..][i - 1] == c[i] && c[..i] + c[i + 1..] == [c[0]] + (c[1..][..i - 1] + c[1..][i..])
  {
  }

  /** Every entry is in the chain of its key; the size says no more than is held, and not
      more than the limit. */
  ghost predicate StoreOk(st: Store) {
    && |st.chains| == BUCKETS
    && (forall n, e :: 0 <= n < BUCKETS && e in st.chains[n] ==> e.key == Key(e.path) && e.key % BUCKETS == n)
    && st.size <= Held(st.chains) && (st.size <= st.limit || st.size <= 0)
  }

  class Cache {
    var chains: seq<Chain>
    var size: int
    const limit: int
    const ttl: int

    ghost predicate Valid()
      reads this
    {
      StoreOk(State())
    }

    function State(): Store
      reads this
    {
      Store(chains, size, limit, ttl)
    }

    constructor (limit: int, ttl: int)
      ensures Valid() && State() == EmptyStore(limit, ttl)
    {
      this.limit, this.ttl := limit, ttl;
      chains := NoEntries();
      size := 0;
      new;
      NothingHeld(chains);
    }

    /** realpath_cache_clean. */
    method Clean()
      requires Valid()
      modifies this
      ensures Valid() && State() == Cleaned(old(State()))
    {
      var i := 0;
      while i < BUCKETS
        invariant 0 <= i <= BUCKETS && |chains| == BUCKETS
        invariant forall n :: 0 <= n < i ==> chains[n] == []
      {
        chains := chains[i := []];
        i := i + 1;
      }
      size := 0;
      assert chains == NoEntries();
      NothingHeld(chains);
    }

    /** Unlinks entry `i` of chain `n`. */
    method Unlink(n: nat, i: nat)
      requires Valid() && n < BUCKETS && i < |chains[n]|
      modifies this
      ensures Valid()
      ensures chains == old(chains)[n := old(chains[n])[..i] + old(chains[n])[i + 1..]]
      ensures size == old(size) - Subtracted(old(chains[n])[i])
    {
      hide Key; hide Held; hide ChainBytes;
      var c := chains[n];
      var e := c[i];
      assert e in c;
      HeldUpdate(chains, n, c[..i] + c[i + 1..]);
      ChainBytesRemove(c, i);
      assert forall x :: x in c[..i] + c[i + 1..] ==> x in c;
      chains := chains[n := c[..i] + c[i + 1..]];
      size := size - (BUCKET_BYTES + |e.path| + 1 + |e.realpath| + 1);
    }

    lemma HasBuckets()
      requires Valid()
      ensures |chains| == BUCKETS
    {
    }

    lemma KeyAt(n: nat, i: nat)
      requires Valid() && n < |chains| && i < |chains[n]|
      ensures chains[n][i].key == Key(chains[n][i].path) && |chains| == BUCKETS
    {
      hide Key;
      assert chains[n][i] in chains[n];
    }

    /** realpath_cache_find. */
    method Find(path: string, t: int) returns (r: Option<Entry>)
      requires Valid()
      modifies this
      ensures Valid()
      ensures State() == Looked(old(State()), path, t) && r == Visible(old(State()), path, t)
    {
      hide Key; hide Held; hide Swept; hide Lookup; hide SweptOut; hide Subtracted; hide Charged; hide StoreOk;
      HasBuckets();
      var key := Key(path);
      var n := key % BUCKETS;
      ghost var c0 := chains[n];
      var i := 0;
      assert c0[..0] + Swept(c0[0..], path, t, ttl) == Swept(c0, path, t, ttl) && c0[0..] == c0;
      while i < |chains[n]|
        invariant Valid() && |chains| == BUCKETS && 0 <= i <= |chains[n]|
        invariant chains == old(chains)[n := chains[n]]
        invariant chains[n][..i] + Swept(chains[n][i..], path, t, ttl) == Swept(c0, path, t, ttl)
        invariant Lookup(chains[n][i..], path, t, ttl) == Lookup(c0, path, t, ttl)
        invariant size - Charged(SweptOut(chains[n][i..], path, t, ttl)) == old(size) - Charged(SweptOut(c0, path, t, ttl))
        decreases |chains[n]| - i
      {
        ghost var c := chains[n];
        ScanStep(c, i, path, t, ttl);
        KeyAt(n, i);
        if ttl != 0 && chains[n][i].expires < t {
          ChargedOne(c[i], SweptOut(c[i + 1..], path, t, ttl));
          Unlink(n, i);
          assert chains[n][..i] == c[..i] && chains[n][i..] == c[i + 1..];
        } else if key == chains[n][i].key && chains[n][i].path == path {
          assert c[..i] + c[i..] == c;
          ScanEnd(path, t, ttl);
          return Some(chains[n][i]);
        } else {
          assert c[..i] + ([c[i]] + Swept(c[i + 1..], path, t, ttl)) == c[..i + 1] + Swept(c[i + 1..], path, t, ttl);
          i := i + 1;
        }
      }
      ScanEnd(path, t, ttl);
      assert chains[n][i..] == [] && chains[n][..i] + [] == chains[n];
      r := None;
    }

    /** realpath_cache_del. */
    method Del(path: string)
      requires Valid()
      modifies this
      ensures Valid()
      ensures State() == Deleted(old(State()), path)
    {
      hide Key; hide Held;
      var key := Key(path);
      var n := key % BUCKETS;
      var i := 0;
      while i < |chains[n]|
        invariant 0 <= i <= |chains[n]| && State() == old(State()) && Valid()
        invariant forall j :: 0 <= j < i ==> chains[n][j].path != path
      {
        assert chains[n][i] in chains[n];
        if key == chains[n][i].key && chains[n][i].path == path {
          WithoutNewestAt(chains[n], path, i);
          ChargedOne(chains[n][i], []);
          assert [chains[n][i]] + [] == [chains[n][i]];
          Unlink(n, i);
          return;
        }
        i := i + 1;
      }
      WithoutNewestAt(chains[n], path, i);
      assert chains == chains[n := chains[n]];
    }

    /** realpath_cache_add, allocation succeeding. */
    method Add(path: string, realpath: string, dir: bool, t: int)
      requires Valid()
      modifies this
      ensures Valid()
      ensures State() == Added(old(State()), path, realpath, dir, t)
    {
      hide Key; hide Held;
      var bytes := BUCKET_BYTES + |path| + 1;
      if realpath != path {
        bytes := bytes + |realpath| + 1;
      }
      if size + bytes <= limit {
        var e := Entry(Key(path), path, realpath, dir, t + ttl);
        var n := e.key % BUCKETS;
        HeldUpdate(chains, n, [e] + chains[n]);
        assert ([e] + chains[n])[1..] == chains[n];
        chains := chains[n := [e] + chains[n]];
        size := size + bytes;
      }
    }
  }

  /** An entry is for a path whose last component is a name that exists; it has the path that every
      uncached resolution comes to, and tells exactly whether its links end at a directory. */
  ghost predicate EntrySound(fs: FileSystem, e: Entry) {
    && Leads(fs, e.path, e.realpath) && Canonical(e.realpath) && |e.realpath| < MAXPATHLEN - 1
    && InBuffer(e.path) && |e.path| > 1 && ProperName(e.path[NameStart(e.path)..]) && fs.lstat(e.path) != Missing && Flagged(fs, e.path, e.dir)
  }

  /** "Not a directory" is the truth. */
  ghost predicate FlagSound(fs: FileSystem, e: Entry) {
    !e.dir ==> NeverDirectory(fs, e.path)
  }

  /** A stored directory flag lies exactly when the links from its path end at the root, at
      ".." or at a missing name, and the path does resolve. */
  lemma FlagLiesExactly(fs: FileSystem, e: Entry)
    requires EntrySound(fs, e)
    ensures !FlagSound(fs, e) <==> (EndOf(fs, e.path) == AtDots || EndOf(fs, e.path) == AtMissing) && Resolves(fs, e.path)
  {
    hide EndOf; hide Resolve; hide Leads; hide Canonical;
    if Resolves(fs, e.path) {
      NeverDirectoryExactly(fs, e.path);
    }
  }

  ghost predicate AllSound(fs: FileSystem, chains: seq<Chain>) {
    forall n, e :: 0 <= n < |chains| && e in chains[n] ==> EntrySound(fs, e)
  }

  ghost predicate StoreSound(fs: FileSystem, st: Store) {
    |st.chains| == BUCKETS && AllSound(fs, st.chains)
  }

  /** No directory flag makes a lookup at time `t` refuse what an uncached resolution finds. */
  ghost predicate FlagsSound(fs: FileSystem, st: Store, t: int)
    requires |st.chains| == BUCKETS
  {
    forall path :: Visible(st, path, t).Some? ==> FlagSound(fs, Visible(st, path, t).value)
  }

  /** Lookups, deletions and expiries leave sound caches sound, and hits are sound. */
  lemma SweepSound(fs: FileSystem, st: Store, path: string, t: int)
    requires StoreSound(fs, st)
    ensures StoreSound(fs, Looked(st, path, t))
    ensures StoreSound(fs, Deleted(st, path)) && StoreSound(fs, Cleaned(st))
    ensures Visible(st, path, t).Some? ==> EntrySound(fs, Visible(st, path, t).value) && Visible(st, path, t).value.path == path
  {
    hide EntrySound; hide Key;
    var c := st.chains[ChainOf(path)];
    SweepKeepsUnexpired(c, path, t, st.ttl);
    LookupFindsNewest(c, path, t, st.ttl);
    WithoutNewestSubset(c, path);
  }

  lemma EmptySound(fs: FileSystem, limit: int, ttl: int)
    ensures StoreSound(fs, EmptyStore(limit, ttl))
  {
  }

  /** In a file system where links land, no flag lies. */
  lemma LandedFlags(fs: FileSystem, st: Store, t: int)
    requires StoreSound(fs, st) && LinksLand(fs)
    ensures FlagsSound(fs, st, t)
  {
    hide EntrySound; hide Key; hide FlagSound; hide Visible;
    forall path | Visible(st, path, t).Some?
      ensures FlagSound(fs, Visible(st, path, t).value)
    {
      SweepSound(fs, st, path, t);
      LandedFlag(fs, Visible(st, path, t).value);
    }
  }

  lemma LandedFlag(fs: FileSystem, e: Entry)
    requires EntrySound(fs, e) && LinksLand(fs)
    ensures FlagSound(fs, e)
  {
    hide EndOf; hide Resolve; hide Leads; hide Canonical; hide FlagSound; hide NameStart; hide ProperName;
    FlagLiesExactly(fs, e);
    EndOfCases(fs, e.path);
  }

  lemma {:induction false} WithoutNewestSubset(c: Chain, path: string)
    ensures forall e :: e in WithoutNewest(c, path) ==> e in c
  {
    if c != [] && c[0].path != path {
      WithoutNewestSubset(c[1..], path);
    }
  }

  lemma AddSound(fs: FileSystem, st: Store, path: string, realpath: string, dir: bool, t: int)
    requires StoreSound(fs, st) && EntrySound(fs, Entry(Key(path), path, realpath, dir, t + st.ttl))
    ensures StoreSound(fs, Added(st, path, realpath, dir, t))
  {
    hide EntrySound; hide Key;
  }

  lemma {:induction false} NothingHeld(chains: seq<Chain>)
    requires forall n :: 0 <= n < |chains| ==> chains[n] == []
    ensures Held(chains) == 0
  {
    if chains != [] {
      NothingHeld(chains[1..]);
    }
  }
}
