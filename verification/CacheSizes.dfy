/** How the size of the realpath cache relates to what the cache holds: removals subtract a
    resolved path that is the path itself, although it was stored and counted once. */
module CacheSizes {
  import opened RealpathCache

  /** The resolved path is the path, and stored once. */
  predicate StoredOnce(e: Entry) {
    e.realpath == e.path
  }

  predicate Exact(st: Store) {
    st.size == Held(st.chains)
  }

  /** What is held beyond the size. */
  function Slack(st: Store): int {
    Held(st.chains) - st.size
  }

  /** What the removals of these entries subtract too much. */
  function Twice(out: Chain): nat {
    if out == [] then 0 else (if StoredOnce(out[0]) then |out[0].realpath| + 1 else 0) + Twice(out[1..])
  }

  lemma {:induction false} TwiceIsNothing(out: Chain)
    ensures Twice(out) == 0 <==> forall e :: e in out ==> !StoredOnce(e)
  {
    if out != [] {
      TwiceIsNothing(out[1..]);
    }
  }

  lemma {:induction false} ChargedIs(out: Chain)
    ensures Charged(out) == ChainBytes(out) + Twice(out)
  {
    if out != [] {
      ChargedIs(out[1..]);
    }
  }

  lemma BytesCons(e: Entry, c: Chain)
    ensures ChainBytes([e] + c) == Bytes(e) + ChainBytes(c) && ChainBytes([]) == 0
  {
    assert ([e] + c)[1..] == c;
  }

  lemma {:induction false} SweepSplits(c: Chain, path: string, t: int, ttl: int)
    ensures ChainBytes(c) == ChainBytes(Swept(c, path, t, ttl)) + ChainBytes(SweptOut(c, path, t, ttl))
  {
    hide Bytes;
    if c != [] {
      SweepSplits(c[1..], path, t, ttl);
      BytesCons(c[0], Swept(c[1..], path, t, ttl));
      BytesCons(c[0], SweptOut(c[1..], path, t, ttl));
    }
  }

  lemma {:induction false} DeletionSplits(c: Chain, path: string)
    ensures ChainBytes(c) == ChainBytes(WithoutNewest(c, path)) + ChainBytes(DeletedOut(c, path))
  {
    hide Bytes;
    if c != [] {
      DeletionSplits(c[1..], path);
      BytesCons(c[0], WithoutNewest(c[1..], path));
      BytesCons(c[0], []);
      assert [c[0]] + [] == [c[0]];
    }
  }

  // ---- one call ----

  datatype Call = Look(path: string, t: int) | Delete(path: string) | Save(path: string, realpath: string, dir: bool, t: int) | Clean

  function After(st: Store, c: Call): (st': Store)
    requires |st.chains| == BUCKETS
    ensures |st'.chains| == BUCKETS && st'.limit == st.limit && st'.ttl == st.ttl
  {
    match c
    case Look(path, t) => Looked(st, path, t)
    case Delete(path) => Deleted(st, path)
    case Save(path, realpath, dir, t) => Added(st, path, realpath, dir, t)
    case Clean => Cleaned(st)
  }

  /** The entries that a call unlinks and subtracts one by one. */
  function Unlinked(st: Store, c: Call): Chain
    requires |st.chains| == BUCKETS
  {
    match c
    case Look(path, t) => SweptOut(st.chains[ChainOf(path)], path, t, st.ttl)
    case Delete(path) => DeletedOut(st.chains[ChainOf(path)], path)
    case Save(_, _, _, _) => []
    case Clean => []
  }

  lemma CallSlack(st: Store, c: Call)
    requires |st.chains| == BUCKETS
    ensures Slack(After(st, c)) == if c.Clean? then 0 else Slack(st) + Twice(Unlinked(st, c))
  {
    hide Held; hide ChainBytes; hide Swept; hide SweptOut; hide WithoutNewest; hide DeletedOut; hide Charged; hide Key;
    ChargedIs(Unlinked(st, c));
    match c
    case Look(path, t) =>
      var n := ChainOf(path);
      HeldUpdate(st.chains, n, Swept(st.chains[n], path, t, st.ttl));
      SweepSplits(st.chains[n], path, t, st.ttl);
    case Delete(path) =>
      var n := ChainOf(path);
      HeldUpdate(st.chains, n, WithoutNewest(st.chains[n], path));
      DeletionSplits(st.chains[n], path);
    case Save(path, realpath, dir, t) =>
      var n, e := ChainOf(path), Entry(Key(path), path, realpath, dir, t + st.ttl);
      HeldUpdate(st.chains, n, [e] + st.chains[n]);
      BytesCons(e, st.chains[n]);
    case Clean =>
      NothingHeld(NoEntries());
  }

  /** A call leaves the size exact exactly when it was exact and the call unlinks no entry
      that is stored once, or when it cleans the cache. */
  lemma CallKeepsExactly(st: Store, c: Call)
    requires |st.chains| == BUCKETS && Slack(st) >= 0
    ensures Exact(After(st, c)) <==> c.Clean? || (Exact(st) && !Unlinks(st, c))
  {
    hide After; hide Unlinks; hide Held;
    StepSlack(st, c);
  }

  // ---- runs ----

  function Run(st: Store, calls: seq<Call>): (st': Store)
    requires |st.chains| == BUCKETS
    ensures |st'.chains| == BUCKETS && st'.limit == st.limit && st'.ttl == st.ttl
  {
    if calls == [] then st else After(Run(st, calls[..|calls| - 1]), calls[|calls| - 1])
  }

  /** Call `i` unlinks an entry that is stored once, and the cache is not cleaned later. */
  ghost predicate Forgets(st: Store, calls: seq<Call>, i: int)
    requires |st.chains| == BUCKETS && 0 <= i < |calls|
  {
    Unlinks(Run(st, calls[..i]), calls[i]) && forall k :: i < k < |calls| ==> !calls[k].Clean?
  }

  /** Some call has forgotten bytes that are held. */
  ghost predicate Forgotten(st: Store, calls: seq<Call>)
    requires |st.chains| == BUCKETS
  {
    exists i :: 0 <= i < |calls| && Forgets(st, calls, i)
  }

  lemma ForgottenStep(st: Store, calls: seq<Call>)
    requires |st.chains| == BUCKETS && calls != []
    ensures var n := |calls| - 1;
      Forgotten(st, calls) <==> !calls[n].Clean? && (Forgotten(st, calls[..n]) || Unlinks(Run(st, calls[..n]), calls[n]))
  {
    hide Forgets; hide Run; hide Unlinks;
    var n := |calls| - 1;
    ForgetsLast(st, calls);
    if i :| 0 <= i < n && Forgets(st, calls[..n], i) {
      ForgetsBefore(st, calls, i);
    }
    if i :| 0 <= i < n && Forgets(st, calls, i) {
      ForgetsBefore(st, calls, i);
    }
  }

  /** The call unlinks an entry that is stored once. */
  ghost predicate Unlinks(st: Store, c: Call)
    requires |st.chains| == BUCKETS
  {
    exists e :: e in Unlinked(st, c) && StoredOnce(e)
  }

  lemma {:induction false} RunSlack(st: Store, calls: seq<Call>)
    requires |st.chains| == BUCKETS && Slack(st) == 0
    ensures Slack(Run(st, calls)) >= 0 && (Slack(Run(st, calls)) == 0 <==> !Forgotten(st, calls))
  {
    hide Forgotten; hide Slack;
    if calls == [] {
      NothingForgotten(st);
    } else {
      var n := |calls| - 1;
      RunSlack(st, calls[..n]);
      ForgottenStep(st, calls);
      StepSlack(Run(st, calls[..n]), calls[n]);
    }
  }

  lemma NothingForgotten(st: Store)
    requires |st.chains| == BUCKETS
    ensures !Forgotten(st, [])
  {
  }

  lemma StepSlack(st: Store, c: Call)
    requires |st.chains| == BUCKETS && Slack(st) >= 0
    ensures Slack(After(st, c)) >= 0 && (Slack(After(st, c)) == 0 <==> c.Clean? || (Slack(st) == 0 && !Unlinks(st, c)))
  {
    hide After; hide Unlinked; hide Slack;
    CallSlack(st, c);
    TwiceIsNothing(Unlinked(st, c));
  }

  lemma ForgetsBefore(st: Store, calls: seq<Call>, i: nat)
    requires |st.chains| == BUCKETS && i < |calls| - 1
    ensures var n := |calls| - 1; Forgets(st, calls, i) <==> Forgets(st, calls[..n], i) && !calls[n].Clean?
  {
    hide Run; hide Unlinks;
    assert calls[..|calls| - 1][..i] == calls[..i];
  }

  lemma ForgetsLast(st: Store, calls: seq<Call>)
    requires |st.chains| == BUCKETS && calls != []
    ensures var n := |calls| - 1; var c := calls[n];
      Forgets(st, calls, n) <==> !c.Clean? && Unlinks(Run(st, calls[..n]), c)
  {
    hide Run;
    hide Unlinked;
    NothingUnlinked(Run(st, calls[..|calls| - 1]));
  }

  lemma NothingUnlinked(st: Store)
    requires |st.chains| == BUCKETS
    ensures Unlinked(st, Clean) == []
  {
  }

  /** After any calls the size is what the cache holds exactly unless an entry that is stored
      once was unlinked since the last cleaning. */
  lemma SizeIsExactly(limit: int, ttl: int, calls: seq<Call>)
    ensures Exact(Run(EmptyStore(limit, ttl), calls)) <==> !Forgotten(EmptyStore(limit, ttl), calls)
  {
    hide Held; hide Run; hide Forgotten;
    NothingHeld(NoEntries());
    RunSlack(EmptyStore(limit, ttl), calls);
  }

  /** Then the cache holds no more than its limit. */
  lemma {:induction false} ExactKeepsLimit(limit: nat, ttl: int, calls: seq<Call>)
    requires !Forgotten(EmptyStore(limit, ttl), calls)
    ensures Held(Run(EmptyStore(limit, ttl), calls).chains) <= limit
  {
    hide Run; hide Held; hide Forgotten;
    SizeIsExactly(limit, ttl, calls);
    SizeWithinLimit(EmptyStore(limit, ttl), calls);
  }

  lemma {:induction false} SizeWithinLimit(st: Store, calls: seq<Call>)
    requires |st.chains| == BUCKETS && (st.size <= st.limit || st.size <= 0)
    ensures var st' := Run(st, calls); st'.size <= st'.limit || st'.size <= 0
  {
    hide Key; hide Held; hide Swept; hide SweptOut; hide WithoutNewest; hide DeletedOut;
    if calls != [] {
      SizeWithinLimit(st, calls[..|calls| - 1]);
    }
  }

  // ---- the limit ----

  function Letters(n: nat): (s: string)
    ensures |s| == n
  {
    if n == 0 then "" else Letters(n - 1) + "a"
  }

  /** Saves an absolute path of `n` characters that is its own resolution. */
  function SaveShort(n: nat): Call
    requires n > 0
  {
    Save("/" + Letters(n - 1), "/" + Letters(n - 1), true, 0)
  }

  lemma SavedShort(st: Store, n: nat)
    requires |st.chains| == BUCKETS && n > 0 && st.size + BUCKET_BYTES + n + 1 <= st.limit
    ensures After(st, SaveShort(n)).size == st.size + BUCKET_BYTES + n + 1
    ensures Slack(After(st, SaveShort(n))) == Slack(st)
  {
    hide Held; hide Key;
    CallSlack(st, SaveShort(n));
  }

  ghost predicate OnlyShortSaves(calls: seq<Call>) {
    forall c :: c in calls ==> exists n: nat :: 0 < n < 100 && c == SaveShort(n)
  }

  /** Saving short paths can fill the cache up to its limit. */
  lemma {:induction false} FillUp(st: Store) returns (calls: seq<Call>)
    requires |st.chains| == BUCKETS && st.size + 60 <= st.limit
    ensures OnlyShortSaves(calls) && Run(st, calls).size == st.limit && Slack(Run(st, calls)) == Slack(st)
    decreases st.limit - st.size
  {
    hide Held; hide After; hide SaveShort;
    var n := if st.size + 120 <= st.limit then 3 else st.limit - st.size - BUCKET_BYTES - 1;
    SavedShort(st, n);
    var st1, c := After(st, SaveShort(n)), SaveShort(n);
    RunCons(st, c, []);
    if st.size + 120 <= st.limit {
      var rest := FillUp(st1);
      RunCons(st, c, rest);
      calls := [c] + rest;
    } else {
      calls := [c] + [];
    }
    assert c == SaveShort(n) && forall x :: x in calls ==> x == c || x in calls[1..];
  }

  lemma {:induction false} RunCons(st: Store, c: Call, rest: seq<Call>)
    requires |st.chains| == BUCKETS
    ensures Run(st, [c] + rest) == Run(After(st, c), rest)
  {
    hide After;
    var calls := [c] + rest;
    if rest == [] {
      assert calls[..0] == [];
    } else {
      var n := |rest| - 1;
      RunCons(st, c, rest[..n]);
      assert calls[..n + 1] == [c] + rest[..n];
    }
  }

  lemma {:induction false} SavesKeepSlack(st: Store, calls: seq<Call>)
    requires |st.chains| == BUCKETS && forall c :: c in calls ==> c.Save?
    ensures Slack(Run(st, calls)) == Slack(st)
  {
    hide Held; hide After;
    if calls != [] {
      var n := |calls| - 1;
      assert forall c :: c in calls[..n] ==> c in calls;
      SavesKeepSlack(st, calls[..n]);
      CallSlack(Run(st, calls[..n]), calls[n]);
      assert calls[n] in calls;
      assert Unlinked(Run(st, calls[..n]), calls[n]) == [];
    }
  }

  /** While there is room for another path, saving paths can make the cache hold more than
      its limit exactly when the size is not exact. */
  lemma LimitBreaksExactly(st: Store)
    requires |st.chains| == BUCKETS && Slack(st) >= 0 && 0 <= st.limit && st.size + 60 <= st.limit
    ensures (exists calls: seq<Call> :: OnlyShortSaves(calls) && Held(Run(st, calls).chains) > st.limit) <==> !Exact(st)
  {
    hide Held; hide Run;
    if Exact(st) {
      forall calls: seq<Call> | OnlyShortSaves(calls)
        ensures Held(Run(st, calls).chains) <= st.limit
      {
        SavesKeepSlack(st, calls);
        SizeWithinLimit(st, calls);
      }
    } else {
      var calls := FillUp(st);
      assert Held(Run(st, calls).chains) > st.limit;
    }
  }

  // ---- an example ----

  /** One path, saved and deleted. */
  lemma SaveAndDelete(st: Store, t: int)
    requires st.chains == NoEntries() && st.size + 59 <= st.limit
    ensures Deleted(Added(st, "/a", "/a", true, t), "/a") == st.(size := st.size - 3)
  {
    hide Key;
    var n, e := ChainOf("/a"), Entry(Key("/a"), "/a", "/a", true, t + st.ttl);
    var st1 := Added(st, "/a", "/a", true, t);
    assert st1.chains[n] == [e] && [e][1..] == [];
    assert Charged([e]) == Subtracted(e) by {
      ChargedOne(e, []);
      assert [e] + [] == [e];
    }
    assert Deleted(st1, "/a").chains == st.chains;
  }

  /** A run from an empty cache whose limit has room for one path: each time
      it is saved and deleted the size falls by three bytes, though nothing is held; after
      enough of that, saving it over and over makes the cache hold more than its limit. */
  method HoldMoreThanLimit(limit: nat, ttl: int, t: int) returns (c: Cache)
    requires limit >= 59
    ensures fresh(c) && c.Valid() && c.limit == limit && c.size <= limit < Held(c.chains)
  {
    hide Held; hide Key; hide StoreOk;
    c := new Cache(limit, ttl);
    var rounds := limit + 59;
    var k := 0;
    while k < rounds
      invariant 0 <= k <= rounds && fresh(c) && c.Valid() && c.limit == limit && c.State() == Store(NoEntries(), -3 * k, limit, ttl)
    {
      SaveAndDelete(c.State(), t);
      c.Add("/a", "/a", true, t);
      c.Del("/a");
      k := k + 1;
    }
    NothingHeld(c.chains);
    while c.size + 59 <= limit
      invariant fresh(c) && c.Valid() && |c.chains| == BUCKETS && c.limit == limit && c.ttl == ttl && c.size <= limit
      invariant Slack(c.State()) == 3 * rounds
      decreases limit - c.size
    {
      SavedAgain(c.State(), t);
      c.Add("/a", "/a", true, t);
    }
  }

  lemma SavedAgain(st: Store, t: int)
    requires |st.chains| == BUCKETS && st.size + 59 <= st.limit
    ensures var st' := Added(st, "/a", "/a", true, t); |st'.chains| == BUCKETS && st'.size == st.size + 59 && Slack(st') == Slack(st)
  {
    hide Held; hide Key;
    CallSlack(st, Save("/a", "/a", true, t));
  }
}
