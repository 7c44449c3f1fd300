/** Virtual working directories: tsrm_realpath_r on a buffer, with the cache, and its
    callers virtual_file_ex and virtual_chdir. */
module VirtualCwd {
  import opened Options
  import opened Paths
  import opened Resolver
  import opened Routes
  import opened RealpathCache
  import opened CachedResolver

  const NUL: char := '\0'

  /** What a method leaves: failure, or the resolved path `out`, and the cache. */
  predicate Computes(w: (Outcome, Store), j: int, out: string, links: nat, dir: Option<bool>, st: Store) {
    w.1 == st && if j < 0 then w.0 == Fail else j == |out| && w.0 == Done(out, links, dir)
  }

  /** The part of a buffer that holds the result. */
  function Result(buf: string, j: int): string {
    if 0 <= j <= |buf| then buf[..j] else ""
  }

  /** The comparisons of characters that recognise "", "." and "..". */
  lemma DotNames(s: string, i: nat)
    requires i <= |s|
    ensures s[i..] == "" <==> i == |s|
    ensures s[i..] == "." <==> i == |s| - 1 && s[i] == '.'
    ensures s[i..] == ".." <==> i == |s| - 2 && s[i] == '.' && s[i + 1] == '.'
  {
  }

  /** The steps of Walk. */
  lemma WalkSteps(fs: FileSystem, st: Store, s: string, links: nat, mode: Mode, isDir: bool, t: int)
    requires links <= LINK_MAX && |st.chains| == BUCKETS
    ensures |s| <= 1 ==> Walk(fs, st, s, links, mode, isDir, t) == (Done([SLASH], links, None), st)
    ensures |s| > 1 ==> var name, before, w := s[NameStart(s)..], s[..NameStart(s) - 1], Walk(fs, st, s, links, mode, isDir, t);
      && (name == "" || name == "." ==> w == Walk(fs, st, before, links, mode, true, t))
      && (name == ".." ==> var (r, st') := Walk(fs, st, before, links, mode, true, t); w == (Up(r), st'))
      && (ProperName(name) ==> w == WalkName(fs, st, s, links, mode, isDir, t))
  {
    hide WalkName;
  }

  /** ".." behind the root is the root. */
  lemma RootUp(fs: FileSystem, st: Store, s: string, links: nat, mode: Mode, isDir: bool, t: int)
    requires links <= LINK_MAX && |st.chains| == BUCKETS && |s| > 1 && s[NameStart(s)..] == ".." && NameStart(s) <= 2
    ensures Walk(fs, st, s, links, mode, isDir, t) == (Done([SLASH], links, None), st)
  {
    hide Walk;
    WalkSteps(fs, st, s, links, mode, isDir, t);
    WalkSteps(fs, st, s[..NameStart(s) - 1], links, mode, true, t);
  }

  /** What a nested resolution leaves is canonical and fits, and the cache stays sound. */
  lemma NestedOk(fs: FileSystem, st: Store, s: string, links: nat, mode: Mode, isDir: bool, t: int)
    requires links <= LINK_MAX && StoreSound(fs, st) && InBuffer(s) && LinksFit(fs)
    ensures |st.chains| == BUCKETS
    ensures var (r, st') := Walk(fs, st, s, links, mode, isDir, t);
      StoreSound(fs, st') && (r.Done? ==> Canonical(r.path) && 1 <= |r.path| < MAXPATHLEN - 1 && r.path[0] == SLASH)
  {
    hide Walk; hide Leads; hide Flagged; hide AllSound;
    WalkAnswers(fs, st, s, links, mode, isDir, t);
    var r := Walk(fs, st, s, links, mode, isDir, t).0;
    if r.Done? {
      CanonicalNonEmpty(r.path);
    }
  }

  /** memcpy, memmove: `s` is read before anything is written. */
  method Put(a: array<char>, at: nat, s: string)
    requires at + |s| <= a.Length
    modifies a
    ensures a[..] == old(a[..at]) + s + old(a[at + |s|..])
  {
    forall k | 0 <= k < |s| {
      a[at + k] := s[k];
    }
  }

  /** The relative target of a link, `j` characters with their zero, moves behind the
      directory of the link. */
  method MoveBehind(a: array<char>, before: string, j: nat)
    requires |before| + 1 + j + 1 <= a.Length
    modifies a
    ensures a[..|before| + 1 + j] == before + [SLASH] + old(a[..j])
  {
    var i := |before| + 1;
    ghost var s := a[..];
    forall k | 0 <= k < j + 1 {
      a[i + k] := a[k];
    }
    ghost var s1 := a[..];
    assert s1[i..i + j] == s[..j];
    forall k | 0 <= k < i - 1 {
      a[k] := before[k];
    }
    a[i - 1] := SLASH;
    assert a[..i - 1] == before && a[i..i + j] == s1[i..i + j];
    Pieces(a[..], i, j);
  }

  lemma Pieces(s: string, i: nat, j: nat)
    requires 1 <= i && i + j <= |s|
    ensures s[..i + j] == s[..i - 1] + [s[i - 1]] + s[i..i + j]
  {
  }

  /** `target` is read into the buffer, and behind the directory of the link when it is
      relative, if it fits there. */
  method ReadTarget(path: array<char>, tmp: string, i: nat, target: string) returns (j: int)
    requires path.Length == MAXPATHLEN && |target| < MAXPATHLEN && 1 < |tmp| < MAXPATHLEN && tmp[0] == SLASH && i == NameStart(tmp)
    modifies path
    ensures j < 0 <==> TooLong(tmp, target)
    ensures j >= 0 ==> j < MAXPATHLEN && path[..j] == Target(tmp, target) && path[0] == SLASH
  {
    hide NameStart; hide Target; hide TooLong;
    TooLongIs(tmp, target);
    TargetIs(tmp, target);
    j := |target|;
    Put(path, 0, target + [NUL]);
    assert path[..j] == target;
    if j > 0 && path[0] == SLASH {
      assert path[0] == path[..j][0];
      return;
    }
    if i + j >= MAXPATHLEN - 1 {
      return -1;
    }
    MoveBehind(path, tmp[..i - 1], j);
    j := i + j;
    assert path[..j] == Target(tmp, target) && path[0] == path[..j][0];
  }

  lemma LinkFits(fs: FileSystem, s: string)
    requires LinksFit(fs) && fs.readlink(s).Some?
    ensures |fs.readlink(s).value| < MAXPATHLEN
  {
  }

  /** The name, with the zero behind it, goes behind the resolved directory. */
  method PutName(a: array<char>, j: nat, name: string) returns (j': nat)
    requires 1 <= j && j + 1 + |name| + 1 <= a.Length
    modifies a
    ensures j' == |Slashed(old(a[..j])) + name| && a[..j'] == Slashed(old(a[..j])) + name
  {
    ghost var q := a[..j];
    j' := j;
    if j > 1 {
      a[j] := SLASH;
      j' := j + 1;
    }
    assert a[..j'] == Slashed(q);
    Put(a, j', name + [NUL]);
    j' := j' + |name|;
    assert a[..j'] == Slashed(q) + name;
  }

  method WithSlash(buf: array<char>, j: nat, addSlash: bool) returns (r: string)
    requires buf.Length == MAXPATHLEN && j < MAXPATHLEN - 1
    modifies buf
    ensures var q := old(buf[..j]); r == if addSlash && j > 0 && q[j - 1] != SLASH then q + [SLASH] else q
  {
    var j' := j;
    if addSlash && j > 0 && buf[j - 1] != SLASH {
      if j >= MAXPATHLEN - 1 {
        assert false; // resolved paths are shorter
      }
      buf[j] := SLASH;
      j' := j + 1;
    }
    r := buf[..j'];
  }

  class CwdGlobals {
    var cwd: string
    const cache: Cache

    ghost predicate Ready(path: array<char>, len: int, links: int, fs: FileSystem)
      reads path, cache
    {
      && path.Length == MAXPATHLEN && 0 <= len < MAXPATHLEN && path[0] == SLASH && 0 <= links <= LINK_MAX
      && cache.Valid() && StoreSound(fs, cache.State()) && LinksFit(fs)
    }

    constructor (cwd: string, limit: int, ttl: int)
      ensures this.cwd == cwd && fresh(cache) && cache.Valid() && cache.State() == EmptyStore(limit, ttl)
    {
      this.cwd := cwd;
      cache := new Cache(limit, ttl);
    }

    /** tsrm_realpath_r on the absolute path in the first `len0` characters of the buffer,
        at time `t`; the answer is the length of the resolved path there, or -1. */
    method RealpathR(fs: FileSystem, path: array<char>, len0: nat, links: nat, t: int, mode: Mode, isDir0: bool)
      returns (j: int, links': nat, dir: Option<bool>)
      requires Ready(path, len0, links, fs)
      modifies path, cache
      ensures cache.Valid() && StoreSound(fs, cache.State())
      ensures Computes(Walk(fs, old(cache.State()), old(path[..len0]), links, mode, isDir0, t),
                       j, Result(path[..], j), links', dir, cache.State())
      decreases LINK_MAX - links, len0, 3
    {
      hide NameStart; hide Cache.Valid; hide StoreSound; hide LinksFit; hide Walk; hide WalkName;
      var len, isDir := len0, isDir0;
      links', dir := links, None;
      ghost var s0, st := path[..len0], cache.State();
      assert s0[..len0] == s0;
      SoundStore(fs, st);
      while len > 1
        invariant len <= len0 && path[..] == old(path[..]) && cache.State() == st
        invariant Ready(path, len, links, fs)
        invariant Walk(fs, st, s0[..len], links, mode, isDir, t) == Walk(fs, st, s0, links, mode, isDir0, t)
        decreases len
      {
        var i := LastSlash(path, len);
        ghost var s := s0[..len];
        assert s == path[..len] && s[i..] == path[i..len] && s[..i - 1] == s0[..i - 1];
        DotNames(s, i);
        WalkSteps(fs, st, s, links, mode, isDir, t);
        if i == len || (i == len - 1 && path[i] == '.') {
          len := i - 1;
          isDir := true;
          continue;
        } else if i == len - 2 && path[i] == '.' && path[i + 1] == '.' {
          if i - 1 <= 1 {
            RootUp(fs, st, s, links, mode, isDir, t);
            assert path[..1] == [SLASH];
            return 1, links, None;
          }
          assert path[..i - 1] == s[..i - 1];
          j, links', dir := Upwards(fs, path, len, i, links, t, mode);
          return;
        }
        LastName(s);
        j, links', dir := Last(fs, path, len, i, links, t, mode, isDir);
        return;
      }
      WalkSteps(fs, st, s0[..len], links, mode, isDir, t);
      j := 1;
      assert path[..1] == [SLASH];
    }

    /** One resolution after the other. */
    method ResolveAll(fs: FileSystem, calls: seq<Resolution>)
      requires cache.Valid() && StoreSound(fs, cache.State()) && LinksFit(fs) && AllInBuffer(calls)
      modifies cache
      ensures cache.Valid() && StoreSound(fs, cache.State())
      ensures |old(cache.State()).chains| == BUCKETS && cache.State() == RunCache(fs, old(cache.State()), calls)
    {
      hide Cache.Valid; hide StoreSound; hide LinksFit; hide Walk;
      SoundStore(fs, cache.State());
      var k := 0;
      assert calls[..0] == [];
      while k < |calls|
        invariant 0 <= k <= |calls| && cache.Valid() && StoreSound(fs, cache.State())
        invariant cache.State() == RunCache(fs, old(cache.State()), calls[..k])
      {
        assert calls[k] in calls;
        ResolveOne(fs, calls[k]);
        assert calls[..k + 1][..k] == calls[..k];
        k := k + 1;
      }
      assert calls[..k] == calls;
    }

    method ResolveOne(fs: FileSystem, c: Resolution)
      requires cache.Valid() && StoreSound(fs, cache.State()) && LinksFit(fs) && InBuffer(c.path)
      modifies cache
      ensures cache.Valid() && StoreSound(fs, cache.State()) && |old(cache.State()).chains| == BUCKETS
      ensures cache.State() == Walk(fs, old(cache.State()), c.path, 0, c.mode, c.isDir, c.t).1
    {
      hide Cache.Valid; hide StoreSound; hide LinksFit; hide Walk;
      SoundStore(fs, cache.State());
      var buf := new char[MAXPATHLEN];
      Put(buf, 0, [SLASH]);
      assert buf[0] == buf[..][0];
      Put(buf, 0, c.path);
      assert buf[..|c.path|] == c.path && (c.path != "" ==> buf[0] == buf[..|c.path|][0]);
      var _, _, _ := RealpathR(fs, buf, |c.path|, 0, c.t, c.mode, c.isDir);
    }

    /** The scan for the last slash. */
    method LastSlash(path: array<char>, len: nat) returns (i: nat)
      requires 1 < len <= path.Length
      ensures i == NameStart(path[..len])
    {
      i := len;
      while i > 1 && path[i - 1] != SLASH
        invariant 1 <= i <= len
        invariant forall k :: i <= k < len ==> path[k] != SLASH
      {
        i := i - 1;
      }
      NameStartIs(path[..len], i);
    }

    /** ".." and the directory before it. */
    method Upwards(fs: FileSystem, path: array<char>, len: nat, i: nat, links: nat, t: int, mode: Mode)
      returns (j: int, links': nat, dir: Option<bool>)
      requires Ready(path, len, links, fs) && 1 < len && i == NameStart(path[..len]) && i > 2
      modifies path, cache
      ensures cache.Valid() && StoreSound(fs, cache.State())
      ensures var (r, st) := Walk(fs, old(cache.State()), old(path[..i - 1]), links, mode, true, t);
        Computes((Up(r), st), j, Result(path[..], j), links', dir, cache.State())
      decreases LINK_MAX - links, len, 2
    {
      hide NameStart; hide Canonical; hide Cache.Valid; hide StoreSound; hide LinksFit; hide Walk; hide Parent;
      NestedOk(fs, cache.State(), path[..i - 1], links, mode, true, t);
      j, links', dir := RealpathR(fs, path, i - 1, links, t, mode, true);
      ghost var out := Result(path[..], j);
      dir := None;
      if j > 1 {
        assert out == path[..j];
        j := CutLastName(path, j);
        assert path[..j] == Parent(out);
      } else if j >= 0 {
        assert j == 1 && Parent(out) == out by {
          ParentOfRoot(out);
        }
      }
    }

    /** The way back to the slash before the last name. */
    method CutLastName(path: array<char>, j0: int) returns (j: int)
      requires 1 < j0 <= path.Length && Canonical(path[..j0])
      ensures 1 <= j < j0 && path[..j] == Parent(path[..j0])
    {
      CanonicalNonEmpty(path[..j0]);
      j := j0 - 1;
      while j > 1 && path[j] != SLASH
        invariant 1 <= j < j0
        invariant forall k :: j < k < j0 ==> path[k] != SLASH
      {
        j := j - 1;
      }
      ghost var q := path[..j0];
      assert q[|q| - 1] != SLASH by {
        assert q[NameStart(q)..][|q| - NameStart(q) - 1] == q[|q| - 1];
      }
      if path[j] == SLASH {
        NameStartIs(q, j + 1);
      } else {
        NameStartIs(q, 1);
      }
    }

    /** The last name, which is none of "", "." and "..". */
    method Last(fs: FileSystem, path: array<char>, len: nat, i: nat, links: nat, t: int, mode: Mode, isDir: bool)
      returns (j: int, links': nat, dir: Option<bool>)
      requires Ready(path, len, links, fs) && 1 < len && i == NameStart(path[..len]) && ProperName(path[i..len])
      modifies path, cache
      ensures cache.Valid() && StoreSound(fs, cache.State())
      ensures |old(cache.State()).chains| == BUCKETS && |old(path[..len])| > 1
      ensures Computes(WalkName(fs, old(cache.State()), old(path[..len]), links, mode, isDir, t),
                       j, Result(path[..], j), links', dir, cache.State())
      decreases LINK_MAX - links, len, 2
    {
      hide NameStart; hide Cache.Valid; hide StoreSound; hide LinksFit; hide ProperName;
      hide WalkFresh; hide Visible; hide Looked; hide EntrySound;
      ghost var s, st := path[..len], cache.State();
      SoundStore(fs, st);
      links', dir := links, None;
      path[len] := NUL;
      assert path[..len] == s && s[i..] == old(path[i..len]);
      if mode != Expand && cache.limit != 0 {
        var hit := Cached(fs, path[..len], t);
        if hit.Some? {
          if isDir && !hit.value.dir {
            return -1, links, None;
          }
          var resolved := hit.value.realpath;
          assert |resolved| < MAXPATHLEN - 1 by {
            HitAnswers(fs, hit.value, links, mode);
          }
          Put(path, 0, resolved + [NUL]);
          assert path[..|resolved|] == resolved;
          return |resolved|, links, Some(hit.value.dir);
        }
      }
      j, links', dir := Fresh(fs, path, len, i, links, t, mode, isDir);
    }

    /** A name that the cache does not know. */
    method Fresh(fs: FileSystem, path: array<char>, len: nat, i: nat, links: nat, t: int, mode: Mode, isDir: bool)
      returns (j: int, links': nat, dir: Option<bool>)
      requires Ready(path, len, links, fs) && 1 < len && i == NameStart(path[..len]) && ProperName(path[..len][i..])
      modifies path, cache
      ensures cache.Valid() && StoreSound(fs, cache.State())
      ensures |old(cache.State()).chains| == BUCKETS && |old(path[..len])| > 1
      ensures Computes(WalkFresh(fs, old(cache.State()), old(path[..len]), links, mode, isDir, t),
                       j, Result(path[..], j), links', dir, cache.State())
      decreases LINK_MAX - links, len, 1
    {
      hide NameStart; hide Cache.Valid; hide StoreSound; hide LinksFit; hide ProperName; hide WalkKind; hide Added;
      ghost var s, st := path[..len], cache.State();
      SoundStore(fs, st);
      FreshAnswers(fs, st, s, links, mode, isDir, t);
      FreshIs(fs, st, s, links, mode, isDir, t);
      links', dir := links, None;
      var save := mode != Expand;
      var kind := Missing;
      if save {
        kind := fs.lstat(path[..len]);
        if kind == Missing {
          if mode == RealPath {
            return -1, links, None;
          }
          save := false;
        }
      }
      var tmp := path[..len];
      var directory := kind == Directory;
      if save && kind == Link {
        j, links', dir := FollowLink(fs, path, tmp, i, links, t, mode, isDir);
        directory := dir.Some? && dir.value;
      } else {
        if save && isDir && !directory {
          return -1, links, None;
        }
        j, links' := PlainName(fs, path, tmp, i, links, t, mode, isDir);
        dir := if save && j >= 0 then Some(directory) else None;
      }
      if save && j >= 0 && cache.limit != 0 {
        cache.Add(tmp, path[..j], directory, t);
      }
    }

    method Cached(fs: FileSystem, s: string, t: int) returns (hit: Option<Entry>)
      requires cache.Valid() && StoreSound(fs, cache.State())
      modifies cache
      ensures cache.Valid() && StoreSound(fs, cache.State())
      ensures |old(cache.State()).chains| == BUCKETS
      ensures cache.State() == Looked(old(cache.State()), s, t) && hit == Visible(old(cache.State()), s, t)
      ensures hit.Some? ==> EntrySound(fs, hit.value)
    {
      hide EntrySound; hide Looked; hide Visible;
      SweepSound(fs, cache.State(), s, t);
      hit := cache.Find(s, t);
    }

    /** realpath_cache_del and realpath_cache_clean between resolutions. */
    method Forget(ghost fs: FileSystem, path: Option<string>)
      requires cache.Valid() && StoreSound(fs, cache.State())
      modifies cache
      ensures cache.Valid() && StoreSound(fs, cache.State())
      ensures cache.State() == if path.None? then Cleaned(old(cache.State())) else Deleted(old(cache.State()), path.value)
      ensures |old(cache.State()).chains| == BUCKETS
    {
      hide EntrySound;
      match path
      case Some(s) =>
        SweepSound(fs, cache.State(), s, 0);
        cache.Del(s);
      case None =>
        cache.Clean();
    }

    /** The last name is a link: its target, read into the buffer, is resolved. */
    method FollowLink(fs: FileSystem, path: array<char>, tmp: string, i: nat, links: nat, t: int, mode: Mode, isDir: bool)
      returns (j: int, links': nat, dir: Option<bool>)
      requires Ready(path, |tmp|, links, fs) && 1 < |tmp| && path[..|tmp|] == tmp && i == NameStart(tmp)
      modifies path, cache
      ensures cache.Valid() && StoreSound(fs, cache.State())
      ensures |old(cache.State()).chains| == BUCKETS
      ensures Computes(WalkKind(fs, old(cache.State()), tmp, links, mode, isDir, t, Link), j, Result(path[..], j), links', dir, cache.State())
      decreases LINK_MAX - links, |tmp|, 0
    {
      hide NameStart; hide Cache.Valid; hide StoreSound; hide Walk; hide Target; hide TooLong; hide LinksFit;
      ghost var st := cache.State();
      SoundStore(fs, st);
      links', dir := links, None;
      if links + 1 > LINK_MAX || fs.readlink(tmp).None? {
        return -1, links, None;
      }
      LinkFits(fs, tmp);
      j := ReadTarget(path, tmp, i, fs.readlink(tmp).value);
      if j < 0 {
        return -1, links, None;
      }
      j, links', dir := RealpathR(fs, path, j, links + 1, t, mode, isDir);
      if j < 0 {
        return -1, links, None;
      }
      dir := Some(dir.Some? && dir.value);
    }

    /** The last name is no link: it goes behind the resolved path before it. */
    method PlainName(fs: FileSystem, path: array<char>, tmp: string, i: nat, links: nat, t: int, mode: Mode, isDir: bool)
      returns (j: int, links': nat)
      requires Ready(path, |tmp|, links, fs) && 1 < |tmp| && path[..|tmp|] == tmp && i == NameStart(tmp)
      requires var k := KindOf(fs, tmp, mode); k != Link && (k == Missing ==> mode != RealPath) && (k == File ==> !isDir)
      modifies path, cache
      ensures cache.Valid() && StoreSound(fs, cache.State())
      ensures |old(cache.State()).chains| == BUCKETS
      ensures var k := KindOf(fs, tmp, mode);
        Computes(WalkKind(fs, old(cache.State()), tmp, links, mode, isDir, t, k), j, Result(path[..], j), links',
                 if j < 0 || k == Missing then None else Some(k == Directory), cache.State())
      decreases LINK_MAX - links, |tmp|, 0
    {
      hide NameStart; hide Canonical; hide Cache.Valid; hide StoreSound; hide Walk; hide LinksFit;
      var save := mode != Expand && fs.lstat(tmp) != Missing;
      ghost var before, st := tmp[..i - 1], cache.State();
      assert path[..i - 1] == before;
      var dir: Option<bool> := None;
      var mode' := if save then FilePath else mode;
      NestedOk(fs, st, before, links, mode', true, t);
      if i - 1 <= 1 {
        j, links' := 1, links;
        WalkSteps(fs, st, before, links, mode', true, t);
        assert path[..1] == [SLASH];
      } else {
        j, links', dir := RealpathR(fs, path, i - 1, links, t, mode', true);
      }
      if j < 0 || (if j > 1 then j + 1 else j) + |tmp| - i >= MAXPATHLEN - 1 {
        return -1, links';
      }
      j := PutName(path, j, tmp[i..]);
    }

    /** virtual_file_ex on a state that names a directory, or an absolute path; `reject` is
        the check of the caller, `now` the time. */
    method VirtualFileEx(fs: FileSystem, state: string, path: string, reject: string -> bool, mode: Mode, now: int)
      returns (ret: int, state': string)
      requires cache.Valid() && StoreSound(fs, cache.State()) && LinksFit(fs)
      requires (state != "" && state[0] == SLASH) || (path != "" && path[0] == SLASH)
      modifies cache
      ensures cache.Valid() && StoreSound(fs, cache.State())
      ensures ret == 0 || (ret == 1 && state' == state)
      ensures ret == 0 ==> path != "" && ResolvedTo(fs, Joined(state, path), mode, cache.limit == 0, state') && !reject(state')
      ensures ret == 0 && (mode == Expand || NoLinks(fs, Joined(state, path))) ==> Components(Bare(state')) == Stacked(state, path)
      ensures ret == 0 ==> Canonical(Bare(state'))
      ensures ret == 0 && |state'| > 1 ==> (state'[|state'| - 1] == SLASH <==> mode != RealPath && path[|path| - 1] == SLASH)
      ensures ret != 0 && (LinksLand(fs) || old(Truthful(fs, mode, now))) && InLimits(state, path) ==>
        || Blocked(fs, Joined(state, path), mode)
        || exists r :: ResolvedTo(fs, Joined(state, path), mode, cache.limit == 0, r) && reject(r)
    {
      hide Cache.Valid; hide StoreSound; hide LinksFit; hide ResolvedTo; hide Resolve; hide LinksLand; hide Truthful; hide Blocked;
      hide NoLinks; hide Canonical; hide Stacked; hide Components;
      if |path| == 0 || |path| >= MAXPATHLEN - 1 {
        return 1, state;
      }
      var joined := path;
      if path[0] != SLASH {
        if |path| + |state| + 1 >= MAXPATHLEN - 1 {
          return 1, state;
        }
        joined := state + [SLASH] + path;
      }
      assert joined == Joined(state, path) && joined[0] == SLASH;
      var j, r := ResolveJoined(fs, joined, mode, now);
      if j < 0 || reject(r) {
        return 1, state;
      }
      StackedIs(fs, state, path, mode, cache.limit == 0, r);
      return 0, r;
    }

    /** The time of a lookup; without expiry it does not matter. */
    function Time(now: int): int {
      if cache.ttl != 0 then now else -1
    }

    /** Nothing that is cached, if anything is looked up at all, refuses what resolves. */
    ghost predicate Truthful(fs: FileSystem, mode: Mode, now: int)
      reads cache
    {
      mode == Expand || cache.limit == 0 || (|cache.chains| == BUCKETS && FlagsSound(fs, cache.State(), Time(now)))
    }

    method ResolveJoined(fs: FileSystem, joined: string, mode: Mode, now: int) returns (j: int, r: string)
      requires cache.Valid() && StoreSound(fs, cache.State()) && LinksFit(fs) && 1 <= |joined| < MAXPATHLEN - 1 && joined[0] == SLASH
      modifies cache
      ensures cache.Valid() && StoreSound(fs, cache.State())
      ensures j >= 0 ==> ResolvedTo(fs, joined, mode, cache.limit == 0, r)
      ensures j < 0 && (LinksLand(fs) || old(Truthful(fs, mode, now))) ==> Blocked(fs, joined, mode)
    {
      hide Canonical; hide Cache.Valid; hide StoreSound; hide LinksFit; hide Resolve;
      hide ResolvedTo; hide Resolved; hide Slashed; hide LinksLand;
      hide Truthful;
      var buf := new char[MAXPATHLEN];
      j := ResolveIn(fs, buf, joined, mode, now);
      if j < 0 {
        return j, "";
      }
      ghost var q := buf[..j];
      var addSlash := mode != RealPath && joined[|joined| - 1] == SLASH;
      r := WithSlash(buf, j, addSlash);
      SlashAdded(q, r, addSlash, joined);
      ResolvedToIs(fs, joined, mode, cache.limit == 0, q, r);
    }

    method ResolveIn(fs: FileSystem, buf: array<char>, joined: string, mode: Mode, now: int) returns (j: int)
      requires cache.Valid() && StoreSound(fs, cache.State()) && LinksFit(fs) && 1 <= |joined| < MAXPATHLEN - 1 && joined[0] == SLASH
      requires buf.Length == MAXPATHLEN
      modifies buf, cache
      ensures cache.Valid() && StoreSound(fs, cache.State())
      ensures 0 <= j ==> j < MAXPATHLEN - 1 && Canonical(buf[..j]) && Resolved(fs, joined, mode, cache.limit == 0, buf[..j])
      ensures j < 0 && (LinksLand(fs) || old(Truthful(fs, mode, now))) ==> Blocked(fs, joined, mode)
    {
      hide Canonical; hide Cache.Valid; hide StoreSound; hide LinksFit; hide Resolve;
      hide Resolved; hide Walk; hide LinksLand; hide Truthful; hide Blocked;
      Put(buf, 0, joined);
      assert buf[..|joined|] == joined && buf[0] == joined[0];
      ghost var st := cache.State();
      WalkResolves(fs, st, joined, mode, Time(now));
      TruthfulFails(fs, joined, mode, now);
      var links, dir;
      j, links, dir := RealpathR(fs, buf, |joined|, 0, Time(now), mode, false);
      if j >= 0 {
        assert Result(buf[..], j) == buf[..j];
      }
    }

    lemma TruthfulFails(fs: FileSystem, s: string, mode: Mode, now: int)
      requires StoreSound(fs, cache.State()) && InBuffer(s) && |s| < MAXPATHLEN - 1 && LinksFit(fs)
      ensures |cache.State().chains| == BUCKETS
      ensures (LinksLand(fs) || Truthful(fs, mode, now)) && Walk(fs, cache.State(), s, 0, mode, false, Time(now)).0.Fail?
        ==> Blocked(fs, s, mode)
    {
      hide Walk; hide Resolve; hide LinksLand; hide AllSound; hide FlagsSound; hide Blocked;
      FailIsBlocked(fs, s, mode);
      var st := cache.State();
      if !Caches(st, mode) {
        WalkUncached(fs, st, s, 0, mode, false, Time(now));
      } else if LinksLand(fs) || Truthful(fs, mode, now) {
        if LinksLand(fs) {
          LandedFlags(fs, st, Time(now));
        }
        WalkFails(fs, st, s, 0, mode, false, Time(now));
      }
    }

    /** virtual_chdir: the working directory stays canonical, and as it was on failure. */
    method VirtualChdir(fs: FileSystem, path: string, reject: string -> bool, now: int) returns (ret: int)
      requires cache.Valid() && StoreSound(fs, cache.State()) && LinksFit(fs) && Canonical(cwd)
      modifies this`cwd, cache
      ensures cache.Valid() && StoreSound(fs, cache.State()) && Canonical(cwd)
      ensures ret == 0 || ret == -1
      ensures ret == -1 ==> cwd == old(cwd)
      ensures ret == 0 ==> path != "" && Leads(fs, Joined(old(cwd), path), cwd) && |cwd| < MAXPATHLEN - 1 && !reject(cwd)
      ensures ret == 0 && NoLinks(fs, Joined(old(cwd), path)) ==> Components(cwd) == Stacked(old(cwd), path)
      ensures ret == 0 && path == ".." && NoLinks(fs, old(cwd)) ==> cwd == Parent(old(cwd))
      ensures ret == -1 && (LinksLand(fs) || old(Truthful(fs, RealPath, now))) && InLimits(cwd, path) ==>
        || Blocked(fs, Joined(cwd, path), RealPath)
        || exists r :: ResolvedTo(fs, Joined(cwd, path), RealPath, cache.limit == 0, r) && reject(r)
    {
      hide Canonical; hide Cache.Valid; hide StoreSound; hide LinksFit; hide Leads; hide Resolve; hide LinksLand; hide Truthful; hide Blocked;
      hide NoLinks; hide Stacked; hide Components; hide ResolvedTo; hide Parent;
      CanonicalNonEmpty(cwd);
      var r, state := VirtualFileEx(fs, cwd, path, reject, RealPath, now);
      if r == 0 {
        NoSlashForReal(fs, Joined(cwd, path), cache.limit == 0, state);
        BareIs(state);
        if path == ".." {
          UpIsParent(fs, cwd, state);
        }
      }
      cwd := state;
      ret := if r != 0 then -1 else 0;
    }
  }

  /** A run of two calls on an empty cache: after the link "/l" to "." was resolved, what is
      below it is refused, although it resolves without the cache. */
  method CachedRefusal(fs: FileSystem, limit: int, ttl: int, t: int) returns (j: int, j': int)
    requires LinksFit(fs) && fs.lstat("/l") == Link && fs.readlink("/l") == Some(".") && fs.lstat("/l/x") == File
    requires limit >= 100 && ttl >= 0
    ensures j == 1 && j' < 0 && Resolve(fs, "/l/x", 0, FilePath, false) == Done("/x", 1, Some(false))
  {
    hide Cache.Valid; hide LinksFit; hide Resolve; hide Walk; hide StoreSound;
    var g := new CwdGlobals("/", limit, ttl);
    EmptySound(fs, limit, ttl);
    LinkFlagCanLie(fs, g.cache.State(), t);
    var buf := new char[MAXPATHLEN];
    Put(buf, 0, "/l");
    assert buf[..2] == "/l" && buf[0] == buf[..2][0];
    var links, dir;
    j, links, dir := g.RealpathR(fs, buf, 2, 0, t, FilePath, false);
    var buf' := new char[MAXPATHLEN];
    Put(buf', 0, "/l/x");
    assert buf'[..4] == "/l/x" && buf'[0] == buf'[..4][0];
    j', links, dir := g.RealpathR(fs, buf', 4, 0, t, FilePath, false);
  }

  lemma ParentOfRoot(q: string)
    requires |q| == 1
    ensures Parent(q) == q
  {
  }

  lemma TargetIs(s: string, target: string)
    requires |s| > 1
    ensures Target(s, target) == if target != "" && target[0] == SLASH then target else s[..NameStart(s) - 1] + [SLASH] + target
  {
  }

  lemma FreshIs(fs: FileSystem, st: Store, s: string, links: nat, mode: Mode, isDir: bool, t: int)
    requires links <= LINK_MAX && |s| > 1 && |st.chains| == BUCKETS
    ensures var k := KindOf(fs, s, mode); var (r, st') := WalkKind(fs, st, s, links, mode, isDir, t, k);
      && WalkFresh(fs, st, s, links, mode, isDir, t) == (r, Remembered(st', s, r, mode, k, t)) && st'.limit == st.limit
      && (k == Missing && mode == RealPath ==> r == Fail && st' == st)
      && (k == File && isDir ==> r == Fail && st' == st)
  {
  }

  /** The path that virtual_file_ex resolves. */
  function Joined(state: string, path: string): string
    requires path != ""
  {
    if path[0] == SLASH then path else state + [SLASH] + path
  }

  /** A path without its final slash. */
  function Bare(s: string): string {
    if |s| > 1 && s[|s| - 1] == SLASH then s[..|s| - 1] else s
  }

  /** The component stack of `path`, which begins with that of the state when it is relative. */
  function Stacked(state: string, path: string): seq<string>
    requires path != ""
  {
    Normalise(if path[0] == SLASH then Components(path) else Components(state) + Components([SLASH] + path))
  }

  lemma BareIs(s: string)
    requires Canonical(s)
    ensures Bare(s) == s && (|s| > 1 ==> s[|s| - 1] != SLASH) && Bare(s + [SLASH]) == s
  {
    hide Canonical; hide NameStart; hide Slashed;
    CanonicalNonEmpty(s);
    assert (s + [SLASH])[..|s|] == s;
    if |s| > 1 {
      var d, n := LastSplit(s);
      assert s[|s| - 1] == n[|n| - 1];
    }
  }

  /** Splitting, stacking and joining: the resolved path has the components of the state and
      the path on one stack, unless links lead elsewhere. */
  lemma StackedIs(fs: FileSystem, state: string, path: string, mode: Mode, uncached: bool, r: string)
    requires path != "" && ((state != "" && state[0] == SLASH) || path[0] == SLASH)
    requires ResolvedTo(fs, Joined(state, path), mode, uncached, r)
    ensures Canonical(Bare(r)) && (|r| > 1 ==> (r[|r| - 1] == SLASH <==> mode != RealPath && path[|path| - 1] == SLASH))
    ensures mode == Expand || NoLinks(fs, Joined(state, path)) ==> Components(Bare(r)) == Stacked(state, path)
  {
    hide Canonical; hide Leads; hide Reaches; hide NoLinks; hide Components; hide Normalise; hide Bare; hide Join;
    var s := Joined(state, path);
    var q :| Resolved(fs, s, mode, uncached, q) && r == Kept(s, mode, q);
    BareIs(q);
    assert s[|s| - 1] == path[|path| - 1];
    assert Bare(r) == q;
    if mode == Expand || NoLinks(fs, s) {
      if mode != Expand {
        PlainLeads(fs, s);
        LeadsOnce(fs, s, q, Normal(s));
      }
      NoSlashInside(s);
      NormaliseProper(Components(s));
      ComponentsOfJoin(Normalise(Components(s)));
      if path[0] != SLASH {
        ComponentsOfJoined(state, path);
      }
    }
  }

  lemma UpIsParent(fs: FileSystem, cwd: string, r: string)
    requires Canonical(cwd) && Canonical(r)
    requires NoLinks(fs, Joined(cwd, "..")) ==> Components(r) == Stacked(cwd, "..")
    ensures NoLinks(fs, cwd) ==> r == Parent(cwd)
  {
    hide Canonical; hide Parent; hide ProperName;
    CanonicalNonEmpty(cwd);
    var s, cs := Joined(cwd, ".."), Components(cwd);
    assert s == cwd + [SLASH] + "..";
    if NoLinks(fs, cwd) {
      UpNoLinks(fs, cwd);
      JoinOfComponents(cwd);
      NormaliseIdle(cs);
      UpStack(cs);
      JoinOfComponents(r);
      ParentOfJoin(cs);
    }
  }

  lemma UpNoLinks(fs: FileSystem, cwd: string)
    requires cwd != "" && cwd[0] == SLASH && NoLinks(fs, cwd)
    ensures NoLinks(fs, cwd + [SLASH] + "..")
  {
    var s := cwd + [SLASH] + "..";
    NameStartIs(s, |cwd| + 1);
    assert s[NameStart(s)..] == ".." && s[..NameStart(s) - 1] == cwd;
    NamedBefore(s);
    hide NamedAt;
  }

  lemma UpStack(cs: seq<string>)
    requires Normalise(cs) == cs
    ensures Components([SLASH] + "..") == [".."]
    ensures Normalise(cs + [".."]) == if cs == [] then [] else cs[..|cs| - 1]
  {
    NameStartIs("/..", 1);
    assert [SLASH] + ".." == "/.." && "/.."[1..] == ".." && "/.."[..0] == "";
    assert (cs + [".."])[..|cs|] == cs;
  }

  /** The path is there, and neither it nor the joined path is too long. */
  predicate InLimits(state: string, path: string) {
    0 < |path| < MAXPATHLEN - 1 && |Joined(state, path)| < MAXPATHLEN - 1
  }

  /** `r` is the resolution of `s`, with the final slash of `s` when the mode keeps it. */
  ghost predicate ResolvedTo(fs: FileSystem, s: string, mode: Mode, uncached: bool, r: string) {
    exists q :: Resolved(fs, s, mode, uncached, q) && r == Kept(s, mode, q)
  }

  ghost predicate Resolved(fs: FileSystem, s: string, mode: Mode, uncached: bool, q: string) {
    && Canonical(q) && |q| < MAXPATHLEN - 1
    && (mode == Expand ==> q == Normal(s))
    && (mode != Expand ==> Leads(fs, s, q))
    && (mode != Expand && uncached ==> Reaches(fs, s, 0, mode, false, q))
  }

  function Kept(s: string, mode: Mode, q: string): string {
    if mode != RealPath && s != "" && s[|s| - 1] == SLASH then Slashed(q) else q
  }

  lemma WalkResolves(fs: FileSystem, st: Store, s: string, mode: Mode, t: int)
    requires StoreSound(fs, st) && |s| < MAXPATHLEN - 1 && InBuffer(s) && LinksFit(fs)
    ensures |st.chains| == BUCKETS
    ensures var r := Walk(fs, st, s, 0, mode, false, t).0;
      r.Done? ==> Resolved(fs, s, mode, st.limit == 0, r.path) && |r.path| < MAXPATHLEN - 1 && Canonical(r.path)
  {
    hide Leads; hide Canonical; hide Resolve; hide Walk; hide Flagged; hide AllSound; hide Reaches;
    WalkAnswers(fs, st, s, 0, mode, false, t);
    if !Caches(st, mode) {
      WalkUncached(fs, st, s, 0, mode, false, t);
    }
    if mode == Expand {
      ExpandNormalises(fs, s, 0, false);
    } else if st.limit == 0 && Resolve(fs, s, 0, mode, false).Done? {
      ResolvesExactly(fs, s, 0, mode, false, Resolve(fs, s, 0, mode, false).path);
    }
  }

  lemma ResolvedToIs(fs: FileSystem, s: string, mode: Mode, uncached: bool, q: string, r: string)
    requires Resolved(fs, s, mode, uncached, q) && r == Kept(s, mode, q)
    ensures ResolvedTo(fs, s, mode, uncached, r)
  {
    hide Resolved; hide Kept;
  }

  lemma NoSlashForReal(fs: FileSystem, s: string, uncached: bool, r: string)
    requires ResolvedTo(fs, s, RealPath, uncached, r)
    ensures Canonical(r) && Leads(fs, s, r) && |r| < MAXPATHLEN - 1
  {
    hide Leads; hide Canonical; hide Resolve;
  }

  lemma SlashAdded(q: string, r: string, addSlash: bool, s: string)
    requires Canonical(q) && s != ""
    requires r == if addSlash && |q| > 0 && q[|q| - 1] != SLASH then q + [SLASH] else q
    ensures r == if addSlash then Slashed(q) else q
  {
    CanonicalNonEmpty(q);
    if |q| > 1 {
      assert q[NameStart(q)..][|q| - NameStart(q) - 1] == q[|q| - 1];
    }
  }
}
