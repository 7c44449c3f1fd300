/** What path resolution computes with the cache: tsrm_realpath_r on absolute paths, as a
    function of the file system, the cache and the time; and how it relates to resolution
    without a cache. */
module CachedResolver {
  import opened Options
  import opened Paths
  import opened Resolver
  import opened Routes
  import opened RealpathCache

  /** The cache is asked for absolute paths unless they are only expanded. */
  predicate Caches(st: Store, mode: Mode) {
    mode != Expand && st.limit != 0
  }

  function Walk(fs: FileSystem, st: Store, s: string, links: nat, mode: Mode, isDir: bool, t: int): (r: (Outcome, Store))
    requires links <= LINK_MAX && |st.chains| == BUCKETS
    ensures |r.1.chains| == BUCKETS && r.1.limit == st.limit && r.1.ttl == st.ttl
    decreases LINK_MAX - links, |s|, 3
  {
    if |s| <= 1 then (Done([SLASH], links, None), st)
    else
      var name, before := s[NameStart(s)..], s[..NameStart(s) - 1];
      if name == "" || name == "." then Walk(fs, st, before, links, mode, true, t)
      else if name == ".." then
        var (r, st') := Walk(fs, st, before, links, mode, true, t);
        (Up(r), st')
      else WalkName(fs, st, s, links, mode, isDir, t)
  }

  /** A name: found in the cache, or resolved. */
  function WalkName(fs: FileSystem, st: Store, s: string, links: nat, mode: Mode, isDir: bool, t: int): (r: (Outcome, Store))
    requires links <= LINK_MAX && |s| > 1 && |st.chains| == BUCKETS
    ensures |r.1.chains| == BUCKETS && r.1.limit == st.limit && r.1.ttl == st.ttl
    decreases LINK_MAX - links, |s|, 2
  {
    if Caches(st, mode) then
      var hit := Visible(st, s, t);
      if hit.Some? then
        (if isDir && !hit.value.dir then Fail else Done(hit.value.realpath, links, Some(hit.value.dir)), Looked(st, s, t))
      else WalkFresh(fs, Looked(st, s, t), s, links, mode, isDir, t)
    else WalkFresh(fs, st, s, links, mode, isDir, t)
  }

  /** A name that is not in the cache; what is resolved and exists is saved. */
  function WalkFresh(fs: FileSystem, st: Store, s: string, links: nat, mode: Mode, isDir: bool, t: int): (r: (Outcome, Store))
    requires links <= LINK_MAX && |s| > 1 && |st.chains| == BUCKETS
    ensures |r.1.chains| == BUCKETS && r.1.limit == st.limit && r.1.ttl == st.ttl
    decreases LINK_MAX - links, |s|, 1
  {
    var k := KindOf(fs, s, mode);
    var (r, st') := WalkKind(fs, st, s, links, mode, isDir, t, k);
    (r, Remembered(st', s, r, mode, k, t))
  }

  function Remembered(st: Store, s: string, r: Outcome, mode: Mode, k: Kind, t: int): (st': Store)
    requires |st.chains| == BUCKETS
    ensures |st'.chains| == BUCKETS && st'.limit == st.limit && st'.ttl == st.ttl
  {
    if r.Done? && k != Missing && Caches(st, mode) then Added(st, s, r.path, r.dir.Some? && r.dir.value, t) else st
  }

  function WalkKind(fs: FileSystem, st: Store, s: string, links: nat, mode: Mode, isDir: bool, t: int, k: Kind): (r: (Outcome, Store))
    requires links <= LINK_MAX && |s| > 1 && |st.chains| == BUCKETS
    ensures |r.1.chains| == BUCKETS && r.1.limit == st.limit && r.1.ttl == st.ttl
    decreases LINK_MAX - links, |s|, 0
  {
    if k == Missing && mode == RealPath then (Fail, st)
    else if k == Link then
      if links >= LINK_MAX || fs.readlink(s).None? || TooLong(s, fs.readlink(s).value) then (Fail, st)
      else
        var (r, st') := Walk(fs, st, Target(s, fs.readlink(s).value), links + 1, mode, isDir, t);
        (ThroughLink(r), st')
    else if k == File && isDir then (Fail, st)
    else
      var (r, st') := Walk(fs, st, s[..NameStart(s) - 1], links, if k == Missing then mode else FilePath, true, t);
      (Behind(r, s[NameStart(s)..], if k == Missing then None else Some(k == Directory)), st')
  }

  // ---- without a cache ----

  /** Where nothing is cached, resolution is Resolve. */
  lemma {:induction false} WalkUncached(fs: FileSystem, st: Store, s: string, links: nat, mode: Mode, isDir: bool, t: int)
    requires links <= LINK_MAX && |st.chains| == BUCKETS && !Caches(st, mode)
    ensures Walk(fs, st, s, links, mode, isDir, t) == (Resolve(fs, s, links, mode, isDir), st)
    decreases LINK_MAX - links, |s|
  {
    hide NameStart; hide Target; hide Behind; hide ProperName;
    if |s| > 1 {
      var name, before := s[NameStart(s)..], s[..NameStart(s) - 1];
      LastIs(s);
      hide Resolve;
      if name == "" || name == "." || name == ".." {
        WalkUncached(fs, st, before, links, mode, true, t);
        ResolveDotsCases(fs, s, links, mode, isDir);
      } else {
        var k := KindOf(fs, s, mode);
        ResolveNameCases(fs, s, links, mode, isDir);
        assert Walk(fs, st, s, links, mode, isDir, t) == WalkFresh(fs, st, s, links, mode, isDir, t)
          == WalkKind(fs, st, s, links, mode, isDir, t, k) by {
          hide WalkKind;
        }
        if k == Link {
          if links < LINK_MAX && fs.readlink(s).Some? {
            TooLongIs(s, fs.readlink(s).value);
            WalkUncached(fs, st, Target(s, fs.readlink(s).value), links + 1, mode, isDir, t);
          }
        } else {
          WalkUncached(fs, st, before, links, if k == Missing then mode else FilePath, true, t);
        }
      }
    }
  }

  // ---- successes ----

  /** A success is canonical, fits, is what every uncached success comes to, and the flag
      tells where the links end. */
  ghost predicate Answers(fs: FileSystem, s: string, links: nat, mode: Mode, r: Outcome) {
    Sound(r, links) && (r.Done? && mode != Expand ==> Leads(fs, s, r.path) && Flagged(fs, s, r.dir.Some? && r.dir.value))
  }

  /** With a sound cache every success is one of an uncached resolution, and the cache stays
      sound. */
  lemma {:induction false} WalkAnswers(fs: FileSystem, st: Store, s: string, links: nat, mode: Mode, isDir: bool, t: int)
    requires links <= LINK_MAX && StoreSound(fs, st) && InBuffer(s) && LinksFit(fs)
    ensures var (r, st') := Walk(fs, st, s, links, mode, isDir, t); Answers(fs, s, links, mode, r) && StoreSound(fs, st')
    decreases LINK_MAX - links, |s|, 3
  {
    hide NameStart; hide WalkName; hide Answers; hide StoreSound; hide ProperName;
    SoundStore(fs, st);
    if |s| <= 1 {
      RootAnswers(fs, s, links, mode);
    } else {
      var name, before := s[NameStart(s)..], s[..NameStart(s) - 1];
      LastIs(s);
      if ProperName(name) {
        NameWalkAnswers(fs, st, s, links, mode, isDir, t);
      } else {
        WalkAnswers(fs, st, before, links, mode, true, t);
        DotsAnswer(fs, s, links, mode, Walk(fs, st, before, links, mode, true, t).0);
      }
    }
  }

  lemma SoundStore(fs: FileSystem, st: Store)
    requires StoreSound(fs, st)
    ensures |st.chains| == BUCKETS
  {
  }

  lemma RootAnswers(fs: FileSystem, s: string, links: nat, mode: Mode)
    requires links <= LINK_MAX && |s| <= 1
    ensures Answers(fs, s, links, mode, Done([SLASH], links, None))
  {
    hide Leads; hide EndOf;
    RootLeads(fs, s);
    EndOfCases(fs, s);
  }

  lemma DotsAnswer(fs: FileSystem, s: string, links: nat, mode: Mode, r: Outcome)
    requires links <= LINK_MAX && |s| > 1 && Answers(fs, s[..NameStart(s) - 1], links, mode, r)
    ensures s[NameStart(s)..] == "" || s[NameStart(s)..] == "." ==> Answers(fs, s, links, mode, r)
    ensures s[NameStart(s)..] == ".." ==> Answers(fs, s, links, mode, Up(r))
  {
    hide Leads; hide EndOf; hide NameStart; hide Canonical;
    EndOfCases(fs, s);
    var name := s[NameStart(s)..];
    if r.Done? && (name == "" || name == "." || name == "..") {
      StepsSound(r, links, name, None);
      CanonicalNonEmpty(r.path);
      if mode != Expand {
        NameLeads(fs, s, r.path);
        if name != ".." {
          EndOfDots(fs, s);
        }
      }
    }
  }

  lemma CanonicalNonEmpty(q: string)
    requires Canonical(q)
    ensures |q| >= 1 && q[0] == SLASH && (|q| > 1 ==> ProperName(q[NameStart(q)..]))
  {
  }

  lemma {:induction false} NameWalkAnswers(fs: FileSystem, st: Store, s: string, links: nat, mode: Mode, isDir: bool, t: int)
    requires links <= LINK_MAX && |s| > 1 && ProperName(s[NameStart(s)..]) && StoreSound(fs, st) && InBuffer(s) && LinksFit(fs)
    ensures var (r, st') := WalkName(fs, st, s, links, mode, isDir, t); Answers(fs, s, links, mode, r) && StoreSound(fs, st')
    decreases LINK_MAX - links, |s|, 2
  {
    hide NameStart; hide ProperName; hide WalkFresh; hide StoreSound; hide Visible; hide Looked; hide Answers;
    SoundStore(fs, st);
    if Caches(st, mode) {
      SweepSound(fs, st, s, t);
      var hit := Visible(st, s, t);
      if hit.Some? {
        HitAnswers(fs, hit.value, links, mode);
        FailAnswers(fs, s, links, mode);
      } else {
        FreshAnswers(fs, Looked(st, s, t), s, links, mode, isDir, t);
      }
    } else {
      FreshAnswers(fs, st, s, links, mode, isDir, t);
    }
  }

  lemma HitAnswers(fs: FileSystem, e: Entry, links: nat, mode: Mode)
    requires links <= LINK_MAX && EntrySound(fs, e)
    ensures Answers(fs, e.path, links, mode, Done(e.realpath, links, Some(e.dir)))
  {
    hide Leads; hide EndOf; hide Canonical;
  }

  lemma FailAnswers(fs: FileSystem, s: string, links: nat, mode: Mode)
    ensures Answers(fs, s, links, mode, Fail)
  {
  }

  lemma {:induction false} FreshAnswers(fs: FileSystem, st: Store, s: string, links: nat, mode: Mode, isDir: bool, t: int)
    requires links <= LINK_MAX && |s| > 1 && ProperName(s[NameStart(s)..]) && StoreSound(fs, st) && InBuffer(s) && LinksFit(fs)
    ensures var (r, st') := WalkFresh(fs, st, s, links, mode, isDir, t); Answers(fs, s, links, mode, r) && StoreSound(fs, st')
    decreases LINK_MAX - links, |s|, 1
  {
    hide NameStart; hide ProperName; hide WalkKind; hide StoreSound; hide Answers; hide Remembered;
    SoundStore(fs, st);
    var k := KindOf(fs, s, mode);
    KindAnswers(fs, st, s, links, mode, isDir, t, k);
    var (r, st') := WalkKind(fs, st, s, links, mode, isDir, t, k);
    RememberedSound(fs, st', s, links, r, mode, k, t);
  }

  lemma RememberedSound(fs: FileSystem, st: Store, s: string, links: nat, r: Outcome, mode: Mode, k: Kind, t: int)
    requires StoreSound(fs, st) && InBuffer(s) && |s| > 1 && ProperName(s[NameStart(s)..])
    requires k == KindOf(fs, s, mode) && Answers(fs, s, links, mode, r)
    ensures StoreSound(fs, Remembered(st, s, r, mode, k, t))
  {
    hide Leads; hide EndOf; hide Canonical; hide AllSound; hide NameStart; hide ProperName; hide Key;
    if r.Done? && k != Missing && Caches(st, mode) {
      AddSound(fs, st, s, r.path, r.dir.Some? && r.dir.value, t);
    }
  }

  lemma {:induction false} KindAnswers(fs: FileSystem, st: Store, s: string, links: nat, mode: Mode, isDir: bool, t: int, k: Kind)
    requires links <= LINK_MAX && |s| > 1 && ProperName(s[NameStart(s)..]) && StoreSound(fs, st) && InBuffer(s) && LinksFit(fs)
    requires k == KindOf(fs, s, mode)
    ensures var (r, st') := WalkKind(fs, st, s, links, mode, isDir, t, k); Answers(fs, s, links, mode, r) && StoreSound(fs, st')
    decreases LINK_MAX - links, |s|, 0
  {
    hide NameStart; hide ProperName; hide Walk; hide StoreSound; hide Answers;
    hide Target; hide TooLong; hide Behind; hide ThroughLink;
    SoundStore(fs, st);
    FailAnswers(fs, s, links, mode);
    if k == Link {
      if links < LINK_MAX && fs.readlink(s).Some? && !TooLong(s, fs.readlink(s).value) {
        var target := Target(s, fs.readlink(s).value);
        StaysInBuffer(fs, s);
        WalkAnswers(fs, st, target, links + 1, mode, isDir, t);
        LinkAnswers(fs, s, links, mode, Walk(fs, st, target, links + 1, mode, isDir, t).0);
      }
    } else if !(k == Missing && mode == RealPath) && !(k == File && isDir) {
      var m := if k == Missing then mode else FilePath;
      WalkAnswers(fs, st, s[..NameStart(s) - 1], links, m, true, t);
      NameAnswers(fs, s, links, mode, Walk(fs, st, s[..NameStart(s) - 1], links, m, true, t).0);
    }
  }

  /** A link answers as its target, one link later. */
  lemma LinkAnswers(fs: FileSystem, s: string, links: nat, mode: Mode, r: Outcome)
    requires links < LINK_MAX && |s| > 1 && ProperName(s[NameStart(s)..]) && mode != Expand
    requires fs.lstat(s) == Link && fs.readlink(s).Some? && !TooLong(s, fs.readlink(s).value)
    requires Answers(fs, Target(s, fs.readlink(s).value), links + 1, mode, r)
    ensures Answers(fs, s, links, mode, ThroughLink(r))
  {
    hide Leads; hide EndOf; hide NameStart; hide Canonical; hide Target; hide TooLong; hide ProperName;
    if r.Done? {
      LinkLeads(fs, s, r.path);
      EndOfLink(fs, s);
    }
  }

  /** A name answers with itself behind the answer of what is before it. */
  lemma NameAnswers(fs: FileSystem, s: string, links: nat, mode: Mode, r: Outcome)
    requires links <= LINK_MAX && |s| > 1 && ProperName(s[NameStart(s)..]) && KindOf(fs, s, mode) != Link
    requires Answers(fs, s[..NameStart(s) - 1], links, if KindOf(fs, s, mode) == Missing then mode else FilePath, r)
    ensures var k := KindOf(fs, s, mode);
      Answers(fs, s, links, mode, Behind(r, s[NameStart(s)..], if k == Missing then None else Some(k == Directory)))
  {
    hide Leads; hide EndOf; hide NameStart; hide Canonical; hide ProperName;
    var k := KindOf(fs, s, mode);
    if r.Done? {
      StepsSound(r, links, s[NameStart(s)..], if k == Missing then None else Some(k == Directory));
      if mode != Expand {
        NameLeads(fs, s, r.path);
        EndOfCases(fs, s);
      }
    }
  }

  // ---- failures ----

  /** With a cache whose flags are the truth a resolution fails only where the uncached one
      does. */
  lemma {:induction false} WalkFails(fs: FileSystem, st: Store, s: string, links: nat, mode: Mode, isDir: bool, t: int)
    requires links <= LINK_MAX && StoreSound(fs, st) && FlagsSound(fs, st, t) && InBuffer(s) && LinksFit(fs)
    ensures Walk(fs, st, s, links, mode, isDir, t).0.Fail? ==> Resolve(fs, s, links, mode, isDir).Fail?
    decreases LINK_MAX - links, |s|, 3
  {
    hide NameStart; hide WalkName; hide StoreSound; hide FlagsSound; hide ProperName; hide Resolve;
    SoundStore(fs, st);
    if |s| > 1 {
      var name, before := s[NameStart(s)..], s[..NameStart(s) - 1];
      LastIs(s);
      if ProperName(name) {
        NameFails(fs, st, s, links, mode, isDir, t);
      } else {
        ResolveDotsCases(fs, s, links, mode, isDir);
        WalkFails(fs, st, before, links, mode, true, t);
        WalkAnswers(fs, st, before, links, mode, true, t);
      }
    }
  }

  lemma {:induction false} NameFails(fs: FileSystem, st: Store, s: string, links: nat, mode: Mode, isDir: bool, t: int)
    requires links <= LINK_MAX && |s| > 1 && ProperName(s[NameStart(s)..]) && StoreSound(fs, st) && InBuffer(s) && LinksFit(fs)
    requires FlagsSound(fs, st, t)
    ensures WalkName(fs, st, s, links, mode, isDir, t).0.Fail? ==> Resolve(fs, s, links, mode, isDir).Fail?
    decreases LINK_MAX - links, |s|, 2
  {
    hide NameStart; hide ProperName; hide WalkFresh; hide StoreSound; hide Visible; hide Looked; hide Resolve; hide FlagsSound;
    SoundStore(fs, st);
    if Caches(st, mode) {
      SweepSound(fs, st, s, t);
      LookedFlags(fs, st, s, t);
      var hit := Visible(st, s, t);
      if hit.None? {
        FreshFails(fs, Looked(st, s, t), s, links, mode, isDir, t);
      }
    } else {
      FreshFails(fs, st, s, links, mode, isDir, t);
    }
  }

  lemma LookedFlags(fs: FileSystem, st: Store, s: string, t: int)
    requires |st.chains| == BUCKETS && FlagsSound(fs, st, t)
    ensures FlagsSound(fs, Looked(st, s, t), t)
    ensures Visible(st, s, t).Some? ==> FlagSound(fs, Visible(st, s, t).value)
  {
    hide FlagSound; hide Visible; hide Swept; hide SweptOut; hide Charged; hide ChainOf;
    forall path
      ensures Visible(Looked(st, s, t), path, t) == Visible(st, path, t)
    {
      LookedSees(st, s, path, t);
    }
  }

  lemma {:induction false} FreshFails(fs: FileSystem, st: Store, s: string, links: nat, mode: Mode, isDir: bool, t: int)
    requires links <= LINK_MAX && |s| > 1 && ProperName(s[NameStart(s)..]) && StoreSound(fs, st) && InBuffer(s) && LinksFit(fs)
    requires FlagsSound(fs, st, t)
    ensures WalkFresh(fs, st, s, links, mode, isDir, t).0.Fail? ==> Resolve(fs, s, links, mode, isDir).Fail?
    decreases LINK_MAX - links, |s|, 1
  {
    hide NameStart; hide ProperName; hide Walk; hide StoreSound; hide Target;
    hide TooLong; hide Resolve; hide FlagsSound; hide Leads;
    SoundStore(fs, st);
    ResolveNameCases(fs, s, links, mode, isDir);
    var k, before := KindOf(fs, s, mode), s[..NameStart(s) - 1];
    assert WalkFresh(fs, st, s, links, mode, isDir, t).0 == WalkKind(fs, st, s, links, mode, isDir, t, k).0;
    if k == Link {
      if links < LINK_MAX && fs.readlink(s).Some? {
        TooLongIs(s, fs.readlink(s).value);
        if !TooLong(s, fs.readlink(s).value) {
          StaysInBuffer(fs, s);
          WalkFails(fs, st, Target(s, fs.readlink(s).value), links + 1, mode, isDir, t);
        }
      }
    } else if !(k == Missing && mode == RealPath) && !(k == File && isDir) {
      var m := if k == Missing then mode else FilePath;
      WalkFails(fs, st, before, links, m, true, t);
      WalkAnswers(fs, st, before, links, m, true, t);
      SamePath(fs, st, before, links, m, t);
    }
  }

  /** Where both succeed, the cached and the uncached resolution give one path. */
  lemma SamePath(fs: FileSystem, st: Store, s: string, links: nat, mode: Mode, t: int)
    requires links <= LINK_MAX && StoreSound(fs, st) && InBuffer(s) && LinksFit(fs)
    ensures var r, r' := Walk(fs, st, s, links, mode, true, t).0, Resolve(fs, s, links, mode, true);
      r.Done? && r'.Done? ==> r.path == r'.path
  {
    hide Walk; hide Resolve;
    if mode == Expand {
      WalkUncached(fs, st, s, links, mode, true, t);
    } else {
      WalkAnswers(fs, st, s, links, mode, true, t);
      if Walk(fs, st, s, links, mode, true, t).0.Done? {
        LeadsAgrees(fs, s, Walk(fs, st, s, links, mode, true, t).0.path);
        AgreesAt(fs, s, Walk(fs, st, s, links, mode, true, t).0.path, links, mode, true);
      }
    }
  }

  /** At time `t` the cache never makes a resolution fail that succeeds without it. */
  ghost predicate NeverRefuses(fs: FileSystem, st: Store, t: int)
    requires |st.chains| == BUCKETS
  {
    forall s, links: nat, mode, isDir :: InBuffer(s) && links <= LINK_MAX && Walk(fs, st, s, links, mode, isDir, t).0.Fail?
      ==> Resolve(fs, s, links, mode, isDir).Fail?
  }

  /** That is so exactly when no visible entry has links that end at the root, at ".." or at
      a missing name while its path resolves. */
  lemma NeverRefusesExactly(fs: FileSystem, st: Store, t: int)
    requires StoreSound(fs, st) && st.limit != 0 && LinksFit(fs)
    ensures NeverRefuses(fs, st, t) <==>
      forall path :: Visible(st, path, t).Some? ==>
        !((EndOf(fs, path) == AtDots || EndOf(fs, path) == AtMissing) && Resolves(fs, path))
  {
    hide Walk; hide Resolve; hide EndOf; hide Visible; hide FlagSound; hide EntrySound; hide Resolves; hide AllSound;
    forall path | Visible(st, path, t).Some?
      ensures !FlagSound(fs, Visible(st, path, t).value)
        <==> (EndOf(fs, path) == AtDots || EndOf(fs, path) == AtMissing) && Resolves(fs, path)
    {
      SweepSound(fs, st, path, t);
      FlagLiesExactly(fs, Visible(st, path, t).value);
    }
    if FlagsSound(fs, st, t) {
      forall s, links: nat, mode, isDir | InBuffer(s) && links <= LINK_MAX && Walk(fs, st, s, links, mode, isDir, t).0.Fail?
        ensures Resolve(fs, s, links, mode, isDir).Fail?
      {
        WalkFails(fs, st, s, links, mode, isDir, t);
      }
    } else {
      var path :| Visible(st, path, t).Some? && !FlagSound(fs, Visible(st, path, t).value);
      LieRefuses(fs, st, path, t);
    }
  }

  /** A flag that lies makes the resolution of its path as a directory fail. */
  lemma LieRefuses(fs: FileSystem, st: Store, path: string, t: int)
    requires StoreSound(fs, st) && st.limit != 0 && Visible(st, path, t).Some? && !FlagSound(fs, Visible(st, path, t).value)
    ensures InBuffer(path) && exists links: nat, mode ::
      links <= LINK_MAX && Walk(fs, st, path, links, mode, true, t).0.Fail? && Resolve(fs, path, links, mode, true).Done?
  {
    hide Resolve; hide EndOf; hide Visible; hide Leads; hide Canonical; hide AllSound;
    SweepSound(fs, st, path, t);
    var links: nat, mode :| links <= LINK_MAX && mode != Expand && Resolve(fs, path, links, mode, true).Done?;
    LastIs(path);
    assert Walk(fs, st, path, links, mode, true, t).0.Fail?;
  }

  lemma LandedNeverRefuses(fs: FileSystem, st: Store, t: int)
    requires StoreSound(fs, st) && LinksLand(fs) && LinksFit(fs)
    ensures NeverRefuses(fs, st, t)
  {
    hide Walk; hide Resolve; hide LinksLand; hide AllSound; hide FlagsSound;
    LandedFlags(fs, st, t);
    forall s, links: nat, mode, isDir | InBuffer(s) && links <= LINK_MAX && Walk(fs, st, s, links, mode, isDir, t).0.Fail?
      ensures Resolve(fs, s, links, mode, isDir).Fail?
    {
      WalkFails(fs, st, s, links, mode, isDir, t);
    }
  }

  // ---- runs ----

  /** One resolution of a run. */
  datatype Resolution = Resolution(path: string, mode: Mode, isDir: bool, t: int)

  ghost predicate AllInBuffer(calls: seq<Resolution>) {
    forall c :: c in calls ==> InBuffer(c.path)
  }

  /** The cache after one resolution after the other. */
  function RunCache(fs: FileSystem, st: Store, calls: seq<Resolution>): (st': Store)
    requires |st.chains| == BUCKETS
    ensures |st'.chains| == BUCKETS && st'.limit == st.limit && st'.ttl == st.ttl
  {
    if calls == [] then st
    else
      var c := calls[|calls| - 1];
      Walk(fs, RunCache(fs, st, calls[..|calls| - 1]), c.path, 0, c.mode, c.isDir, c.t).1
  }

  lemma {:induction false} RunSound(fs: FileSystem, st: Store, calls: seq<Resolution>)
    requires StoreSound(fs, st) && AllInBuffer(calls) && LinksFit(fs)
    ensures |st.chains| == BUCKETS && StoreSound(fs, RunCache(fs, st, calls))
  {
    hide AllSound; hide Walk; hide LinksFit;
    if calls != [] {
      var c, n := calls[|calls| - 1], |calls| - 1;
      assert c in calls && forall x :: x in calls[..n] ==> x in calls;
      RunSound(fs, st, calls[..n]);
      WalkAnswers(fs, RunCache(fs, st, calls[..n]), c.path, 0, c.mode, c.isDir, c.t);
    }
  }

  /** After no run of resolutions from an empty cache a resolution fails with the cache that
      succeeds without it: this is so exactly in file systems where links land. */
  lemma SafeExactlyWhereLinksLand(fs: FileSystem)
    requires LinksFit(fs)
    ensures LinksLand(fs) <==> forall limit, ttl, calls, t :: ttl >= 0 && AllInBuffer(calls) ==>
      NeverRefuses(fs, RunCache(fs, EmptyStore(limit, ttl), calls), t)
  {
    hide Walk; hide Resolve; hide EndOf; hide Visible; hide Resolves; hide AllSound; hide NeverRefuses; hide FlagsSound;
    hide RunCache; hide EmptyStore; hide AllInBuffer; hide LinksFit;
    if LinksLand(fs) {
      forall limit, ttl, calls, t | ttl >= 0 && AllInBuffer(calls)
        ensures |EmptyStore(limit, ttl).chains| == BUCKETS && NeverRefuses(fs, RunCache(fs, EmptyStore(limit, ttl), calls), t)
      {
        EmptySound(fs, limit, ttl);
        RunSound(fs, EmptyStore(limit, ttl), calls);
        LandedNeverRefuses(fs, RunCache(fs, EmptyStore(limit, ttl), calls), t);
      }
    } else {
      var s :| InBuffer(s) && IsLink(fs, s) && Resolves(fs, s) && (EndOf(fs, s) == AtDots || EndOf(fs, s) == AtMissing);
      var calls, t := LyingRun(fs, s);
    }
  }

  /** A run of one call after which a link is refused. */
  lemma LyingRun(fs: FileSystem, s: string) returns (calls: seq<Resolution>, t: int)
    requires LinksFit(fs) && InBuffer(s) && IsLink(fs, s) && Resolves(fs, s) && (EndOf(fs, s) == AtDots || EndOf(fs, s) == AtMissing)
    ensures AllInBuffer(calls) && |EmptyStore(ROOMY, 0).chains| == BUCKETS
    ensures !NeverRefuses(fs, RunCache(fs, EmptyStore(ROOMY, 0), calls), t)
  {
    hide Walk; hide Resolve; hide EndOf; hide Visible; hide AllSound; hide NeverRefuses; hide LinksFit; hide IsLink;
    var links: nat, mode, isDir :| links <= LINK_MAX && mode != Expand && Resolve(fs, s, links, mode, isDir).Done?;
    EasierResolves(fs, s, links, mode, isDir, 0, false);
    var c := Resolution(s, mode, false, 0);
    calls, t := [c], 0;
    var st := EmptyStore(ROOMY, 0);
    assert RunCache(fs, st, calls) == Walk(fs, st, s, 0, mode, false, 0).1 by {
      assert calls[..0] == [] && RunCache(fs, st, []) == st;
    }
    EmptySound(fs, ROOMY, 0);
    RunSound(fs, st, calls);
    LinkRemembered(fs, st, s, mode, false, 0);
    NeverRefusesExactly(fs, RunCache(fs, st, calls), 0);
  }

  /** What an entry for paths in the buffer can take at most. */
  const ENTRY_MAX: nat := BUCKET_BYTES + 2 * MAXPATHLEN

  /** More than one resolution can add to the cache. */
  const ROOMY: nat := (LINK_MAX + 1) * MAXPATHLEN * ENTRY_MAX

  function Room(links: int, n: nat): int {
    ((LINK_MAX - links) * MAXPATHLEN + n) * ENTRY_MAX
  }

  /** A resolution on an empty cache finds what Resolve says, and adds no more than one entry
      for each path it comes by. */
  lemma {:induction false} EmptyWalk(fs: FileSystem, st: Store, s: string, links: nat, mode: Mode, isDir: bool, t: int)
    requires links <= LINK_MAX && st.chains == NoEntries() && LinksFit(fs) && InBuffer(s)
    ensures var (r, st') := Walk(fs, st, s, links, mode, isDir, t);
      r == Resolve(fs, s, links, mode, isDir) && st'.size <= st.size + Room(links, |s|)
    decreases LINK_MAX - links, |s|, 2
  {
    hide NameStart; hide ProperName; hide Resolve; hide WalkName; hide LinksFit; hide InBuffer;
    if |s| <= 1 {
      RootResolves(fs, s, links, mode, isDir);
    } else {
      var name, before := s[NameStart(s)..], s[..NameStart(s) - 1];
      LastIs(s);
      StaysInBuffer(fs, s);
      if ProperName(name) {
        EmptyWalkName(fs, st, s, links, mode, isDir, t);
      } else {
        ResolveDotsCases(fs, s, links, mode, isDir);
        EmptyWalk(fs, st, before, links, mode, true, t);
      }
    }
  }

  lemma NothingLooked(st: Store, s: string, t: int)
    requires st.chains == NoEntries()
    ensures Visible(st, s, t).None? && Looked(st, s, t) == st
  {
    hide Key;
    assert st.chains[ChainOf(s)] == [];
  }

  lemma {:induction false} EmptyWalkName(fs: FileSystem, st: Store, s: string, links: nat, mode: Mode, isDir: bool, t: int)
    requires links <= LINK_MAX && st.chains == NoEntries() && LinksFit(fs) && InBuffer(s) && |s| > 1 && ProperName(s[NameStart(s)..])
    ensures var (r, st') := WalkName(fs, st, s, links, mode, isDir, t);
      r == Resolve(fs, s, links, mode, isDir) && st'.size <= st.size + Room(links, |s|)
    decreases LINK_MAX - links, |s|, 1
  {
    hide NameStart; hide ProperName; hide Resolve; hide WalkKind; hide LinksFit; hide Visible; hide Looked;
    NothingLooked(st, s, t);
    var k := KindOf(fs, s, mode);
    EmptyWalkKind(fs, st, s, links, mode, isDir, t);
    var (r, st') := WalkKind(fs, st, s, links, mode, isDir, t, k);
    ResolveCanonical(fs, s, links, mode, isDir);
    RememberedSize(st', s, r, mode, k, t);
  }

  lemma RememberedSize(st: Store, s: string, r: Outcome, mode: Mode, k: Kind, t: int)
    requires |st.chains| == BUCKETS && |s| < MAXPATHLEN && (r.Done? ==> |r.path| < MAXPATHLEN - 1)
    ensures Remembered(st, s, r, mode, k, t).size <= st.size + ENTRY_MAX
  {
    hide Key;
  }

  lemma {:induction false} EmptyWalkKind(fs: FileSystem, st: Store, s: string, links: nat, mode: Mode, isDir: bool, t: int)
    requires links <= LINK_MAX && st.chains == NoEntries() && LinksFit(fs) && InBuffer(s) && |s| > 1 && ProperName(s[NameStart(s)..])
    ensures var (r, st') := WalkKind(fs, st, s, links, mode, isDir, t, KindOf(fs, s, mode));
      r == Resolve(fs, s, links, mode, isDir) && st'.size <= st.size + Room(links, |s| - 1)
    decreases LINK_MAX - links, |s|, 0
  {
    hide NameStart; hide ProperName; hide Resolve; hide Walk; hide LinksFit; hide Target; hide TooLong; hide Behind;
    ResolveNameCases(fs, s, links, mode, isDir);
    StaysInBuffer(fs, s);
    var k := KindOf(fs, s, mode);
    if k == Link {
      if links < LINK_MAX && fs.readlink(s).Some? {
        TooLongIs(s, fs.readlink(s).value);
        if !TooLong(s, fs.readlink(s).value) {
          var target := Target(s, fs.readlink(s).value);
          EmptyWalk(fs, st, target, links + 1, mode, isDir, t);
        }
      }
    } else if !(k == Missing && mode == RealPath) && !(k == File && isDir) {
      EmptyWalk(fs, st, s[..NameStart(s) - 1], links, if k == Missing then mode else FilePath, true, t);
    }
  }

  /** The resolution of a link on an empty cache leaves an entry for it. */
  lemma LinkRemembered(fs: FileSystem, st: Store, s: string, mode: Mode, isDir: bool, t: int)
    requires st == EmptyStore(ROOMY, 0) && LinksFit(fs) && InBuffer(s) && IsLink(fs, s) && mode != Expand
    requires Resolve(fs, s, 0, mode, isDir).Done?
    ensures Visible(Walk(fs, st, s, 0, mode, isDir, t).1, s, t).Some?
  {
    hide NameStart; hide ProperName; hide Resolve; hide LinksFit; hide Looked; hide Key; hide WalkKind; hide Visible;
    NothingLooked(st, s, t);
    EmptyWalkKind(fs, st, s, 0, mode, isDir, t);
    ResolveCanonical(fs, s, 0, mode, isDir);
    LastIs(s);
    var (r, st') := WalkKind(fs, st, s, 0, mode, isDir, t, Link);
    assert st'.size <= 0 + Room(0, |s| - 1) && st'.limit == ROOMY && st'.ttl == 0;
    assert WalkFresh(fs, st, s, 0, mode, isDir, t) == (r, Added(st', s, r.path, r.dir.Some? && r.dir.value, t));
    assert Walk(fs, st, s, 0, mode, isDir, t) == WalkName(fs, st, s, 0, mode, isDir, t) == WalkFresh(fs, st, s, 0, mode, isDir, t);
    AddedIsSeen(st', s, r.path, r.dir.Some? && r.dir.value, t);
  }

  lemma AddedIsSeen(st: Store, path: string, realpath: string, dir: bool, t: int)
    requires |st.chains| == BUCKETS && st.ttl >= 0 && |path| < MAXPATHLEN && |realpath| < MAXPATHLEN - 1 && st.size + ENTRY_MAX <= st.limit
    ensures Visible(Added(st, path, realpath, dir, t), path, t).Some?
  {
    hide Key;
  }

  // ---- an example ----

  /** The names of the example. */
  lemma ExampleNames()
    ensures NameStart("/l") == 1 && "/l"[1..] == "l" && "/l"[..0] == "" && ProperName("l") && Target("/l", ".") == "/."
    ensures NameStart("/.") == 1 && "/."[1..] == "." && "/."[..0] == ""
    ensures NameStart("/l/x") == 3 && "/l/x"[3..] == "x" && "/l/x"[..2] == "/l" && ProperName("x")
  {
    NameStartIs("/l", 1);
    NameStartIs("/.", 1);
    NameStartIs("/l/x", 3);
  }

  /** Resolving the link leaves one entry, which says that it is no directory. */
  lemma LinkIsStored(fs: FileSystem, st: Store, t: int)
    requires fs.lstat("/l") == Link && fs.readlink("/l") == Some(".")
    requires st.chains == NoEntries() && st.size == 0 && st.limit >= 100
    ensures Walk(fs, st, "/l", 0, FilePath, false, t) == (Done("/", 1, Some(false)), Added(st, "/l", "/", false, t))
  {
    hide NameStart; hide ProperName; hide Target; hide Key;
    hide TooLong;
    ExampleNames();
    var n := ChainOf("/l");
    assert Swept(st.chains[n], "/l", t, st.ttl) == [] && Looked(st, "/l", t) == st;
    assert Walk(fs, st, "/.", 1, FilePath, false, t) == (Done("/", 1, None), st);
    TooLongIs("/l", ".");
    assert WalkKind(fs, st, "/l", 0, FilePath, false, t, Link) == (Done("/", 1, Some(false)), st);
  }

  /** With that entry the link is refused as a directory, and what is below it with it. */
  lemma StoredLinkRefuses(fs: FileSystem, st: Store, t: int)
    requires |st.chains| == BUCKETS && st.limit != 0 && Visible(st, "/l", t).Some? && !Visible(st, "/l", t).value.dir
    requires Visible(st, "/l/x", t).None? && fs.lstat("/l/x") == File
    ensures Walk(fs, st, "/l/x", 0, FilePath, false, t).0 == Fail
  {
    hide NameStart; hide ProperName; hide Looked; hide Visible;
    ExampleNames();
    var st1 := Looked(st, "/l/x", t);
    assert |st1.chains| == BUCKETS && st1.limit == st.limit by {
      LookedShape(st, "/l/x", t);
    }
    LookedSees(st, "/l/x", "/l", t);
    assert Walk(fs, st1, "/l", 0, FilePath, true, t).0 == Fail;
    assert WalkKind(fs, st1, "/l/x", 0, FilePath, false, t, File).0 == Fail;
    assert WalkFresh(fs, st1, "/l/x", 0, FilePath, false, t).0 == Fail;
  }

  lemma LookedShape(st: Store, path: string, t: int)
    requires |st.chains| == BUCKETS
    ensures var st' := Looked(st, path, t); |st'.chains| == BUCKETS && st'.limit == st.limit && st'.ttl == st.ttl
  {
  }

  lemma AddedSees(st: Store, path: string, realpath: string, dir: bool, t: int, other: string)
    requires |st.chains| == BUCKETS && st.chains == NoEntries() && st.size == 0 && st.limit >= 100 && st.ttl >= 0
    requires |path| + |realpath| < 20
    ensures var st' := Added(st, path, realpath, dir, t);
      && |st'.chains| == BUCKETS && st'.limit == st.limit
      && Visible(st', path, t).Some? && Visible(st', path, t).value.dir == dir && (other != path ==> Visible(st', other, t).None?)
  {
    hide Key;
    var e := Entry(Key(path), path, realpath, dir, t + st.ttl);
    assert ([e] + [])[1..] == [];
    assert Lookup([e] + [], other, t, st.ttl) == if other == path then Some(e) else None;
  }

  /** Without the cache it is found. */
  lemma UncachedFinds(fs: FileSystem)
    requires fs.lstat("/l") == Link && fs.readlink("/l") == Some(".") && fs.lstat("/l/x") == File
    ensures Resolve(fs, "/l/x", 0, FilePath, false) == Done("/x", 1, Some(false)) && EndOf(fs, "/l") == AtDots
  {
    ExampleNames();
    assert Resolve(fs, "/.", 1, FilePath, true) == Done("/", 1, None);
    assert Resolve(fs, "/l", 0, FilePath, true) == Done("/", 1, Some(false));
    TooLongIs("/l", ".");
    assert EndWithin(fs, "/.", 0) == AtDots;
    assert EndWithin(fs, "/l", 1) == AtDots;
    EndOfIs(fs, "/l", 1);
  }

  /** A link to the root: when it is in the cache, what is below it cannot be resolved. */
  lemma LinkFlagCanLie(fs: FileSystem, st: Store, t: int)
    requires fs.lstat("/l") == Link && fs.readlink("/l") == Some(".") && fs.lstat("/l/x") == File
    requires st.chains == NoEntries() && st.size == 0 && st.limit >= 100 && st.ttl >= 0
    ensures var (r, st1) := Walk(fs, st, "/l", 0, FilePath, false, t);
      r == Done("/", 1, Some(false)) && Walk(fs, st1, "/l/x", 0, FilePath, false, t).0 == Fail
    ensures Resolve(fs, "/l/x", 0, FilePath, false) == Done("/x", 1, Some(false)) && EndOf(fs, "/l") == AtDots
  {
    hide Walk; hide Resolve; hide EndOf; hide Added; hide Visible;
    LinkIsStored(fs, st, t);
    AddedSees(st, "/l", "/", false, t, "/l/x");
    StoredLinkRefuses(fs, Added(st, "/l", "/", false, t), t);
    UncachedFinds(fs);
  }

  /** The same for a link that leads to nothing: it resolves as a directory, but once it is
      in the cache it does not. */
  lemma DanglingFlagCanLie(fs: FileSystem, t: int)
    requires LinksFit(fs) && fs.lstat("/l") == Link && fs.readlink("/l") == Some("/g") && fs.lstat("/g") == Missing
    ensures |EmptyStore(ROOMY, 0).chains| == BUCKETS
    ensures var (r, st1) := Walk(fs, EmptyStore(ROOMY, 0), "/l", 0, FilePath, false, t);
      r == Done("/g", 1, Some(false)) && Walk(fs, st1, "/l", 0, FilePath, true, t).0 == Fail
    ensures Resolve(fs, "/l", 0, FilePath, true) == Done("/g", 1, Some(false)) && EndOf(fs, "/l") == AtMissing
  {
    hide Walk; hide Resolve; hide EndOf; hide Visible; hide LinksFit; hide Leads; hide Canonical; hide AllSound; hide ProperName;
    var st := EmptyStore(ROOMY, 0);
    assert InBuffer("/l") && IsLink(fs, "/l") by {
      ExampleNames();
    }
    DanglingUncached(fs);
    EmptyWalk(fs, st, "/l", 0, FilePath, false, t);
    LinkRemembered(fs, st, "/l", FilePath, false, t);
    EmptySound(fs, ROOMY, 0);
    WalkAnswers(fs, st, "/l", 0, FilePath, false, t);
    var st1 := Walk(fs, st, "/l", 0, FilePath, false, t).1;
    SweepSound(fs, st1, "/l", t);
    StoredFlagRefuses(fs, st1, t);
  }

  lemma StoredFlagRefuses(fs: FileSystem, st: Store, t: int)
    requires |st.chains| == BUCKETS && st.limit != 0 && Visible(st, "/l", t).Some? && !Visible(st, "/l", t).value.dir
    ensures Walk(fs, st, "/l", 0, FilePath, true, t).0 == Fail
  {
    hide NameStart; hide ProperName; hide Looked; hide Visible;
    ExampleNames();
  }

  lemma DanglingNames()
    ensures NameStart("/g") == 1 && "/g"[1..] == "g" && "/g"[..0] == "" && Target("/l", "/g") == "/g" && ProperName("g")
  {
    ExampleNames();
    NameStartIs("/g", 1);
  }

  lemma DanglingUncached(fs: FileSystem)
    requires fs.lstat("/l") == Link && fs.readlink("/l") == Some("/g") && fs.lstat("/g") == Missing
    ensures forall isDir :: Resolve(fs, "/l", 0, FilePath, isDir) == Done("/g", 1, Some(false))
    ensures EndOf(fs, "/l") == AtMissing
  {
    ExampleNames();
    DanglingNames();
    assert forall isDir :: Resolve(fs, "/g", 1, FilePath, isDir) == Done("/g", 1, None);
    TooLongIs("/l", "/g");
    assert EndWithin(fs, "/g", 0) == AtMissing;
    assert EndWithin(fs, "/l", 1) == AtMissing;
    EndOfIs(fs, "/l", 1);
  }
}
