/** What path resolution computes when nothing is cached: tsrm_realpath_r on absolute
    paths, as a function of the file system. */
module Resolver {
  import opened Options
  import opened Paths

  const LINK_MAX: nat := 32
  const MAXPATHLEN: nat := 4096

  /** CWD_EXPAND, CWD_FILEPATH, CWD_REALPATH. */
  datatype Mode = Expand | FilePath | RealPath

  datatype Kind = Missing | Link | Directory | File

  /** `lstat` and `readlink`, as they answer during a resolution. */
  datatype FileSystem = FileSystem(lstat: string -> Kind, readlink: string -> Option<string>)

  /** `readlink` answers fit the buffer with a terminating zero. */
  ghost predicate LinksFit(fs: FileSystem) {
    forall s :: fs.readlink(s).Some? ==> |fs.readlink(s).value| < MAXPATHLEN
  }

  /** The absolute paths that fit the buffer with a terminating zero. */
  predicate InBuffer(s: string) {
    |s| < MAXPATHLEN && (s == "" || s[0] == SLASH)
  }

  /** Failure, or the resolved path, the links followed so far and what was stored
      through `link_is_dir`, if anything. */
  datatype Outcome = Fail | Done(path: string, links: nat, dir: Option<bool>)

  /** The answer of `lstat`, which expansion does not ask for. */
  function KindOf(fs: FileSystem, s: string, mode: Mode): Kind {
    if mode == Expand then Missing else fs.lstat(s)
  }

  /** What a link makes of the resolution of its target. */
  function ThroughLink(r: Outcome): Outcome {
    match r
    case Fail => Fail
    case Done(q, links, dir) => Done(q, links, Some(dir.Some? && dir.value))
  }

  /** What ".." makes of the resolution of what is before it. */
  function Up(r: Outcome): Outcome {
    match r
    case Fail => Fail
    case Done(q, links, _) => if |q| >= 1 then Done(Parent(q), links, None) else r
  }

  /** The last name behind the resolution of what is before it. */
  function Behind(r: Outcome, name: string, dir: Option<bool>): Outcome {
    match r
    case Fail => Fail
    case Done(q, links, _) =>
      if |Slashed(q)| + |name| >= MAXPATHLEN - 1 then Fail else Done(Slashed(q) + name, links, dir)
  }

  /** Where a link at `s` leads. */
  function Target(s: string, target: string): string
    requires |s| > 1
  {
    if target != "" && target[0] == SLASH then target else s[..NameStart(s) - 1] + [SLASH] + target
  }

  function Resolve(fs: FileSystem, s: string, links: nat, mode: Mode, isDir: bool): Outcome
    requires links <= LINK_MAX
    decreases LINK_MAX - links, |s|
  {
    if |s| <= 1 then Done([SLASH], links, None)
    else
      var name, before := s[NameStart(s)..], s[..NameStart(s) - 1];
      if name == "" || name == "." then Resolve(fs, before, links, mode, true)
      else if name == ".." then Up(Resolve(fs, before, links, mode, true))
      else ResolveName(fs, s, links, mode, isDir)
  }

  function ResolveName(fs: FileSystem, s: string, links: nat, mode: Mode, isDir: bool): Outcome
    requires links <= LINK_MAX && |s| > 1
    decreases LINK_MAX - links, |s|, 0
  {
    var k := KindOf(fs, s, mode);
    if k == Missing && mode == RealPath then Fail
    else if k == Link then
      if links >= LINK_MAX || fs.readlink(s).None? then Fail
      else
        var target := fs.readlink(s).value;
        if (target == "" || target[0] != SLASH) && NameStart(s) + |target| >= MAXPATHLEN - 1 then Fail
        else ThroughLink(Resolve(fs, Target(s, target), links + 1, mode, isDir))
    else if k == File && isDir then Fail
    else
      Behind(Resolve(fs, s[..NameStart(s) - 1], links, if k == Missing then mode else FilePath, true),
             s[NameStart(s)..], if k == Missing then None else Some(k == Directory))
  }

  /** A success is canonical and fits, and the link budget is kept. */
  predicate Sound(r: Outcome, links: nat) {
    r.Done? ==> Canonical(r.path) && |r.path| < MAXPATHLEN - 1 && links <= r.links <= LINK_MAX
  }

  lemma StepsSound(r: Outcome, links: nat, name: string, dir: Option<bool>)
    requires Sound(r, links)
    ensures Sound(Up(r), links) && Sound(ThroughLink(r), links)
    ensures ProperName(name) ==> Sound(Behind(r, name, dir), links)
  {
    if r.Done? {
      ParentCanonical(r.path);
      if ProperName(name) {
        AppendName(r.path, name);
      }
    }
  }

  lemma LastName(s: string)
    requires |s| > 1
    ensures var name := s[NameStart(s)..]; name == "" || name == "." || name == ".." || ProperName(name)
  {
  }

  /** Whatever the file system says, a result is canonical and fits. */
  lemma {:induction false} ResolveCanonical(fs: FileSystem, s: string, links: nat, mode: Mode, isDir: bool)
    requires links <= LINK_MAX
    ensures Sound(Resolve(fs, s, links, mode, isDir), links)
    decreases LINK_MAX - links, |s|
  {
    if |s| > 1 {
      var name, before := s[NameStart(s)..], s[..NameStart(s) - 1];
      LastName(s);
      if name == "" || name == "." || name == ".." {
        ResolveCanonical(fs, before, links, mode, true);
        StepsSound(Resolve(fs, before, links, mode, true), links, name, None);
      } else {
        NameCanonical(fs, s, links, mode, isDir);
      }
    }
  }

  lemma {:induction false} NameCanonical(fs: FileSystem, s: string, links: nat, mode: Mode, isDir: bool)
    requires links <= LINK_MAX && |s| > 1 && ProperName(s[NameStart(s)..])
    ensures Sound(ResolveName(fs, s, links, mode, isDir), links)
    decreases LINK_MAX - links, |s|, 0
  {
    var name, before, k := s[NameStart(s)..], s[..NameStart(s) - 1], KindOf(fs, s, mode);
    if k == Link {
      if links < LINK_MAX && fs.readlink(s).Some? {
        var t := Target(s, fs.readlink(s).value);
        ResolveCanonical(fs, t, links + 1, mode, isDir);
        StepsSound(Resolve(fs, t, links + 1, mode, isDir), links, name, None);
      }
    } else {
      var m := if k == Missing then mode else FilePath;
      ResolveCanonical(fs, before, links, m, true);
      StepsSound(Resolve(fs, before, links, m, true), links, name, if k == Missing then None else Some(k == Directory));
    }
    hide Sound;
  }

  /** The cases of Resolve on a proper last name. */
  lemma ResolveNameCases(fs: FileSystem, s: string, links: nat, mode: Mode, isDir: bool)
    requires links <= LINK_MAX && |s| > 1 && ProperName(s[NameStart(s)..])
    ensures var name, before, k, r := s[NameStart(s)..], s[..NameStart(s) - 1], KindOf(fs, s, mode), Resolve(fs, s, links, mode, isDir);
      && (k == Missing && mode == RealPath ==> r == Fail)
      && (k == Link && (links >= LINK_MAX || fs.readlink(s).None?) ==> r == Fail)
      && (k == Link && links < LINK_MAX && fs.readlink(s).Some? ==>
            var target := fs.readlink(s).value;
            r == if (target == "" || target[0] != SLASH) && NameStart(s) + |target| >= MAXPATHLEN - 1 then Fail
                 else ThroughLink(Resolve(fs, Target(s, target), links + 1, mode, isDir)))
      && (k == File && isDir ==> r == Fail)
      && (k != Link && (k == Missing ==> mode != RealPath) && (k == File ==> !isDir) ==>
            r == Behind(Resolve(fs, before, links, if k == Missing then mode else FilePath, true), name,
                        if k == Missing then None else Some(k == Directory)))
  {
    assert Resolve(fs, s, links, mode, isDir) == ResolveName(fs, s, links, mode, isDir);
  }

  lemma ResolveDotsCases(fs: FileSystem, s: string, links: nat, mode: Mode, isDir: bool)
    requires links <= LINK_MAX && |s| > 1
    ensures var name, before, r := s[NameStart(s)..], s[..NameStart(s) - 1], Resolve(fs, s, links, mode, isDir);
      && (name == "" || name == "." ==> r == Resolve(fs, before, links, mode, true))
      && (name == ".." ==> r == Up(Resolve(fs, before, links, mode, true)))
  {
    hide ResolveName;
  }

  /** Two resolutions of one path that succeed agree, whichever of CWD_FILEPATH and
      CWD_REALPATH they use, whatever links were followed before, and whether or not a
      directory is asked for. */
  lemma {:induction false} ResolutionsAgree(fs: FileSystem, s: string, links: nat, mode: Mode, isDir: bool,
                                            links': nat, mode': Mode, isDir': bool)
    requires links <= LINK_MAX && links' <= LINK_MAX && mode != Expand && mode' != Expand
    ensures var r, r' := Resolve(fs, s, links, mode, isDir), Resolve(fs, s, links', mode', isDir');
      r.Done? && r'.Done? ==> r.path == r'.path
    decreases LINK_MAX - links, |s|
  {
    hide Resolve; hide NameStart; hide Parent; hide Target; hide ProperName; hide Slashed;
    if |s| <= 1 {
      RootResolves(fs, s, links, mode, isDir);
      RootResolves(fs, s, links', mode', isDir');
    } else {
      var name, before := s[NameStart(s)..], s[..NameStart(s) - 1];
      LastName(s);
      if name == "" || name == "." || name == ".." {
        ResolutionsAgree(fs, before, links, mode, true, links', mode', true);
        ResolveDotsCases(fs, s, links, mode, isDir);
        ResolveDotsCases(fs, s, links', mode', isDir');
      } else {
        var k := fs.lstat(s);
        ResolveNameCases(fs, s, links, mode, isDir);
        ResolveNameCases(fs, s, links', mode', isDir');
        if k == Link {
          if links < LINK_MAX && links' < LINK_MAX && fs.readlink(s).Some? {
            ResolutionsAgree(fs, Target(s, fs.readlink(s).value), links + 1, mode, isDir, links' + 1, mode', isDir');
          }
        } else {
          ResolutionsAgree(fs, before, links, if k == Missing then mode else FilePath, true,
                           links', if k == Missing then mode' else FilePath, true);
        }
      }
    }
  }

  predicate ExpandsTo(r: Outcome, s: string, links: nat) {
    r.Done? && r.path == Join(Normalise(Components(s))) && |r.path| <= (if |s| == 0 then 1 else |s|) && r.links == links
  }

  /** Expansion is the normalisation of the components; it cannot fail on paths that fit. */
  lemma {:induction false} ExpandNormalises(fs: FileSystem, s: string, links: nat, isDir: bool)
    requires links <= LINK_MAX && |s| < MAXPATHLEN - 1
    ensures ExpandsTo(Resolve(fs, s, links, Expand, isDir), s, links)
    decreases |s|
  {
    if |s| > 1 {
      var name, before := s[NameStart(s)..], s[..NameStart(s) - 1];
      LastName(s);
      ExpandNormalises(fs, before, links, true);
      ExpandStep(Resolve(fs, before, links, Expand, true), s, links);
      hide ExpandsTo; hide Normalise; hide Components; hide Join;
    }
  }

  lemma ExpandStep(r: Outcome, s: string, links: nat)
    requires 1 < |s| < MAXPATHLEN - 1 && ExpandsTo(r, s[..NameStart(s) - 1], links)
    ensures var name := s[NameStart(s)..];
      && (name == "" || name == "." ==> ExpandsTo(r, s, links))
      && (name == ".." ==> ExpandsTo(Up(r), s, links))
      && (ProperName(name) ==> ExpandsTo(Behind(r, name, None), s, links))
  {
    hide Parent; hide Normalise; hide Components; hide NameStart; hide Join; hide ProperName; hide AllProper;
    var name, before := s[NameStart(s)..], s[..NameStart(s) - 1];
    var stack := Normalise(Components(before));
    NormaliseLast(before, s);
    NoSlashInside(before);
    NormaliseProper(Components(before));
    ParentOfJoin(stack);
    JoinLast(stack, name);
  }

  lemma JoinLast(stack: seq<string>, name: string)
    ensures Join(stack + [name]) == Slashed(Join(stack)) + name
    ensures ProperName(name) ==> PushComponent(stack, name) == stack + [name]
  {
    assert (stack + [name])[..|stack|] == stack;
  }

  lemma NormaliseLast(before: string, s: string)
    requires |s| > 1 && before == s[..NameStart(s) - 1]
    ensures Normalise(Components(s)) == PushComponent(Normalise(Components(before)), s[NameStart(s)..])
  {
    var cs := Components(s);
    assert cs[..|cs| - 1] == Components(before);
  }

  lemma ParentOfJoin(cs: seq<string>)
    requires AllProper(cs)
    ensures Parent(Join(cs)) == Join(if cs == [] then [] else cs[..|cs| - 1])
    ensures |Parent(Join(cs))| <= |Join(cs)|
  {
    if cs != [] {
      JoinCanonical(cs[..|cs| - 1]);
      assert cs[|cs| - 1] in cs;
      AppendName(Join(cs[..|cs| - 1]), cs[|cs| - 1]);
    }
  }

  /** Expansion leaves its own results, and all canonical paths that fit, as they are. */
  lemma ExpandIdempotent(fs: FileSystem, s: string, links: nat, isDir: bool)
    requires links <= LINK_MAX && |s| < MAXPATHLEN - 1
    ensures var r := Resolve(fs, s, links, Expand, isDir);
      r.Done? && Resolve(fs, r.path, links, Expand, isDir) == Done(r.path, links, None)
  {
    ExpandNormalises(fs, s, links, isDir);
    var cs := Normalise(Components(s));
    NoSlashInside(s);
    NormaliseProper(Components(s));
    ExpandNormalises(fs, Join(cs), links, isDir);
    ComponentsOfJoin(cs);
    NormaliseIdle(cs);
    ExpandStoresNothing(fs, Join(cs), links, isDir);
  }

  lemma {:induction false} ExpandStoresNothing(fs: FileSystem, s: string, links: nat, isDir: bool)
    requires links <= LINK_MAX
    ensures var r := Resolve(fs, s, links, Expand, isDir); r.Done? ==> r.dir == None
    decreases |s|
  {
    if |s| > 1 {
      ExpandStoresNothing(fs, s[..NameStart(s) - 1], links, true);
    }
  }

  /** Resolution does not leave the buffer. */
  lemma StaysInBuffer(fs: FileSystem, s: string)
    requires InBuffer(s) && LinksFit(fs) && |s| > 1
    ensures InBuffer(s[..NameStart(s) - 1]) && |s[..NameStart(s) - 1]| < |s|
    ensures fs.readlink(s).Some? && !TooLong(s, fs.readlink(s).value) ==> InBuffer(Target(s, fs.readlink(s).value))
  {
  }

  /** What resolves after fewer links, or without being asked for a directory, still does. */
  lemma {:induction false} EasierResolves(fs: FileSystem, s: string, links: nat, mode: Mode, isDir: bool, links': nat, isDir': bool)
    requires links' <= links <= LINK_MAX && (isDir' ==> isDir) && mode != Expand && Resolve(fs, s, links, mode, isDir).Done?
    ensures Resolve(fs, s, links', mode, isDir').Done?
    decreases LINK_MAX - links, |s|
  {
    hide Resolve; hide NameStart; hide Target; hide ProperName;
    if |s| <= 1 {
      RootResolves(fs, s, links', mode, isDir');
    } else {
      var name, before := s[NameStart(s)..], s[..NameStart(s) - 1];
      LastIs(s);
      ResolveDotsCases(fs, s, links, mode, isDir);
      ResolveDotsCases(fs, s, links', mode, isDir');
      if ProperName(name) {
        ResolveNameCases(fs, s, links, mode, isDir);
        ResolveNameCases(fs, s, links', mode, isDir');
        if fs.lstat(s) == Link {
          EasierResolves(fs, Target(s, fs.readlink(s).value), links + 1, mode, isDir, links' + 1, isDir');
        } else {
          var m := if fs.lstat(s) == Missing then mode else FilePath;
          EasierResolves(fs, before, links, m, true, links', true);
          ResolutionsAgree(fs, before, links, m, true, links', m, true);
        }
      } else {
        EasierResolves(fs, before, links, mode, true, links', true);
      }
    }
  }

  // ---- what a cache may answer ----

  /** `q` is what every resolution of `s` that succeeds, in whichever mode that saves
      results, comes to. */
  ghost predicate Agrees(fs: FileSystem, s: string, q: string) {
    forall links: nat, mode, isDir :: links <= LINK_MAX && mode != Expand && Resolve(fs, s, links, mode, isDir).Done?
      ==> Resolve(fs, s, links, mode, isDir).path == q
  }

  lemma AgreesAt(fs: FileSystem, s: string, q: string, links: nat, mode: Mode, isDir: bool)
    requires Agrees(fs, s, q) && links <= LINK_MAX && mode != Expand
    ensures Resolve(fs, s, links, mode, isDir).Done? ==> Resolve(fs, s, links, mode, isDir).path == q
  {
    hide Resolve;
  }

  lemma NameAgreesAt(fs: FileSystem, s: string, q: string, links: nat, mode: Mode, isDir: bool)
    requires |s| > 1 && ProperName(s[NameStart(s)..]) && links <= LINK_MAX && mode != Expand
    ensures var r := Resolve(fs, s, links, mode, isDir);
      && (r.Done? && fs.lstat(s) == Link && fs.readlink(s).Some? && Agrees(fs, Target(s, fs.readlink(s).value), q) ==> r.path == q)
      && (r.Done? && fs.lstat(s) != Link && Agrees(fs, s[..NameStart(s) - 1], q) ==> r.path == Slashed(q) + s[NameStart(s)..])
  {
    hide Agrees;
    if fs.lstat(s) == Link {
      if fs.readlink(s).Some? && links < LINK_MAX && Agrees(fs, Target(s, fs.readlink(s).value), q) {
        AgreesAt(fs, Target(s, fs.readlink(s).value), q, links + 1, mode, isDir);
      }
    } else if Agrees(fs, s[..NameStart(s) - 1], q) {
      AgreesAt(fs, s[..NameStart(s) - 1], q, links, if fs.lstat(s) == Missing then mode else FilePath, true);
    }
  }

  lemma LinkAgrees(fs: FileSystem, s: string, q: string)
    requires |s| > 1 && ProperName(s[NameStart(s)..]) && fs.lstat(s) == Link && fs.readlink(s).Some?
    requires Agrees(fs, Target(s, fs.readlink(s).value), q)
    ensures Agrees(fs, s, q)
  {
    hide Resolve;
    forall links: nat, mode, isDir | links <= LINK_MAX && mode != Expand && Resolve(fs, s, links, mode, isDir).Done?
      ensures Resolve(fs, s, links, mode, isDir).path == q
    {
      NameAgreesAt(fs, s, q, links, mode, isDir);
    }
  }

  lemma NameAgrees(fs: FileSystem, s: string, q: string)
    requires |s| > 1 && ProperName(s[NameStart(s)..]) && fs.lstat(s) != Link && Agrees(fs, s[..NameStart(s) - 1], q)
    ensures Agrees(fs, s, Slashed(q) + s[NameStart(s)..])
  {
    hide Resolve;
    forall links: nat, mode, isDir | links <= LINK_MAX && mode != Expand && Resolve(fs, s, links, mode, isDir).Done?
      ensures Resolve(fs, s, links, mode, isDir).path == Slashed(q) + s[NameStart(s)..]
    {
      NameAgreesAt(fs, s, q, links, mode, isDir);
    }
  }

  // ---- where links lead ----

  /** Where the links from a path end: at the root or at "..", at a missing name, at a file
      or at a directory; `Broken` when a link cannot be read or leads out of the buffer. */
  datatype End = AtDots | AtMissing | AtFile | AtDirectory | Broken

  /** The target of a link does not fit the buffer. */
  predicate TooLong(s: string, target: string)
    requires |s| > 1
  {
    (target == "" || target[0] != SLASH) && NameStart(s) + |target| >= MAXPATHLEN - 1
  }

  /** The end of at most `fuel` links. */
  function EndWithin(fs: FileSystem, s: string, fuel: nat): End
    decreases fuel, |s|
  {
    if |s| <= 1 then AtDots
    else
      var name, before := s[NameStart(s)..], s[..NameStart(s) - 1];
      if name == "" || name == "." then EndWithin(fs, before, fuel)
      else if name == ".." then AtDots
      else match fs.lstat(s)
        case Missing => AtMissing
        case File => AtFile
        case Directory => AtDirectory
        case Link =>
          if fuel == 0 || fs.readlink(s).None? || TooLong(s, fs.readlink(s).value) then Broken
          else EndWithin(fs, Target(s, fs.readlink(s).value), fuel - 1)
  }

  lemma {:induction false} EndStays(fs: FileSystem, s: string, fuel: nat, fuel': nat)
    requires fuel <= fuel' && EndWithin(fs, s, fuel) != Broken
    ensures EndWithin(fs, s, fuel') == EndWithin(fs, s, fuel)
    decreases fuel, |s|
  {
    hide NameStart; hide Target; hide TooLong;
    if |s| > 1 {
      var name, before := s[NameStart(s)..], s[..NameStart(s) - 1];
      if name == "" || name == "." {
        EndStays(fs, before, fuel, fuel');
      } else if name != ".." && fs.lstat(s) == Link {
        EndStays(fs, Target(s, fs.readlink(s).value), fuel - 1, fuel' - 1);
      }
    }
  }

  ghost predicate Ends(fs: FileSystem, s: string, fuel: nat) {
    EndWithin(fs, s, fuel) != Broken
  }

  /** The end of the links, however many. */
  ghost function EndOf(fs: FileSystem, s: string): End {
    if exists fuel: nat :: Ends(fs, s, fuel) then
      var fuel: nat :| Ends(fs, s, fuel);
      EndWithin(fs, s, fuel)
    else Broken
  }

  lemma EndOfIs(fs: FileSystem, s: string, fuel: nat)
    requires Ends(fs, s, fuel)
    ensures EndOf(fs, s) == EndWithin(fs, s, fuel)
  {
    hide EndWithin;
    var fuel': nat :| Ends(fs, s, fuel') && EndOf(fs, s) == EndWithin(fs, s, fuel');
    if fuel <= fuel' {
      EndStays(fs, s, fuel, fuel');
    } else {
      EndStays(fs, s, fuel', fuel);
    }
  }

  /** The cases of EndOf. */
  lemma EndOfCases(fs: FileSystem, s: string)
    ensures |s| <= 1 ==> EndOf(fs, s) == AtDots
    ensures |s| > 1 && s[NameStart(s)..] == ".." ==> EndOf(fs, s) == AtDots
    ensures |s| > 1 && ProperName(s[NameStart(s)..]) && fs.lstat(s) != Link ==>
      EndOf(fs, s) == match fs.lstat(s) { case Missing => AtMissing case File => AtFile case _ => AtDirectory }
  {
    hide EndOf;
    if |s| <= 1 || s[NameStart(s)..] == ".." || (ProperName(s[NameStart(s)..]) && fs.lstat(s) != Link) {
      EndOfIs(fs, s, 0);
    }
  }

  lemma EndOfDots(fs: FileSystem, s: string)
    requires |s| > 1 && (s[NameStart(s)..] == "" || s[NameStart(s)..] == ".")
    ensures EndOf(fs, s) == EndOf(fs, s[..NameStart(s) - 1])
  {
    var before := s[..NameStart(s) - 1];
    assert forall fuel: nat :: EndWithin(fs, s, fuel) == EndWithin(fs, before, fuel);
    hide EndWithin;
    if fuel: nat :| Ends(fs, s, fuel) {
      EndOfIs(fs, s, fuel);
      EndOfIs(fs, before, fuel);
    } else {
      assert forall fuel: nat :: Ends(fs, before, fuel) <==> Ends(fs, s, fuel);
    }
  }

  lemma EndOfLink(fs: FileSystem, s: string)
    requires |s| > 1 && ProperName(s[NameStart(s)..]) && fs.lstat(s) == Link && fs.readlink(s).Some?
    requires !TooLong(s, fs.readlink(s).value) && EndOf(fs, Target(s, fs.readlink(s).value)) != Broken
    ensures EndOf(fs, s) == EndOf(fs, Target(s, fs.readlink(s).value))
  {
    hide Target; hide NameStart; hide TooLong;
    var target := Target(s, fs.readlink(s).value);
    var fuel: nat :| Ends(fs, target, fuel);
    EndOfIs(fs, target, fuel);
    assert EndWithin(fs, s, fuel + 1) == EndWithin(fs, target, fuel);
    EndOfIs(fs, s, fuel + 1);
  }

  /** What is stored through `link_is_dir` tells exactly whether the links end at a
      directory. */
  lemma {:induction false} FlagIsEnd(fs: FileSystem, s: string, links: nat, mode: Mode, isDir: bool)
    requires links <= LINK_MAX && mode != Expand && Resolve(fs, s, links, mode, isDir).Done?
    ensures var r := Resolve(fs, s, links, mode, isDir); Flagged(fs, s, r.dir.Some? && r.dir.value)
    decreases LINK_MAX - links, |s|
  {
    hide Resolve; hide NameStart; hide Target; hide TooLong; hide ProperName; hide EndOf; hide Behind;
    EndOfCases(fs, s);
    if |s| <= 1 {
      assert Resolve(fs, s, links, mode, isDir).dir == None by {
        RootResolves(fs, s, links, mode, isDir);
      }
    } else {
      var name, before := s[NameStart(s)..], s[..NameStart(s) - 1];
      LastIs(s);
      if name == "" || name == "." {
        EndOfDots(fs, s);
        ResolveDotsCases(fs, s, links, mode, isDir);
        FlagIsEnd(fs, before, links, mode, true);
      } else if name == ".." {
        ResolveDotsCases(fs, s, links, mode, isDir);
        UpStoresNothing(Resolve(fs, before, links, mode, true), fs, before, links, mode);
      } else {
        ResolveNameCases(fs, s, links, mode, isDir);
        if fs.lstat(s) == Link {
          var target := Target(s, fs.readlink(s).value);
          TooLongIs(s, fs.readlink(s).value);
          FlagIsEnd(fs, target, links + 1, mode, isDir);
          EndOfLink(fs, s);
        } else {
          BehindStores(Resolve(fs, before, links, if fs.lstat(s) == Missing then mode else FilePath, true), name,
                       if fs.lstat(s) == Missing then None else Some(fs.lstat(s) == Directory));
        }
      }
    }
  }

  /** The flag of `s` says whether its links end at a directory. */
  ghost predicate Flagged(fs: FileSystem, s: string, dir: bool) {
    EndOf(fs, s) != Broken && (dir <==> EndOf(fs, s) == AtDirectory)
  }

  lemma RootResolves(fs: FileSystem, s: string, links: nat, mode: Mode, isDir: bool)
    requires links <= LINK_MAX && |s| <= 1
    ensures Resolve(fs, s, links, mode, isDir) == Done([SLASH], links, None)
  {
  }

  lemma LastIs(s: string)
    requires |s| > 1
    ensures var name := s[NameStart(s)..]; name == "" || name == "." || name == ".." || ProperName(name)
    ensures !ProperName("") && !ProperName(".") && !ProperName("..")
  {
    LastName(s);
  }

  lemma TooLongIs(s: string, target: string)
    requires |s| > 1
    ensures TooLong(s, target) <==> (target == "" || target[0] != SLASH) && NameStart(s) + |target| >= MAXPATHLEN - 1
  {
  }

  lemma UpStoresNothing(r: Outcome, fs: FileSystem, s: string, links: nat, mode: Mode)
    requires links <= LINK_MAX && r == Resolve(fs, s, links, mode, true)
    ensures Up(r).Done? ==> Up(r).dir == None
  {
    hide Resolve;
    ResolveCanonical(fs, s, links, mode, true);
  }

  lemma BehindStores(r: Outcome, name: string, dir: Option<bool>)
    ensures Behind(r, name, dir).Done? ==> Behind(r, name, dir).dir == dir
  {
  }

  /** A path whose links end at a file never resolves as a directory. */
  lemma {:induction false} FileIsNoDirectory(fs: FileSystem, s: string, fuel: nat, links: nat, mode: Mode)
    requires links <= LINK_MAX && mode != Expand && EndWithin(fs, s, fuel) == AtFile
    ensures Resolve(fs, s, links, mode, true).Fail?
    decreases LINK_MAX - links, |s|
  {
    hide NameStart; hide Target; hide TooLong; hide ProperName; hide Resolve;
    var name, before := s[NameStart(s)..], s[..NameStart(s) - 1];
    LastIs(s);
    if name == "" || name == "." {
      ResolveDotsCases(fs, s, links, mode, true);
      FileIsNoDirectory(fs, before, fuel, links, mode);
    } else {
      ResolveNameCases(fs, s, links, mode, true);
      if fs.lstat(s) == Link && links < LINK_MAX {
        FileIsNoDirectory(fs, Target(s, fs.readlink(s).value), fuel - 1, links + 1, mode);
      }
    }
  }

  /** Unless its links end at a file it does not matter whether a directory is asked for. */
  lemma {:induction false} AskedAsDirectory(fs: FileSystem, s: string, links: nat, mode: Mode, isDir: bool)
    requires links <= LINK_MAX && mode != Expand && Resolve(fs, s, links, mode, isDir).Done? && EndOf(fs, s) != AtFile
    ensures Resolve(fs, s, links, mode, true) == Resolve(fs, s, links, mode, isDir)
    decreases LINK_MAX - links, |s|
  {
    hide Resolve; hide NameStart; hide Target; hide TooLong; hide ProperName; hide EndOf; hide Behind;
    if |s| <= 1 {
      RootResolves(fs, s, links, mode, isDir);
      RootResolves(fs, s, links, mode, true);
    } else {
      var name, before := s[NameStart(s)..], s[..NameStart(s) - 1];
      LastIs(s);
      ResolveDotsCases(fs, s, links, mode, isDir);
      ResolveDotsCases(fs, s, links, mode, true);
      if ProperName(name) {
        ResolveNameCases(fs, s, links, mode, isDir);
        ResolveNameCases(fs, s, links, mode, true);
        EndOfCases(fs, s);
        if fs.lstat(s) == Link {
          var target := Target(s, fs.readlink(s).value);
          TooLongIs(s, fs.readlink(s).value);
          FlagIsEnd(fs, target, links + 1, mode, isDir);
          EndOfLink(fs, s);
          AskedAsDirectory(fs, target, links + 1, mode, isDir);
        }
      }
    }
  }

  ghost predicate Resolves(fs: FileSystem, s: string) {
    exists links: nat, mode, isDir :: links <= LINK_MAX && mode != Expand && Resolve(fs, s, links, mode, isDir).Done?
  }

  ghost predicate NeverDirectory(fs: FileSystem, s: string) {
    forall links: nat, mode :: links <= LINK_MAX && mode != Expand ==> Resolve(fs, s, links, mode, true).Fail?
  }

  /** A path that resolves at all is refused as a directory exactly when its links end at
      a file. */
  lemma NeverDirectoryExactly(fs: FileSystem, s: string)
    requires Resolves(fs, s)
    ensures NeverDirectory(fs, s) <==> EndOf(fs, s) == AtFile
  {
    hide Resolve; hide EndOf; hide EndWithin;
    if EndOf(fs, s) == AtFile {
      var fuel := FuelOf(fs, s);
      forall links: nat, mode | links <= LINK_MAX && mode != Expand
        ensures Resolve(fs, s, links, mode, true).Fail?
      {
        FileIsNoDirectory(fs, s, fuel, links, mode);
      }
    } else {
      var links: nat, mode, isDir :| links <= LINK_MAX && mode != Expand && Resolve(fs, s, links, mode, isDir).Done?;
      AskedAsDirectory(fs, s, links, mode, isDir);
    }
  }

  lemma FuelOf(fs: FileSystem, s: string) returns (fuel: nat)
    requires EndOf(fs, s) != Broken
    ensures EndWithin(fs, s, fuel) == EndOf(fs, s)
  {
    hide EndWithin;
    fuel :| Ends(fs, s, fuel);
    EndOfIs(fs, s, fuel);
  }

  /** No link that resolves leads to the root, to ".." or to nothing. */
  ghost predicate LinksLand(fs: FileSystem) {
    forall s :: InBuffer(s) && IsLink(fs, s) && Resolves(fs, s) ==> EndOf(fs, s) != AtDots && EndOf(fs, s) != AtMissing
  }

  predicate IsLink(fs: FileSystem, s: string) {
    |s| > 1 && ProperName(s[NameStart(s)..]) && fs.lstat(s) == Link
  }
}
