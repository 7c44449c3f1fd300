/** Where a path leads: the places that a resolution visits from its end to the root, what
    stops it there, and the name that it leaves. */
module Routes {
  import opened Options
  import opened Paths
  import opened Resolver

  /** The last component of a path, and what is before its slash. */
  function LastOf(s: string): string
    requires |s| > 1
  {
    s[NameStart(s)..]
  }

  function DirOf(s: string): string
    requires |s| > 1
  {
    s[..NameStart(s) - 1]
  }

  /** The path ends with a name, and that is no link. */
  predicate IsPlain(fs: FileSystem, s: string) {
    |s| > 1 && ProperName(LastOf(s)) && fs.lstat(s) != Link
  }

  /** From a link one goes to its target, seen from its directory if it is relative, and
      from anything else to what is before the last slash. */
  ghost predicate Goes(fs: FileSystem, s: string, s': string) {
    && |s| > 1
    && if IsLink(fs, s) then
         && fs.readlink(s).Some?
         && var target := fs.readlink(s).value;
         if target != "" && target[0] == SLASH then s' == target
         else s' == DirOf(s) + [SLASH] + target && |s'| < MAXPATHLEN - 1
       else s' == DirOf(s)
  }

  /** A way to the root. */
  ghost predicate Route(fs: FileSystem, v: seq<string>) {
    |v| > 0 && |v[|v| - 1]| <= 1 && forall i :: 0 <= i < |v| - 1 ==> Goes(fs, v[i], v[i + 1])
  }

  /** The components met on the way, from the root on. */
  function Met(fs: FileSystem, v: seq<string>): seq<string> {
    if |v| == 0 then [] else Met(fs, v[1..]) + if |v[0]| <= 1 || IsLink(fs, v[0]) then [] else [LastOf(v[0])]
  }

  function LinksOn(fs: FileSystem, v: seq<string>): nat {
    if |v| == 0 then 0 else LinksOn(fs, v[1..]) + if IsLink(fs, v[0]) then 1 else 0
  }

  /** The name that the way leaves. */
  function Place(fs: FileSystem, v: seq<string>): string {
    Join(Normalise(Met(fs, v)))
  }

  /** In CWD_REALPATH the first name that is no link exists. */
  ghost predicate FirstExists(fs: FileSystem, v: seq<string>) {
    forall i :: 0 <= i < |v| && IsPlain(fs, v[i]) && (forall j :: 0 <= j < i ==> !IsPlain(fs, v[j])) ==> fs.lstat(v[i]) != Missing
  }

  /** A file is met only at the start or where links lead from there, and not when a
      directory is asked for. */
  ghost predicate FilesLast(fs: FileSystem, v: seq<string>, isDir: bool) {
    forall i :: 0 <= i < |v| && IsPlain(fs, v[i]) && fs.lstat(v[i]) == File ==> !isDir && forall j :: 0 <= j < i ==> IsLink(fs, v[j])
  }

  /** Every directory on the way, with a name behind it, fits the buffer. */
  ghost predicate AllFit(fs: FileSystem, v: seq<string>) {
    forall i :: 0 <= i < |v| && IsPlain(fs, v[i]) ==> |Place(fs, v[i..])| < MAXPATHLEN - 1
  }

  ghost predicate Passable(fs: FileSystem, v: seq<string>, links: nat, mode: Mode, isDir: bool) {
    && links + LinksOn(fs, v) <= LINK_MAX && (mode == RealPath ==> FirstExists(fs, v))
    && FilesLast(fs, v, isDir) && AllFit(fs, v)
  }

  /** `q` is where `s` leads, if nothing is in the way. */
  ghost predicate Leads(fs: FileSystem, s: string, q: string) {
    exists v :: Route(fs, v) && v[0] == s && q == Place(fs, v)
  }

  /** `s` leads to `q`, and nothing is in the way. */
  ghost predicate Reaches(fs: FileSystem, s: string, links: nat, mode: Mode, isDir: bool, q: string) {
    exists v :: Route(fs, v) && v[0] == s && Passable(fs, v, links, mode, isDir) && q == Place(fs, v)
  }

  // ---- one step more at the start ----

  lemma RouteCons(fs: FileSystem, s: string, v: seq<string>)
    requires Route(fs, v) && Goes(fs, s, v[0])
    ensures Route(fs, [s] + v) && ([s] + v)[0] == s && ([s] + v)[1..] == v
  {
    hide Goes;
    var w := [s] + v;
    forall i | 0 <= i < |w| - 1
      ensures Goes(fs, w[i], w[i + 1])
    {
      if i > 0 {
        assert Goes(fs, v[i - 1], v[i]);
      }
    }
  }

  lemma RouteTail(fs: FileSystem, v: seq<string>)
    requires Route(fs, v) && |v| > 1
    ensures Route(fs, v[1..]) && Goes(fs, v[0], v[1])
  {
    hide Goes;
    forall i | 0 <= i < |v[1..]| - 1
      ensures Goes(fs, v[1..][i], v[1..][i + 1])
    {
      assert Goes(fs, v[i + 1], v[i + 2]);
    }
  }

  lemma PlaceCons(fs: FileSystem, v: seq<string>)
    requires |v| > 1 && |v[0]| > 1
    ensures IsLink(fs, v[0]) ==> Place(fs, v) == Place(fs, v[1..])
    ensures !IsLink(fs, v[0]) ==> Normalise(Met(fs, v)) == PushComponent(Normalise(Met(fs, v[1..])), LastOf(v[0]))
  {
    hide IsLink; hide PushComponent;
    var m := Met(fs, v[1..]);
    if IsLink(fs, v[0]) {
      assert Met(fs, v) == m + [] == m;
    } else {
      assert (m + [LastOf(v[0])])[..|m|] == m;
    }
  }

  lemma {:induction false} MetProper(fs: FileSystem, v: seq<string>)
    ensures forall c :: c in Met(fs, v) ==> SLASH !in c
  {
    if |v| > 0 {
      MetProper(fs, v[1..]);
    }
  }

  /** What a step adds to the name, for what Resolve's helpers make of it. */
  lemma PlaceSteps(fs: FileSystem, v: seq<string>)
    requires |v| > 1 && |v[0]| > 1 && !IsLink(fs, v[0])
    ensures var n := LastOf(v[0]);
      && (n == "" || n == "." ==> Place(fs, v) == Place(fs, v[1..]))
      && (n == ".." ==> Place(fs, v) == Parent(Place(fs, v[1..])))
      && (ProperName(n) ==> Place(fs, v) == Slashed(Place(fs, v[1..])) + n)
  {
    hide IsLink; hide Parent; hide Slashed; hide Met;
    PlaceCons(fs, v);
    var stack := Normalise(Met(fs, v[1..]));
    MetProper(fs, v[1..]);
    NormaliseProper(Met(fs, v[1..]));
    ParentOfJoin(stack);
    JoinLast(stack, LastOf(v[0]));
    hide Normalise; hide Join;
  }

  // ---- what stops a resolution, step by step ----

  lemma FirstExistsCons(fs: FileSystem, s: string, v: seq<string>)
    ensures FirstExists(fs, [s] + v) <==> if IsPlain(fs, s) then fs.lstat(s) != Missing else FirstExists(fs, v)
  {
    hide IsPlain;
    var w := [s] + v;
    assert w[0] == s;
    assert forall i :: 0 <= i < |v| ==> w[i + 1] == v[i];
    if IsPlain(fs, s) {
      assert FirstExists(fs, w) ==> fs.lstat(w[0]) != Missing;
    } else {
      if FirstExists(fs, w) {
        forall i | 0 <= i < |v| && IsPlain(fs, v[i]) && (forall j :: 0 <= j < i ==> !IsPlain(fs, v[j]))
          ensures fs.lstat(v[i]) != Missing
        {
          forall j | 0 <= j < i + 1
            ensures !IsPlain(fs, w[j])
          {
            assert j > 0 ==> w[j] == v[j - 1];
          }
          assert w[i + 1] == v[i];
        }
      }
      if FirstExists(fs, v) {
        forall i | 0 <= i < |w| && IsPlain(fs, w[i]) && (forall j :: 0 <= j < i ==> !IsPlain(fs, w[j]))
          ensures fs.lstat(w[i]) != Missing
        {
          assert w[i] == v[i - 1];
          forall j | 0 <= j < i - 1
            ensures !IsPlain(fs, v[j])
          {
            assert w[j + 1] == v[j];
          }
        }
      }
    }
  }

  lemma FilesLastCons(fs: FileSystem, s: string, v: seq<string>, isDir: bool)
    ensures FilesLast(fs, [s] + v, isDir) <==>
      (IsPlain(fs, s) && fs.lstat(s) == File ==> !isDir) && FilesLast(fs, v, isDir || !IsLink(fs, s))
  {
    hide IsPlain; hide IsLink;
    var w := [s] + v;
    assert w[0] == s;
    if FilesLast(fs, w, isDir) {
      forall i | 0 <= i < |v| && IsPlain(fs, v[i]) && fs.lstat(v[i]) == File
        ensures !isDir && IsLink(fs, s) && forall j :: 0 <= j < i ==> IsLink(fs, v[j])
      {
        assert w[i + 1] == v[i];
        assert forall j :: 0 <= j < i ==> w[j + 1] == v[j];
      }
    }
    if (IsPlain(fs, s) && fs.lstat(s) == File ==> !isDir) && FilesLast(fs, v, isDir || !IsLink(fs, s)) {
      forall i | 0 <= i < |w| && IsPlain(fs, w[i]) && fs.lstat(w[i]) == File
        ensures !isDir && forall j :: 0 <= j < i ==> IsLink(fs, w[j])
      {
        if i > 0 {
          assert w[i] == v[i - 1];
          assert forall j :: 0 < j < i ==> w[j] == v[j - 1];
        }
      }
    }
  }

  lemma AllFitCons(fs: FileSystem, s: string, v: seq<string>)
    ensures AllFit(fs, [s] + v) <==> (IsPlain(fs, s) ==> |Place(fs, [s] + v)| < MAXPATHLEN - 1) && AllFit(fs, v)
  {
    hide IsPlain; hide Place;
    var w := [s] + v;
    assert w[0] == s && w[0..] == w;
    assert forall i :: 0 <= i < |v| ==> w[i + 1] == v[i] && w[i + 1..] == v[i..];
    if AllFit(fs, w) {
      forall i | 0 <= i < |v| && IsPlain(fs, v[i])
        ensures |Place(fs, v[i..])| < MAXPATHLEN - 1
      {
        assert w[i + 1] == v[i] && w[i + 1..] == v[i..];
      }
    }
    if (IsPlain(fs, s) ==> |Place(fs, w)| < MAXPATHLEN - 1) && AllFit(fs, v) {
      forall i | 0 <= i < |w| && IsPlain(fs, w[i])
        ensures |Place(fs, w[i..])| < MAXPATHLEN - 1
      {
        if i > 0 {
          assert w[i] == v[i - 1] && w[i..] == v[i - 1..];
        }
      }
    }
  }

  lemma PassableCons(fs: FileSystem, s: string, v: seq<string>, links: nat, mode: Mode, isDir: bool)
    requires mode != Expand
    ensures Passable(fs, [s] + v, links, mode, isDir) <==>
      if IsLink(fs, s) then Passable(fs, v, links + 1, mode, isDir)
      else if IsPlain(fs, s) then
        && (fs.lstat(s) == Missing ==> mode != RealPath) && (fs.lstat(s) == File ==> !isDir)
        && |Place(fs, [s] + v)| < MAXPATHLEN - 1 && Passable(fs, v, links, FilePath, true)
      else Passable(fs, v, links, mode, true)
  {
    hide FirstExists; hide FilesLast; hide AllFit; hide Place;
    assert ([s] + v)[1..] == v;
    FirstExistsCons(fs, s, v);
    FilesLastCons(fs, s, v, isDir);
    AllFitCons(fs, s, v);
  }

  // ---- resolution is the way to the root ----

  lemma GoesIs(fs: FileSystem, s: string)
    requires |s| > 1
    ensures !IsLink(fs, s) ==> Goes(fs, s, s[..NameStart(s) - 1])
    ensures IsLink(fs, s) && fs.readlink(s).Some? && !TooLong(s, fs.readlink(s).value) ==> Goes(fs, s, Target(s, fs.readlink(s).value))
    ensures forall s' :: Goes(fs, s, s') && !IsLink(fs, s) ==> s' == s[..NameStart(s) - 1]
    ensures forall s' :: Goes(fs, s, s') && IsLink(fs, s) ==>
      fs.readlink(s).Some? && !TooLong(s, fs.readlink(s).value) && s' == Target(s, fs.readlink(s).value)
  {
  }

  /** What resolves has a way to the root with nothing in it, and leaves its name. */
  lemma {:induction false} RouteOf(fs: FileSystem, s: string, links: nat, mode: Mode, isDir: bool) returns (v: seq<string>)
    requires links <= LINK_MAX && mode != Expand && Resolve(fs, s, links, mode, isDir).Done?
    ensures Route(fs, v) && v[0] == s && Passable(fs, v, links, mode, isDir)
    ensures var r := Resolve(fs, s, links, mode, isDir); r.path == Place(fs, v) && r.links == links + LinksOn(fs, v)
    decreases LINK_MAX - links, |s|
  {
    hide Resolve; hide NameStart; hide Target; hide TooLong; hide ProperName; hide Goes; hide Passable; hide Route; hide Place;
    if |s| <= 1 {
      RootResolves(fs, s, links, mode, isDir);
      v := [s];
      RootRoute(fs, s, links, mode, isDir);
    } else {
      LastIs(s);
      GoesIs(fs, s);
      var w;
      if ProperName(s[NameStart(s)..]) {
        ResolveNameCases(fs, s, links, mode, isDir);
        if fs.lstat(s) == Link {
          TooLongIs(s, fs.readlink(s).value);
          w := RouteOf(fs, Target(s, fs.readlink(s).value), links + 1, mode, isDir);
        } else {
          w := RouteOf(fs, s[..NameStart(s) - 1], links, if fs.lstat(s) == Missing then mode else FilePath, true);
        }
      } else {
        ResolveDotsCases(fs, s, links, mode, isDir);
        ResolveCanonical(fs, s[..NameStart(s) - 1], links, mode, true);
        w := RouteOf(fs, s[..NameStart(s) - 1], links, mode, true);
      }
      v := [s] + w;
      Longer(fs, s, w);
      RouteCons(fs, s, w);
      PassableCons(fs, s, w, links, mode, isDir);
    }
  }

  lemma RootRoute(fs: FileSystem, s: string, links: nat, mode: Mode, isDir: bool)
    requires |s| <= 1 && links <= LINK_MAX
    ensures Route(fs, [s]) && Passable(fs, [s], links, mode, isDir) && Place(fs, [s]) == [SLASH] && LinksOn(fs, [s]) == 0
  {
    assert [s][1..] == [] && Met(fs, [s]) == [] + [];
  }

  /** The name and the links of a way with one step more. */
  lemma Longer(fs: FileSystem, s: string, w: seq<string>)
    requires Route(fs, w) && |s| > 1
    ensures var v := [s] + w;
      && LinksOn(fs, v) == LinksOn(fs, w) + (if IsLink(fs, s) then 1 else 0)
      && (IsLink(fs, s) ==> Place(fs, v) == Place(fs, w))
      && (!IsLink(fs, s) ==>
            && (LastOf(s) == "" || LastOf(s) == "." ==> Place(fs, v) == Place(fs, w))
            && (LastOf(s) == ".." ==> Place(fs, v) == Parent(Place(fs, w)))
            && (ProperName(LastOf(s)) ==> Place(fs, v) == Slashed(Place(fs, w)) + LastOf(s)))
  {
    hide IsLink; hide Parent; hide Slashed; hide Place; hide ProperName; hide NameStart;
    var v := [s] + w;
    assert v[0] == s && v[1..] == w;
    if IsLink(fs, s) {
      PlaceCons(fs, v);
    } else {
      PlaceSteps(fs, v);
    }
  }

  /** And a way to the root with nothing in it is resolved. */
  lemma {:induction false} RouteResolves(fs: FileSystem, v: seq<string>, links: nat, mode: Mode, isDir: bool)
    requires links <= LINK_MAX && mode != Expand && Route(fs, v) && Passable(fs, v, links, mode, isDir)
    ensures Resolve(fs, v[0], links, mode, isDir).Done? && Resolve(fs, v[0], links, mode, isDir).path == Place(fs, v)
  {
    hide Resolve; hide NameStart; hide Target; hide TooLong; hide ProperName; hide Goes; hide Passable; hide Place; hide Parent;
    var s := v[0];
    if |v| == 1 {
      RootResolves(fs, s, links, mode, isDir);
      assert v == [s];
      RootRoute(fs, s, links, mode, isDir);
    } else {
      var w := v[1..];
      assert v == [s] + w;
      RouteTail(fs, v);
      GoesLong(fs, s, w[0]);
      GoesIs(fs, s);
      LastIs(s);
      PassableCons(fs, s, w, links, mode, isDir);
      Longer(fs, s, w);
      if ProperName(s[NameStart(s)..]) {
        ResolveNameCases(fs, s, links, mode, isDir);
        if fs.lstat(s) == Link {
          TooLongIs(s, fs.readlink(s).value);
          PassableLinks(fs, w, links + 1, mode, isDir);
          RouteResolves(fs, w, links + 1, mode, isDir);
        } else {
          RouteResolves(fs, w, links, FilePath, true);
        }
      } else {
        ResolveDotsCases(fs, s, links, mode, isDir);
        RouteResolves(fs, w, links, mode, true);
        ResolveCanonical(fs, w[0], links, mode, true);
      }
    }
  }

  lemma GoesLong(fs: FileSystem, s: string, s': string)
    requires Goes(fs, s, s')
    ensures |s| > 1
  {
  }

  lemma PassableLinks(fs: FileSystem, v: seq<string>, links: nat, mode: Mode, isDir: bool)
    requires Passable(fs, v, links, mode, isDir)
    ensures links <= LINK_MAX
  {
  }

  /** A resolution succeeds with `q` exactly when its path leads there with nothing in the way. */
  lemma ResolvesExactly(fs: FileSystem, s: string, links: nat, mode: Mode, isDir: bool, q: string)
    requires links <= LINK_MAX && mode != Expand
    ensures (Resolve(fs, s, links, mode, isDir).Done? && Resolve(fs, s, links, mode, isDir).path == q)
      <==> Reaches(fs, s, links, mode, isDir, q)
  {
    hide Resolve; hide Goes; hide Passable; hide Place;
    if Resolve(fs, s, links, mode, isDir).Done? {
      var v := RouteOf(fs, s, links, mode, isDir);
    }
    if Reaches(fs, s, links, mode, isDir, q) {
      var v :| Route(fs, v) && v[0] == s && Passable(fs, v, links, mode, isDir) && q == Place(fs, v);
      RouteResolves(fs, v, links, mode, isDir);
    }
  }

  // ---- there is one way only ----

  lemma GoesOnce(fs: FileSystem, s: string, a: string, b: string)
    requires Goes(fs, s, a) && Goes(fs, s, b)
    ensures a == b
  {
  }

  lemma {:induction false} RouteUnique(fs: FileSystem, v: seq<string>, w: seq<string>)
    requires Route(fs, v) && Route(fs, w) && v[0] == w[0]
    ensures v == w
  {
    hide Goes;
    if |v| > 1 {
      RouteTail(fs, v);
      GoesLong(fs, v[0], v[1]);
    }
    if |w| > 1 {
      RouteTail(fs, w);
      GoesLong(fs, w[0], w[1]);
    }
    if |v| > 1 && |w| > 1 {
      GoesOnce(fs, v[0], v[1], w[1]);
      RouteUnique(fs, v[1..], w[1..]);
      assert v == [v[0]] + v[1..] && w == [w[0]] + w[1..];
    }
  }

  lemma LeadsOnce(fs: FileSystem, s: string, q: string, q': string)
    requires Leads(fs, s, q) && Leads(fs, s, q')
    ensures q == q'
  {
    hide Goes; hide Place;
    var v :| Route(fs, v) && v[0] == s && q == Place(fs, v);
    var w :| Route(fs, w) && w[0] == s && q' == Place(fs, w);
    RouteUnique(fs, v, w);
  }

  /** Where a path leads is what all its resolutions that succeed come to. */
  lemma LeadsAgrees(fs: FileSystem, s: string, q: string)
    requires Leads(fs, s, q)
    ensures Agrees(fs, s, q)
  {
    hide Resolve; hide Route; hide Place; hide Passable;
    forall links: nat, mode, isDir | links <= LINK_MAX && mode != Expand && Resolve(fs, s, links, mode, isDir).Done?
      ensures Resolve(fs, s, links, mode, isDir).path == q
    {
      var v := RouteOf(fs, s, links, mode, isDir);
      assert Leads(fs, s, Place(fs, v));
      LeadsOnce(fs, s, q, Place(fs, v));
    }
  }

  lemma ResolvedLeads(fs: FileSystem, s: string, links: nat, mode: Mode, isDir: bool)
    requires links <= LINK_MAX && mode != Expand && Resolve(fs, s, links, mode, isDir).Done?
    ensures Leads(fs, s, Resolve(fs, s, links, mode, isDir).path)
  {
    hide Resolve; hide Route; hide Place; hide Passable;
    var v := RouteOf(fs, s, links, mode, isDir);
  }

  // ---- where a path leads, step by step ----

  lemma RootLeads(fs: FileSystem, s: string)
    requires |s| <= 1
    ensures Leads(fs, s, [SLASH])
  {
    RootRoute(fs, s, 0, FilePath, false);
    assert [s][0] == s;
  }

  lemma LinkLeads(fs: FileSystem, s: string, q: string)
    requires IsLink(fs, s) && fs.readlink(s).Some? && !TooLong(s, fs.readlink(s).value)
    requires Leads(fs, Target(s, fs.readlink(s).value), q)
    ensures Leads(fs, s, q)
  {
    hide Place; hide Target; hide TooLong; hide Goes; hide NameStart;
    var w :| Route(fs, w) && w[0] == Target(s, fs.readlink(s).value) && q == Place(fs, w);
    GoesIs(fs, s);
    RouteCons(fs, s, w);
    Longer(fs, s, w);
  }

  lemma NameLeads(fs: FileSystem, s: string, q: string)
    requires |s| > 1 && !IsLink(fs, s) && Leads(fs, s[..NameStart(s) - 1], q)
    ensures s[NameStart(s)..] == "" || s[NameStart(s)..] == "." ==> Leads(fs, s, q)
    ensures s[NameStart(s)..] == ".." ==> Leads(fs, s, Parent(q))
    ensures ProperName(s[NameStart(s)..]) ==> Leads(fs, s, Slashed(q) + s[NameStart(s)..])
  {
    hide Place; hide Goes; hide NameStart; hide Parent; hide ProperName; hide IsLink;
    var w :| Route(fs, w) && w[0] == s[..NameStart(s) - 1] && q == Place(fs, w);
    GoesIs(fs, s);
    RouteCons(fs, s, w);
    Longer(fs, s, w);
  }

  // ---- without links ----

  /** A prefix of `s` that ends with a name. */
  predicate NamedAt(s: string, i: int) {
    1 < i <= |s| && (i == |s| || s[i] == SLASH) && ProperName(LastOf(s[..i]))
  }

  /** No prefix of `s` is a link. */
  ghost predicate NoLinks(fs: FileSystem, s: string) {
    forall i :: NamedAt(s, i) ==> fs.lstat(s[..i]) != Link
  }

  /** The longest prefix with a name exists. */
  ghost predicate LastNameExists(fs: FileSystem, s: string) {
    forall i :: NamedAt(s, i) && (forall k :: NamedAt(s, k) ==> k <= i) ==> fs.lstat(s[..i]) != Missing
  }

  /** No prefix is a file, but `s` itself may be one when no directory is asked for. */
  ghost predicate OnlyLastFile(fs: FileSystem, s: string, isDir: bool) {
    forall i :: NamedAt(s, i) && fs.lstat(s[..i]) == File ==> i == |s| && !isDir
  }

  lemma NamedBefore(s: string)
    requires |s| > 1 && s[0] == SLASH
    ensures var b := s[..NameStart(s) - 1];
      && (b == "" || b[0] == SLASH)
      && (forall i :: NamedAt(b, i) ==> i <= |b| && NamedAt(s, i) && s[..i] == b[..i])
      && (forall i :: NamedAt(s, i) && i <= |b| ==> NamedAt(b, i) && s[..i] == b[..i])
      && (forall i :: NamedAt(s, i) ==> i <= |b| || i == |s|)
    ensures NamedAt(s, |s|) <==> ProperName(s[NameStart(s)..])
  {
    hide ProperName;
    var b := s[..NameStart(s) - 1];
    assert s[..|s|] == s;
    forall i | 1 < i <= |b|
      ensures s[..i] == b[..i]
    {
    }
  }

  lemma NoLinksBefore(fs: FileSystem, s: string)
    requires |s| > 1 && s[0] == SLASH && NoLinks(fs, s)
    ensures NoLinks(fs, s[..NameStart(s) - 1])
    ensures ProperName(s[NameStart(s)..]) ==> fs.lstat(s) != Link
  {
    hide ProperName; hide NamedAt;
    NamedBefore(s);
    assert s[..|s|] == s;
  }

  lemma OnlyLastFileBefore(fs: FileSystem, s: string, isDir: bool)
    requires |s| > 1 && s[0] == SLASH
    ensures OnlyLastFile(fs, s, isDir) <==>
      OnlyLastFile(fs, s[..NameStart(s) - 1], true) && (ProperName(s[NameStart(s)..]) && fs.lstat(s) == File ==> !isDir)
  {
    hide ProperName; hide NamedAt;
    NamedBefore(s);
    assert s[..|s|] == s;
  }

  lemma LastNameBefore(fs: FileSystem, s: string)
    requires |s| > 1 && s[0] == SLASH
    ensures LastNameExists(fs, s) <==>
      if ProperName(s[NameStart(s)..]) then fs.lstat(s) != Missing else LastNameExists(fs, s[..NameStart(s) - 1])
  {
    hide ProperName; hide NamedAt;
    NamedBefore(s);
    assert s[..|s|] == s;
    var b := s[..NameStart(s) - 1];
    if !ProperName(s[NameStart(s)..]) {
      assert forall i :: NamedAt(s, i) <==> NamedAt(b, i);
    } else {
      assert forall k :: NamedAt(s, k) ==> k <= |s|;
    }
  }

  /** Without links on the way a resolution is the normalisation of the components, and it
      succeeds exactly when no prefix is a file, but the whole path may be one unless a
      directory is asked for, and in CWD_REALPATH the last name exists. */
  lemma {:induction false} PlainResolvesExactly(fs: FileSystem, s: string, links: nat, mode: Mode, isDir: bool)
    requires links <= LINK_MAX && mode != Expand && |s| < MAXPATHLEN - 1 && (s == "" || s[0] == SLASH) && NoLinks(fs, s)
    ensures Resolve(fs, s, links, mode, isDir).Done? <==> OnlyLastFile(fs, s, isDir) && (mode == RealPath ==> LastNameExists(fs, s))
    ensures var r := Resolve(fs, s, links, mode, isDir); r.Done? ==> r.path == Normal(s) && r.links == links
    decreases |s|
  {
    hide Resolve; hide NameStart; hide ProperName; hide NoLinks; hide OnlyLastFile; hide LastNameExists; hide Parent; hide Normal;
    if |s| <= 1 {
      RootResolves(fs, s, links, mode, isDir);
      NothingNamed(fs, s, isDir);
    } else {
      var before := s[..NameStart(s) - 1];
      LastIs(s);
      NamedBefore(s);
      NoLinksBefore(fs, s);
      OnlyLastFileBefore(fs, s, isDir);
      LastNameBefore(fs, s);
      NormalLength(fs, s);
      NormalSteps(before, s);
      if ProperName(s[NameStart(s)..]) {
        ResolveNameCases(fs, s, links, mode, isDir);
        PlainResolvesExactly(fs, before, links, if fs.lstat(s) == Missing then mode else FilePath, true);
      } else {
        ResolveDotsCases(fs, s, links, mode, isDir);
        PlainResolvesExactly(fs, before, links, mode, true);
        ResolveCanonical(fs, before, links, mode, true);
      }
    }
  }

  lemma NormalLength(fs: FileSystem, s: string)
    requires 0 < |s| < MAXPATHLEN - 1
    ensures |Normal(s)| <= |s|
  {
    ExpandNormalises(fs, s, 0, false);
    hide Resolve;
  }

  lemma NormalSteps(before: string, s: string)
    requires |s| > 1 && before == s[..NameStart(s) - 1]
    ensures var name := s[NameStart(s)..];
      && (name == "" || name == "." ==> Normal(s) == Normal(before))
      && (name == ".." ==> Normal(s) == Parent(Normal(before)))
      && (ProperName(name) ==> Normal(s) == Slashed(Normal(before)) + name)
  {
    hide Parent; hide Normalise; hide Components; hide NameStart; hide Join; hide AllProper; hide Slashed; hide ProperName;
    NormaliseLast(before, s);
    NoSlashInside(before);
    NormaliseProper(Components(before));
    ParentOfJoin(Normalise(Components(before)));
    JoinLast(Normalise(Components(before)), s[NameStart(s)..]);
  }

  lemma NothingNamed(fs: FileSystem, s: string, isDir: bool)
    requires |s| <= 1
    ensures OnlyLastFile(fs, s, isDir) && LastNameExists(fs, s) && Normal(s) == [SLASH]
  {
  }

  /** Without links a path leads to the normalisation of its components. */
  lemma {:induction false} PlainLeads(fs: FileSystem, s: string)
    requires (s == "" || s[0] == SLASH) && NoLinks(fs, s)
    ensures Leads(fs, s, Normal(s))
    decreases |s|
  {
    hide NameStart; hide ProperName; hide NoLinks; hide Parent; hide Normal; hide Leads;
    if |s| <= 1 {
      RootLeads(fs, s);
      NothingNamed(fs, s, false);
    } else {
      var name, before := s[NameStart(s)..], s[..NameStart(s) - 1];
      LastIs(s);
      NamedBefore(s);
      NoLinksBefore(fs, s);
      PlainLeads(fs, before);
      NameLeads(fs, s, Normal(before));
      NormalSteps(before, s);
    }
  }

  /** Something is in the way of every resolution of `s` in this mode. */
  ghost predicate Blocked(fs: FileSystem, s: string, mode: Mode) {
    mode != Expand && forall q :: !Reaches(fs, s, 0, mode, false, q)
  }

  lemma FailIsBlocked(fs: FileSystem, s: string, mode: Mode)
    requires |s| < MAXPATHLEN - 1
    ensures Resolve(fs, s, 0, mode, false).Fail? <==> Blocked(fs, s, mode)
  {
    hide Resolve; hide Reaches;
    if mode == Expand {
      ExpandNormalises(fs, s, 0, false);
    } else {
      forall q
        ensures (Resolve(fs, s, 0, mode, false).Done? && Resolve(fs, s, 0, mode, false).path == q) <==> Reaches(fs, s, 0, mode, false, q)
      {
        ResolvesExactly(fs, s, 0, mode, false, q);
      }
      if Resolve(fs, s, 0, mode, false).Done? {
        assert Reaches(fs, s, 0, mode, false, Resolve(fs, s, 0, mode, false).path);
      }
    }
  }

  // ---- joining ----

  /** The components of a path behind a directory are those of both. */
  lemma {:induction false} ComponentsOfJoined(x: string, y: string)
    requires |y| > 0 && y[0] != SLASH
    ensures Components(x + [SLASH] + y) == Components(x) + Components([SLASH] + y)
    decreases |y|
  {
    hide NameStart; hide Components;
    var z, w := [SLASH] + y, x + [SLASH] + y;
    var k := NameStart(z);
    assert w == x + z;
    NameStartBehind(x, z);
    assert w[NameStart(w)..] == z[k..];
    LastComponent(z);
    LastComponent(w);
    if k == 1 {
      assert w[..NameStart(w) - 1] == x && z[..0] == "";
      NoComponents(z[..0]);
    } else {
      assert z[k - 1] == SLASH && z[1] == y[0];
      Front(x, y, k);
      ComponentsOfJoined(x, y[..k - 2]);
    }
  }

  lemma Front(x: string, y: string, k: nat)
    requires 2 <= k <= |y| + 1
    ensures ([SLASH] + y)[..k - 1] == [SLASH] + y[..k - 2]
    ensures (x + [SLASH] + y)[..|x| + k - 1] == x + [SLASH] + y[..k - 2]
  {
  }

  lemma NameStartBehind(x: string, z: string)
    requires |z| > 1 && z[0] == SLASH
    ensures NameStart(x + z) == |x| + NameStart(z)
  {
    var w := x + z;
    assert forall k :: 0 <= k < |z| ==> w[|x| + k] == z[k];
    NameStartIs(w, |x| + NameStart(z));
  }
}
