/** Extension modules: the dependency sort and the tables of request handlers
    (zend_API.c:1656-1739, 2270-2317). */
module Modules {
  datatype DepKind = Required | Conflicts | Optional

  datatype Dep = Dep(name: string, kind: DepKind)

  datatype Module = Module(name: string, started: bool, deps: seq<Dep>, requestStartup: bool, requestShutdown: bool, postDeactivate: bool)

  function LowerChar(c: char): char {
    if 'A' <= c <= 'Z' then (c as int + 32) as char else c
  }

  function Lower(s: string): string {
    if s == "" then "" else [LowerChar(s[0])] + Lower(s[1..])
  }

  /** strcasecmp(a, b) == 0. */
  predicate SameName(a: string, b: string) {
    Lower(a) == Lower(b)
  }

  /** The same letter, in whatever case, or the same character. */
  predicate SameLetter(c: char, d: char) {
    || c == d || ('A' <= c <= 'Z' && d as int == c as int + 32) || ('A' <= d <= 'Z' && c as int == d as int + 32)
  }

  ghost predicate SameLetters(a: string, b: string) {
    |a| == |b| && forall i :: 0 <= i < |a| ==> SameLetter(a[i], b[i])
  }

  /** Names are compared letter by letter, without case. */
  lemma {:induction false} SameNameExactly(a: string, b: string)
    ensures SameName(a, b) <==> SameLetters(a, b)
  {
    if a != "" && b != "" {
      SameNameExactly(a[1..], b[1..]);
      assert Lower(a)[0] == LowerChar(a[0]) && Lower(b)[0] == LowerChar(b[0]);
      assert Lower(a)[1..] == Lower(a[1..]) && Lower(b)[1..] == Lower(b[1..]);
      if SameLetters(a, b) {
        assert SameLetters(a[1..], b[1..]);
      }
      if SameLetter(a[0], b[0]) && SameLetters(a[1..], b[1..]) {
        forall i | 0 <= i < |a|
          ensures SameLetter(a[i], b[i])
        {
          if i > 0 {
            assert SameLetter(a[1..][i - 1], b[1..][i - 1]);
          }
        }
      }
    }
  }

  predicate Orders(d: Dep) {
    d.kind == Required || d.kind == Optional
  }

  /** `m`, not started yet, requires `r` or would like to find it. */
  predicate DependsOn(m: Module, r: Module) {
    !m.started && exists k :: 0 <= k < |m.deps| && Orders(m.deps[k]) && SameName(m.deps[k].name, r.name)
  }

  /** Dependencies on modules at other places lead down a rank; what a module says of itself
      does not matter. */
  ghost predicate Ranked(ms: seq<Module>, rank: Module -> nat) {
    forall i, j :: 0 <= i < |ms| && 0 <= j < |ms| && i != j && DependsOn(ms[i], ms[j]) ==> rank(ms[j]) < rank(ms[i])
  }

  ghost predicate Acyclic(ms: seq<Module>) {
    exists rank :: Ranked(ms, rank)
  }

  /** No module precedes one that it depends on. */
  ghost predicate Ordered(ms: seq<Module>) {
    OrderedUpTo(ms, |ms|)
  }

  ghost predicate OrderedUpTo(ms: seq<Module>, n: nat) {
    forall i, j :: 0 <= i < n && i < j < |ms| ==> !DependsOn(ms[i], ms[j])
  }

  /** Dependency `k` of module `b1` names module `b2`, and no dependency before it names a later
      module, nor does it name one between the two. */
  ghost predicate FirstLater(ms: seq<Module>, b1: nat, b2: nat, k: nat) {
    && b1 < b2 < |ms| && !ms[b1].started && k < |ms[b1].deps|
    && Orders(ms[b1].deps[k]) && SameName(ms[b1].deps[k].name, ms[b2].name)
    && (forall i, j :: 0 <= i < k && b1 < j < |ms| && Orders(ms[b1].deps[i]) ==> !SameName(ms[b1].deps[i].name, ms[j].name))
    && (forall j :: b1 < j < b2 ==> !SameName(ms[b1].deps[k].name, ms[j].name))
  }

  /** One round of the sort: a module changes places with the first later one that it depends
      on, or the next one is looked at. */
  ghost predicate SortStep(ms: seq<Module>, b1: nat, ms': seq<Module>, b1': nat) {
    && b1 < |ms|
    && if exists b2: nat, k: nat :: FirstLater(ms, b1, b2, k) then
         exists b2: nat, k: nat :: FirstLater(ms, b1, b2, k) && ms' == ms[b1 := ms[b2]][b2 := ms[b1]] && b1' == b1
       else ms' == ms && b1' == b1 + 1
  }

  /** From one registry to another in such rounds. */
  ghost predicate SortRun(states: seq<(seq<Module>, nat)>) {
    |states| > 0 && forall i :: 0 <= i < |states| - 1 ==> SortStep(states[i].0, states[i].1, states[i + 1].0, states[i + 1].1)
  }

  /** Such rounds lead from `ms0`, with the first module looked at, to `ms` with module `b1`. */
  ghost predicate SortsTo(ms0: seq<Module>, ms: seq<Module>, b1: nat) {
    exists states: seq<(seq<Module>, nat)> :: SortRun(states) && states[0] == (ms0, 0) && states[|states| - 1] == (ms, b1)
  }

  lemma RunStarts(ms: seq<Module>)
    ensures SortsTo(ms, ms, 0)
  {
    assert SortRun([(ms, 0)]);
  }

  lemma RunGrows(ms0: seq<Module>, ms: seq<Module>, b1: nat, ms': seq<Module>, b1': nat)
    requires SortsTo(ms0, ms, b1) && SortStep(ms, b1, ms', b1')
    ensures SortsTo(ms0, ms', b1')
  {
    hide SortStep;
    var states: seq<(seq<Module>, nat)> :| SortRun(states) && states[0] == (ms0, 0) && states[|states| - 1] == (ms, b1);
    var r := states + [(ms', b1')];
    forall i | 0 <= i < |r| - 1
      ensures SortStep(r[i].0, r[i].1, r[i + 1].0, r[i + 1].1)
    {
      if i < |states| - 1 {
        assert SortStep(states[i].0, states[i].1, states[i + 1].0, states[i + 1].1);
      }
    }
    assert SortRun(r);
  }

  lemma NoneLater(ms: seq<Module>, b1: nat)
    requires b1 < |ms| && forall j :: b1 < j < |ms| ==> !DependsOn(ms[b1], ms[j])
    ensures forall b2: nat, k: nat :: !FirstLater(ms, b1, b2, k)
  {
  }

  /** What is in order already stays as it is. */
  lemma {:induction false} OrderedStays(states: seq<(seq<Module>, nat)>)
    requires SortRun(states) && Ordered(states[0].0)
    ensures states[|states| - 1].0 == states[0].0
    decreases |states|
  {
    if |states| > 1 {
      var n := |states| - 1;
      var s := states[..n];
      forall i | 0 <= i < |s| - 1
        ensures SortStep(s[i].0, s[i].1, s[i + 1].0, s[i + 1].1)
      {
        assert SortStep(states[i].0, states[i].1, states[i + 1].0, states[i + 1].1);
      }
      OrderedStays(s);
      var last := states[n - 1];
      assert SortStep(last.0, last.1, states[n].0, states[n].1);
      NoneLater(last.0, last.1);
    }
    hide SortStep; hide DependsOn;
  }

  lemma OrderedSortsToItself(ms0: seq<Module>, ms: seq<Module>, b1: nat)
    requires SortsTo(ms0, ms, b1) && Ordered(ms0)
    ensures ms == ms0
  {
    hide SortStep; hide OrderedUpTo;
    var states: seq<(seq<Module>, nat)> :| SortRun(states) && states[0] == (ms0, 0) && states[|states| - 1] == (ms, b1);
    OrderedStays(states);
  }

  /** Ordered, in plain words: no module that is not started comes before one that it requires
      or would like, by a name without case. */
  lemma OrderedMeans(ms: seq<Module>)
    ensures Ordered(ms) <==> forall i, j, k ::
      (0 <= i < j < |ms| && !ms[i].started && 0 <= k < |ms[i].deps| && (ms[i].deps[k].kind == Required || ms[i].deps[k].kind == Optional)) ==>
        !SameLetters(ms[i].deps[k].name, ms[j].name)
  {
    forall i, j, k | 0 <= i < j < |ms| && 0 <= k < |ms[i].deps|
      ensures SameName(ms[i].deps[k].name, ms[j].name) <==> SameLetters(ms[i].deps[k].name, ms[j].name)
    {
      SameNameExactly(ms[i].deps[k].name, ms[j].name);
    }
    hide SameName; hide SameLetters;
    if Ordered(ms) {
      forall i, j, k | 0 <= i < j < |ms| && !ms[i].started && 0 <= k < |ms[i].deps|
        && (ms[i].deps[k].kind == Required || ms[i].deps[k].kind == Optional)
        ensures !SameLetters(ms[i].deps[k].name, ms[j].name)
      {
        assert !DependsOn(ms[i], ms[j]);
      }
    }
  }

  /** The two inner loops: the first later module that module `b1` depends on, by the
      order of its dependencies; `a.Length` if there is none. */
  method FindLater(a: array<Module>, b1: nat) returns (b2: nat)
    requires b1 < a.Length
    ensures b1 < b2 <= a.Length
    ensures b2 < a.Length ==> DependsOn(a[b1], a[b2]) && exists k: nat :: FirstLater(a[..], b1, b2, k)
    ensures b2 == a.Length ==> forall j :: b1 < j < a.Length ==> !DependsOn(a[b1], a[j])
  {
    var m := a[b1];
    if !m.started {
      var k := 0;
      while k < |m.deps|
        invariant 0 <= k <= |m.deps|
        invariant forall i, j :: 0 <= i < k && b1 < j < a.Length && Orders(m.deps[i]) ==> !SameName(m.deps[i].name, a[j].name)
      {
        if Orders(m.deps[k]) {
          b2 := b1 + 1;
          while b2 < a.Length
            invariant b1 < b2 <= a.Length
            invariant forall j :: b1 < j < b2 ==> !SameName(m.deps[k].name, a[j].name)
          {
            if SameName(m.deps[k].name, a[b2].name) {
              assert FirstLater(a[..], b1, b2, k);
              return;
            }
            b2 := b2 + 1;
          }
        }
        k := k + 1;
      }
    }
    b2 := a.Length;
  }

  /** zend_sort_modules: ends, with the same modules, dependencies first. */
  method ZendSortModules(a: array<Module>)
    requires Acyclic(a[..])
    modifies a
    ensures multiset(a[..]) == multiset(old(a[..]))
    ensures Ordered(a[..])
    ensures SortsTo(old(a[..]), a[..], a.Length)
    ensures old(Ordered(a[..])) ==> a[..] == old(a[..])
  {
    hide DependsOn; hide Ranked; hide OrderedUpTo; hide SortsTo; hide FirstLater; hide SortStep;
    ghost var rank :| Ranked(a[..], rank);
    NothingToOrder(a[..]);
    RunStarts(a[..]);
    var b1 := 0;
    while b1 < a.Length
      invariant 0 <= b1 <= a.Length
      invariant multiset(a[..]) == multiset(old(a[..])) && Ranked(a[..], rank)
      invariant OrderedUpTo(a[..], b1)
      invariant SortsTo(old(a[..]), a[..], b1)
      decreases a.Length - b1, if b1 < a.Length then rank(a[b1]) else 0
    {
      var b2 := FindLater(a, b1);
      if b2 < a.Length {
        SwapKeepsOrder(a[..], b1, b2, rank);
        RankFalls(a[..], b1, b2, rank);
        ghost var swapped := a[..][b1 := a[b2]][b2 := a[b1]];
        SwapIsStep(a[..], b1, b2);
        RunGrows(old(a[..]), a[..], b1, swapped, b1);
        a[b1], a[b2] := a[b2], a[b1];
        assert a[..] == swapped;
      } else {
        OneMore(a[..], b1);
        NextIsStep(a[..], b1);
        RunGrows(old(a[..]), a[..], b1, a[..], b1 + 1);
        b1 := b1 + 1;
      }
    }
    if old(Ordered(a[..])) {
      OrderedSortsToItself(old(a[..]), a[..], b1);
    }
  }

  lemma SwapIsStep(ms: seq<Module>, b1: nat, b2: nat)
    requires b1 < b2 < |ms| && exists k: nat :: FirstLater(ms, b1, b2, k)
    ensures SortStep(ms, b1, ms[b1 := ms[b2]][b2 := ms[b1]], b1)
  {
    hide FirstLater;
  }

  lemma NextIsStep(ms: seq<Module>, b1: nat)
    requires b1 < |ms| && forall j :: b1 < j < |ms| ==> !DependsOn(ms[b1], ms[j])
    ensures SortStep(ms, b1, ms, b1 + 1)
  {
    NoneLater(ms, b1);
    hide FirstLater;
  }

  lemma NothingToOrder(ms: seq<Module>)
    ensures OrderedUpTo(ms, 0)
  {
  }

  lemma RankFalls(ms: seq<Module>, b1: nat, b2: nat, rank: Module -> nat)
    requires b1 < b2 < |ms| && Ranked(ms, rank) && DependsOn(ms[b1], ms[b2])
    ensures rank(ms[b2]) < rank(ms[b1])
  {
    hide DependsOn;
  }

  lemma OneMore(ms: seq<Module>, b1: nat)
    requires b1 < |ms| && OrderedUpTo(ms, b1) && forall j :: b1 < j < |ms| ==> !DependsOn(ms[b1], ms[j])
    ensures OrderedUpTo(ms, b1 + 1)
  {
    hide DependsOn;
  }

  lemma SwapKeepsOrder(ms: seq<Module>, b1: nat, b2: nat, rank: Module -> nat)
    requires b1 < b2 < |ms| && OrderedUpTo(ms, b1) && Ranked(ms, rank)
    ensures var ms' := ms[b1 := ms[b2]][b2 := ms[b1]];
      multiset(ms') == multiset(ms) && OrderedUpTo(ms', b1) && Ranked(ms', rank)
  {
    hide DependsOn;
    var ms' := ms[b1 := ms[b2]][b2 := ms[b1]];
    forall i, j | 0 <= i < |ms'| && 0 <= j < |ms'| && i != j && DependsOn(ms'[i], ms'[j])
      ensures rank(ms'[j]) < rank(ms'[i])
    {
      var i0 := if i == b1 then b2 else if i == b2 then b1 else i;
      var j0 := if j == b1 then b2 else if j == b2 then b1 else j;
      assert ms'[i] == ms[i0] && ms'[j] == ms[j0];
    }
  }

  /** Only acyclic dependencies can be put in order. */
  lemma OrderedIsAcyclic(ms: seq<Module>)
    requires Ordered(ms)
    ensures Acyclic(ms)
  {
    hide DependsOn;
    var rank := (m: Module) => PlaceOf(ms, m);
    forall i, j | 0 <= i < |ms| && 0 <= j < |ms| && i != j && DependsOn(ms[i], ms[j])
      ensures rank(ms[j]) < rank(ms[i])
    {
      assert ms[PlaceOf(ms, ms[i])] == ms[i] && PlaceOf(ms, ms[i]) <= i && PlaceOf(ms, ms[j]) <= j;
    }
    assert Ranked(ms, rank);
  }

  /** The first place of a module. */
  function PlaceOf(ms: seq<Module>, m: Module): (i: nat)
    ensures m in ms ==> i < |ms| && ms[i] == m
    ensures forall k :: 0 <= k < |ms| && ms[k] == m ==> i <= k
  {
    if ms == [] || ms[0] == m then 0 else 1 + PlaceOf(ms[1..], m)
  }

  // ---- handler tables ----

  datatype Slot = Null | Handler(m: Module)

  datatype Phase = RequestStartup | RequestShutdown | PostDeactivate

  predicate Has(m: Module, p: Phase) {
    match p
    case RequestStartup => m.requestStartup
    case RequestShutdown => m.requestShutdown
    case PostDeactivate => m.postDeactivate
  }

  function Filter(ms: seq<Module>, p: Phase): seq<Module> {
    if ms == [] then [] else Filter(ms[..|ms| - 1], p) + (if Has(ms[|ms| - 1], p) then [ms[|ms| - 1]] else [])
  }

  function Reverse<T>(s: seq<T>): (r: seq<T>)
    ensures |r| == |s| && forall i :: 0 <= i < |s| ==> r[i] == s[|s| - 1 - i]
  {
    if s == [] then [] else [s[|s| - 1]] + Reverse(s[..|s| - 1])
  }

  function Handlers(ms: seq<Module>): (r: seq<Slot>)
    ensures |r| == |ms| && forall i :: 0 <= i < |ms| ==> r[i] == Handler(ms[i])
  {
    seq(|ms|, i requires 0 <= i < |ms| => Handler(ms[i]))
  }

  /** The one allocation: three NULL-terminated tables. */
  function Tables(ms: seq<Module>): seq<Slot> {
    Handlers(Filter(ms, RequestStartup)) + [Null]
    + Handlers(Reverse(Filter(ms, RequestShutdown))) + [Null]
    + Handlers(Reverse(Filter(ms, PostDeactivate))) + [Null]
  }

  method Count(ms: seq<Module>, p: Phase) returns (n: nat)
    ensures n == |Filter(ms, p)|
  {
    n := 0;
    var i := 0;
    while i < |ms|
      invariant 0 <= i <= |ms| && n == |Filter(ms[..i], p)|
    {
      assert ms[..i + 1][..i] == ms[..i];
      if Has(ms[i], p) {
        n := n + 1;
      }
      i := i + 1;
    }
    assert ms[..i] == ms;
  }

  lemma {:induction false} FilterPrefix(ms: seq<Module>, i: nat, p: Phase)
    requires i < |ms|
    ensures Filter(ms[..i + 1], p) == Filter(ms[..i], p) + (if Has(ms[i], p) then [ms[i]] else [])
    ensures |Filter(ms[..i + 1], p)| <= |Filter(ms, p)|
    decreases |ms|
  {
    assert ms[..i + 1][..i] == ms[..i];
    if i + 1 == |ms| {
      assert ms[..i + 1] == ms;
    } else {
      var front := ms[..|ms| - 1];
      FilterPrefix(front, i, p);
      assert front[..i + 1] == ms[..i + 1];
    }
  }

  /** The modules with a handler for a phase, each as often as it is registered. */
  lemma {:induction false} FilterExactly(ms: seq<Module>)
    ensures forall m :: multiset(Filter(ms, RequestStartup))[m] == if m.requestStartup then multiset(ms)[m] else 0
    ensures forall m :: multiset(Filter(ms, RequestShutdown))[m] == if m.requestShutdown then multiset(ms)[m] else 0
    ensures forall m :: multiset(Filter(ms, PostDeactivate))[m] == if m.postDeactivate then multiset(ms)[m] else 0
    decreases |ms|
  {
    if ms != [] {
      FilterExactly(ms[..|ms| - 1]);
      assert ms == ms[..|ms| - 1] + [ms[|ms| - 1]];
    }
  }

  /** Which modules are called in a phase, in plain words. */
  ghost predicate CallsAll(calls: seq<Module>, ms: seq<Module>, p: Phase) {
    match p
    case RequestStartup => forall m :: multiset(calls)[m] == if m.requestStartup then multiset(ms)[m] else 0
    case RequestShutdown => forall m :: multiset(calls)[m] == if m.requestShutdown then multiset(ms)[m] else 0
    case PostDeactivate => forall m :: multiset(calls)[m] == if m.postDeactivate then multiset(ms)[m] else 0
  }

  lemma {:induction false} ReverseSame<T>(s: seq<T>)
    ensures multiset(Reverse(s)) == multiset(s)
    decreases |s|
  {
    if s != [] {
      ReverseSame(s[..|s| - 1]);
      assert s == s[..|s| - 1] + [s[|s| - 1]];
    }
  }

  lemma FilterCallsAll(ms: seq<Module>, p: Phase)
    ensures CallsAll(Filter(ms, p), ms, p) && CallsAll(Reverse(Filter(ms, p)), ms, p)
  {
    hide Filter; hide Reverse;
    FilterExactly(ms);
    ReverseSame(Filter(ms, p));
  }

  lemma ReverseSnoc<T>(s: seq<T>, x: T)
    ensures Reverse(s + [x]) == [x] + Reverse(s)
  {
    assert (s + [x])[..|s|] == s;
  }

  /** What zend_collect_module_handlers fills in a table from its front. */
  ghost predicate FilledForward(table: seq<Slot>, at: nat, count: nat, ms: seq<Module>, p: Phase) {
    at + count <= |table| && table[at..at + count] == Handlers(Filter(ms, p))
  }

  /** And from its back: `count` slots are still empty. */
  ghost predicate FilledBackward(table: seq<Slot>, at: nat, size: nat, count: nat, ms: seq<Module>, p: Phase) {
    && count <= size && at + size <= |table| && count + |Filter(ms, p)| == size
    && table[at + count..at + size] == Handlers(Reverse(Filter(ms, p)))
  }

  ghost predicate SameRegion(t: seq<Slot>, t': seq<Slot>, lo: nat, hi: nat) {
    |t| == |t'| && forall k :: lo <= k < hi && k < |t| ==> t'[k] == t[k]
  }

  lemma FilledFrame(t: seq<Slot>, t': seq<Slot>, at: nat, size: nat, count: nat, ms: seq<Module>, p: Phase)
    requires SameRegion(t, t', at, at + size)
    ensures FilledForward(t, at, count, ms, p) && count <= size ==> FilledForward(t', at, count, ms, p)
    ensures FilledBackward(t, at, size, count, ms, p) ==> FilledBackward(t', at, size, count, ms, p)
  {
    if count <= size && at + size <= |t| {
      assert t'[at..at + count] == t[at..at + count];
      assert t'[at + count..at + size] == t[at + count..at + size];
    } else if at + count <= |t| && count <= size {
      assert t'[at..at + count] == t[at..at + count];
    }
  }

  /** Nothing is in the tables at first. */
  lemma FilledStart(t: seq<Slot>, ms: seq<Module>, a: nat, d: nat, at: nat, q: nat, at': nat)
    requires a + d <= at <= |t| && a <= |t| && at + q <= at' <= |t| && at' <= |t|
    ensures FilledForward(t, 0, 0, ms[..0], RequestStartup)
    ensures FilledBackward(t, a, d, d, ms[..0], RequestShutdown)
    ensures FilledBackward(t, at, q, q, ms[..0], PostDeactivate)
  {
    assert ms[..0] == [];
  }

  /** Full tables are the allocation. */
  lemma FilledEnd(t: seq<Slot>, ms: seq<Module>, n: nat, d: nat, q: nat)
    requires FilledForward(t, 0, n, ms, RequestStartup) && n == |Filter(ms, RequestStartup)|
    requires d == |Filter(ms, RequestShutdown)| && FilledBackward(t, n + 1, d, 0, ms, RequestShutdown)
    requires q == |Filter(ms, PostDeactivate)| && FilledBackward(t, n + 1 + d + 1, q, 0, ms, PostDeactivate)
    requires |t| == n + 1 + d + 1 + q + 1 && t[n] == Null && t[n + 1 + d] == Null && t[n + 1 + d + 1 + q] == Null
    ensures t == Tables(ms)
  {
    hide Filter; hide Handlers; hide Reverse;
    assert t == t[0..n] + [t[n]] + t[n + 1..n + 1 + d] + [t[n + 1 + d]] + t[n + 1 + d + 1..n + 1 + d + 1 + q] + [t[n + 1 + d + 1 + q]];
  }

  /** zend_collect_module_handlers, for modules in registry order. */
  method CollectModuleHandlers(ms: seq<Module>) returns (table: array<Slot>, shutdownAt: nat, postAt: nat)
    ensures fresh(table) && table[..] == Tables(ms) && TablesHold(table[..], shutdownAt, postAt, ms)
    ensures shutdownAt == |Filter(ms, RequestStartup)| + 1 && postAt == shutdownAt + |Filter(ms, RequestShutdown)| + 1
  {
    hide Filter; hide Tables; hide FilledForward; hide FilledBackward;
    var startups := Count(ms, RequestStartup);
    var shutdowns := Count(ms, RequestShutdown);
    var posts := Count(ms, PostDeactivate);
    table := new Slot[startups + 1 + shutdowns + 1 + posts + 1](_ => Null);
    shutdownAt := startups + 1;
    postAt := shutdownAt + shutdowns + 1;
    ghost var n, d, q := startups, shutdowns, posts;
    startups := 0;
    FilledStart(table[..], ms, shutdownAt, d, postAt, q, postAt + q);
    EmptyFilter(ms);
    var i := 0;
    while i < |ms|
      invariant 0 <= i <= |ms| && startups == |Filter(ms[..i], RequestStartup)|
      invariant FilledForward(table[..], 0, startups, ms[..i], RequestStartup)
      invariant FilledBackward(table[..], shutdownAt, d, shutdowns, ms[..i], RequestShutdown)
      invariant FilledBackward(table[..], postAt, q, posts, ms[..i], PostDeactivate)
      invariant table[n] == Null && table[shutdownAt + d] == Null && table[postAt + q] == Null
    {
      startups, shutdowns, posts := PutModule(table, n, d, q, startups, shutdowns, posts, shutdownAt, postAt, ms, i);
      i := i + 1;
    }
    assert ms[..i] == ms;
    CountsUsedUp(table[..], shutdownAt, d, shutdowns, ms, RequestShutdown);
    CountsUsedUp(table[..], postAt, q, posts, ms, PostDeactivate);
    FilledEnd(table[..], ms, n, d, q);
    TablesExactly(ms, n, d, q);
  }

  /** The three tables, their ends marked by NULL, hold just the modules with such a handler. */
  ghost predicate TablesHold(t: seq<Slot>, shutdownAt: nat, postAt: nat, ms: seq<Module>) {
    && 0 < shutdownAt < postAt < |t| && t[shutdownAt - 1] == Null && t[postAt - 1] == Null && t[|t| - 1] == Null
    && (exists calls :: t[..shutdownAt - 1] == Handlers(calls) && CallsAll(calls, ms, RequestStartup))
    && (exists calls :: t[shutdownAt..postAt - 1] == Handlers(calls) && CallsAll(calls, ms, RequestShutdown))
    && (exists calls :: t[postAt..|t| - 1] == Handlers(calls) && CallsAll(calls, ms, PostDeactivate))
  }

  lemma TablesExactly(ms: seq<Module>, n: nat, d: nat, q: nat)
    requires n == |Filter(ms, RequestStartup)| && d == |Filter(ms, RequestShutdown)| && q == |Filter(ms, PostDeactivate)|
    ensures TablesHold(Tables(ms), n + 1, n + 1 + d + 1, ms)
  {
    hide Filter; hide Reverse; hide CallsAll; hide Handlers;
    FilterCallsAll(ms, RequestStartup);
    FilterCallsAll(ms, RequestShutdown);
    FilterCallsAll(ms, PostDeactivate);
    var t := Tables(ms);
    var x, y, z := Filter(ms, RequestStartup), Reverse(Filter(ms, RequestShutdown)), Reverse(Filter(ms, PostDeactivate));
    assert t[..n] == Handlers(x);
    assert t[n + 1..n + 1 + d] == Handlers(y);
    assert t[n + 1 + d + 1..|t| - 1] == Handlers(z);
  }

  lemma EmptyFilter(ms: seq<Module>)
    ensures Filter(ms[..0], RequestStartup) == []
  {
  }

  lemma CountsUsedUp(t: seq<Slot>, at: nat, size: nat, count: nat, ms: seq<Module>, p: Phase)
    requires FilledBackward(t, at, size, count, ms, p) && size == |Filter(ms, p)|
    ensures count == 0
  {
  }

  /** One round of the filling loop. */
  method PutModule(table: array<Slot>, ghost n: nat, ghost d: nat, ghost q: nat, startups: nat, shutdowns: nat, posts: nat,
                   shutdownAt: nat, postAt: nat, ms: seq<Module>, i: nat)
    returns (startups': nat, shutdowns': nat, posts': nat)
    requires i < |ms| && startups == |Filter(ms[..i], RequestStartup)| && n == |Filter(ms, RequestStartup)|
    requires d == |Filter(ms, RequestShutdown)| && q == |Filter(ms, PostDeactivate)|
    requires shutdownAt == n + 1 && postAt == shutdownAt + d + 1 && table.Length == postAt + q + 1
    requires FilledForward(table[..], 0, startups, ms[..i], RequestStartup)
    requires FilledBackward(table[..], shutdownAt, d, shutdowns, ms[..i], RequestShutdown)
    requires FilledBackward(table[..], postAt, q, posts, ms[..i], PostDeactivate)
    modifies table
    ensures startups' == |Filter(ms[..i + 1], RequestStartup)|
    ensures FilledForward(table[..], 0, startups', ms[..i + 1], RequestStartup)
    ensures FilledBackward(table[..], shutdownAt, d, shutdowns', ms[..i + 1], RequestShutdown)
    ensures FilledBackward(table[..], postAt, q, posts', ms[..i + 1], PostDeactivate)
    ensures table[n] == old(table[n]) && table[shutdownAt + d] == old(table[shutdownAt + d]) && table[postAt + q] == old(table[postAt + q])
  {
    hide Filter; hide FilledForward; hide FilledBackward;
    FilterPrefix(ms, i, RequestStartup);
    ghost var t0 := table[..];
    startups' := PutForward(table, startups, n, ms, i);
    ghost var t1 := table[..];
    FilledFrame(t0, t1, shutdownAt, d, shutdowns, ms[..i], RequestShutdown);
    FilledFrame(t0, t1, postAt, q, posts, ms[..i], PostDeactivate);
    shutdowns' := PutBackward(table, shutdownAt, d, shutdowns, ms, i, RequestShutdown);
    ghost var t2 := table[..];
    FilledFrame(t1, t2, 0, n, startups', ms[..i + 1], RequestStartup);
    FilledFrame(t1, t2, postAt, q, posts, ms[..i], PostDeactivate);
    posts' := PutBackward(table, postAt, q, posts, ms, i, PostDeactivate);
    FilledFrame(t2, table[..], 0, n, startups', ms[..i + 1], RequestStartup);
    FilledFrame(t2, table[..], shutdownAt, d, shutdowns', ms[..i + 1], RequestShutdown);
  }

  method PutForward(table: array<Slot>, startups: nat, ghost end: nat, ms: seq<Module>, i: nat) returns (startups': nat)
    requires i < |ms| && startups == |Filter(ms[..i], RequestStartup)| && end == |Filter(ms, RequestStartup)| <= table.Length
    requires FilledForward(table[..], 0, startups, ms[..i], RequestStartup)
    modifies table
    ensures startups' == |Filter(ms[..i + 1], RequestStartup)| && FilledForward(table[..], 0, startups', ms[..i + 1], RequestStartup)
    ensures forall k :: end <= k < table.Length ==> table[k] == old(table[k])
  {
    FilterPrefix(ms, i, RequestStartup);
    startups' := startups;
    if ms[i].requestStartup {
      ghost var t0 := table[..];
      table[startups] := Handler(ms[i]);
      startups' := startups + 1;
      assert table[..][..startups] == t0[..startups];
      assert table[..][..startups'] == t0[..startups] + [Handler(ms[i])];
    }
  }

  method PutBackward(table: array<Slot>, at: nat, ghost size: nat, count: nat, ms: seq<Module>, i: nat, p: Phase) returns (count': nat)
    requires i < |ms| && size == |Filter(ms, p)| && FilledBackward(table[..], at, size, count, ms[..i], p)
    modifies table
    ensures FilledBackward(table[..], at, size, count', ms[..i + 1], p)
    ensures forall k :: 0 <= k < table.Length && !(at <= k < at + size) ==> table[k] == old(table[k])
  {
    hide Filter; hide Reverse;
    FilterPrefix(ms, i, p);
    count' := count;
    if Has(ms[i], p) {
      ReverseSnoc(Filter(ms[..i], p), ms[i]);
      HandlersCons(ms[i], Reverse(Filter(ms[..i], p)));
      ghost var t0 := table[..];
      count' := count - 1;
      table[at + count'] := Handler(ms[i]);
      assert table[..][at + count..at + size] == t0[at + count..at + size];
      assert table[..][at + count'..at + size] == [Handler(ms[i])] + t0[at + count..at + size];
      hide Handlers;
    }
  }

  lemma HandlersCons(m: Module, ms: seq<Module>)
    ensures Handlers([m] + ms) == [Handler(m)] + Handlers(ms)
  {
  }

  /** zend_activate_modules: calls up to the NULL, or up to the first failure. */
  method ActivateModules(table: array<Slot>, ms: seq<Module>, ok: Module -> bool) returns (calls: seq<Module>, failed: bool)
    requires table[..] == Tables(ms)
    ensures calls <= Filter(ms, RequestStartup)
    ensures !failed ==> calls == Filter(ms, RequestStartup) && CallsAll(calls, ms, RequestStartup) && forall m :: m in calls ==> ok(m)
    ensures failed ==> calls != [] && !ok(calls[|calls| - 1])
  {
    hide CallsAll;
    ghost var f := Filter(ms, RequestStartup);
    FilterCallsAll(ms, RequestStartup);
    assert forall k :: 0 <= k < |f| ==> table[..][k] == Handler(f[k]);
    assert table[..][|f|] == Null;
    calls, failed := [], false;
    var p := 0;
    while table[p] != Null
      invariant 0 <= p <= |f| && calls == f[..p]
      invariant forall m :: m in calls ==> ok(m)
      decreases |f| - p
    {
      var m := table[p].m;
      calls := calls + [m];
      if !ok(m) {
        failed := true;
        assert calls == f[..p + 1];
        return;
      }
      p := p + 1;
    }
  }

  /** zend_deactivate_modules: over the table, or over the registry backwards. */
  method DeactivateModules(table: array<Slot>, at: nat, ms: seq<Module>, fullTablesCleanup: bool) returns (calls: seq<Module>)
    requires table[..] == Tables(ms) && at == |Filter(ms, RequestStartup)| + 1
    ensures calls == Reverse(Filter(ms, RequestShutdown)) && CallsAll(calls, ms, RequestShutdown)
  {
    hide Filter; hide Reverse; hide Tables; hide CallsAll;
    FilterCallsAll(ms, RequestShutdown);
    if fullTablesCleanup {
      calls := ReverseApply(ms);
    } else {
      ghost var f := Reverse(Filter(ms, RequestShutdown));
      ShutdownSlot(ms, at, 0);
      calls := [];
      var p := at;
      while table[p] != Null
        invariant at <= p <= at + |f| && calls == f[..p - at]
        invariant p < table.Length && table[p] == if p - at < |f| then Handler(f[p - at]) else Null
        decreases at + |f| - p
      {
        ShutdownSlot(ms, at, p + 1 - at);
        calls := calls + [table[p].m];
        p := p + 1;
      }
      assert f[..|f|] == f;
    }
  }

  lemma ShutdownSlot(ms: seq<Module>, at: nat, k: nat)
    requires at == |Filter(ms, RequestStartup)| + 1 && k <= |Filter(ms, RequestShutdown)|
    ensures var f := Reverse(Filter(ms, RequestShutdown));
      at + k < |Tables(ms)| && Tables(ms)[at + k] == if k < |f| then Handler(f[k]) else Null
  {
    hide Filter; hide Reverse;
  }

  /** zend_hash_reverse_apply with module_registry_cleanup. */
  method ReverseApply(ms: seq<Module>) returns (calls: seq<Module>)
    ensures calls == Reverse(Filter(ms, RequestShutdown))
  {
    calls := [];
    var i := |ms|;
    assert ms[..i] == ms;
    while i > 0
      invariant 0 <= i <= |ms|
      invariant calls + Reverse(Filter(ms[..i], RequestShutdown)) == Reverse(Filter(ms, RequestShutdown))
    {
      FilterPrefix(ms, i - 1, RequestShutdown);
      i := i - 1;
      if ms[i].requestShutdown {
        ReverseSnoc(Filter(ms[..i], RequestShutdown), ms[i]);
        calls := calls + [ms[i]];
      }
    }
  }

  /** Filters keep the order. */
  lemma {:induction false} FilterKeepsOrder(ms: seq<Module>, p: Phase, i: nat, j: nat) returns (i': nat, j': nat)
    requires i < j < |Filter(ms, p)|
    ensures i' < j' < |ms| && ms[i'] == Filter(ms, p)[i] && ms[j'] == Filter(ms, p)[j]
  {
    var front := ms[..|ms| - 1];
    if j < |Filter(front, p)| {
      i', j' := FilterKeepsOrder(front, p, i, j);
    } else {
      i' := FilterIndex(front, p, i);
      j' := |ms| - 1;
    }
  }

  lemma {:induction false} FilterIndex(ms: seq<Module>, p: Phase, i: nat) returns (i': nat)
    requires i < |Filter(ms, p)|
    ensures i' < |ms| && ms[i'] == Filter(ms, p)[i]
  {
    var front := ms[..|ms| - 1];
    if i < |Filter(front, p)| {
      i' := FilterIndex(front, p, i);
    } else {
      i' := |ms| - 1;
    }
  }

  /** After the sort, no module's request startup runs before that of a module it depends
      on, and no module's request shutdown runs before that of a module depending on it. */
  lemma CallsFollowDependencies(ms: seq<Module>, i: nat, j: nat)
    requires Ordered(ms)
    ensures i < j < |Filter(ms, RequestStartup)| ==>
      !DependsOn(Filter(ms, RequestStartup)[i], Filter(ms, RequestStartup)[j])
    ensures i < j < |Filter(ms, RequestShutdown)| ==>
      !DependsOn(Reverse(Filter(ms, RequestShutdown))[j], Reverse(Filter(ms, RequestShutdown))[i])
  {
    hide DependsOn;
    if i < j < |Filter(ms, RequestStartup)| {
      var i', j' := FilterKeepsOrder(ms, RequestStartup, i, j);
    }
    var f := Filter(ms, RequestShutdown);
    if i < j < |f| {
      var i', j' := FilterKeepsOrder(ms, RequestShutdown, |f| - 1 - j, |f| - 1 - i);
    }
  }
}
