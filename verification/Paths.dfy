/** Absolute path names: their last component, canonical names, and the expansion of
    "", "." and ".." on a stack of components. */
module Paths {
  const SLASH: char := '/'

  /** Where the last component starts: behind the last slash, or behind the root. */
  function NameStart(s: string): (i: nat)
    requires |s| >= 1
    ensures 1 <= i <= |s| && (i > 1 ==> s[i - 1] == SLASH)
    ensures forall k :: i <= k < |s| ==> s[k] != SLASH
  {
    if |s| == 1 || s[|s| - 1] == SLASH then |s| else NameStart(s[..|s| - 1])
  }

  lemma NameStartIs(s: string, i: nat)
    requires 1 <= i <= |s| && (i > 1 ==> s[i - 1] == SLASH)
    requires forall k :: i <= k < |s| ==> s[k] != SLASH
    ensures NameStart(s) == i
  {
    var j := NameStart(s);
  }

  predicate ProperName(n: string) {
    n != "" && n != "." && n != ".." && SLASH !in n
  }

  /** "/" or names behind single slashes, none of them empty, "." or "..". */
  predicate Canonical(s: string)
    decreases |s|
  {
    |s| >= 1 && s[0] == SLASH &&
    (|s| == 1 ||
     var i := NameStart(s);
     ProperName(s[i..]) && (i == 1 || (i > 2 && Canonical(s[..i - 1]))))
  }

  /** A canonical directory with a slash to put a name behind. */
  function Slashed(q: string): string {
    if |q| > 1 then q + [SLASH] else q
  }

  /** The cut of zend's `..`: back to the slash before the last name. */
  function Parent(q: string): string
    requires |q| >= 1
  {
    if |q| == 1 then q else if NameStart(q) == 1 then q[..1] else q[..NameStart(q) - 1]
  }

  lemma ParentCanonical(q: string)
    requires Canonical(q)
    ensures Canonical(Parent(q)) && |Parent(q)| <= |q|
  {
  }

  lemma AppendName(q: string, n: string)
    requires Canonical(q) && ProperName(n)
    ensures Canonical(Slashed(q) + n)
    ensures NameStart(Slashed(q) + n) == |Slashed(q)| && Parent(Slashed(q) + n) == q
  {
    var d := Slashed(q);
    var s := d + n;
    NameBehind(d, n);
    hide NameStart; hide ProperName;
    if |q| > 1 {
      assert s[..|d| - 1] == q;
    } else {
      assert s[..1] == q;
    }
  }

  lemma NameBehind(d: string, n: string)
    requires |d| >= 1 && d[|d| - 1] == SLASH && SLASH !in n
    ensures NameStart(d + n) == |d| && (d + n)[|d|..] == n && (d + n)[0] == d[0]
  {
    NameStartIs(d + n, |d|);
  }

  // ---- components ----

  /** What stands between the slashes. */
  function Components(s: string): seq<string>
    decreases |s|
  {
    if |s| <= 1 then [] else Components(s[..NameStart(s) - 1]) + [s[NameStart(s)..]]
  }

  /** One component on the stack. */
  function PushComponent(stack: seq<string>, c: string): seq<string> {
    if c == "" || c == "." then stack
    else if c == ".." then (if stack == [] then [] else stack[..|stack| - 1])
    else stack + [c]
  }

  function Normalise(cs: seq<string>): seq<string> {
    if cs == [] then [] else PushComponent(Normalise(cs[..|cs| - 1]), cs[|cs| - 1])
  }

  function Join(cs: seq<string>): (s: string)
    ensures |s| >= 1
  {
    if cs == [] then [SLASH] else Slashed(Join(cs[..|cs| - 1])) + cs[|cs| - 1]
  }

  /** A path after "", "." and ".." were taken out. */
  function Normal(s: string): string {
    Join(Normalise(Components(s)))
  }

  predicate AllProper(cs: seq<string>) {
    forall c :: c in cs ==> ProperName(c)
  }

  lemma {:induction false} NormaliseProper(cs: seq<string>)
    requires forall c :: c in cs ==> SLASH !in c
    ensures AllProper(Normalise(cs))
  {
    if cs != [] {
      NormaliseProper(cs[..|cs| - 1]);
    }
  }

  lemma {:induction false} NoSlashInside(s: string)
    ensures forall c :: c in Components(s) ==> SLASH !in c
    decreases |s|
  {
    if |s| > 1 {
      NoSlashInside(s[..NameStart(s) - 1]);
    }
  }

  lemma {:induction false} JoinCanonical(cs: seq<string>)
    requires AllProper(cs)
    ensures Canonical(Join(cs))
  {
    if cs != [] {
      JoinCanonical(cs[..|cs| - 1]);
      AppendName(Join(cs[..|cs| - 1]), cs[|cs| - 1]);
    }
  }

  lemma {:induction false} NormaliseIdle(cs: seq<string>)
    requires AllProper(cs)
    ensures Normalise(cs) == cs
  {
    if cs != [] {
      NormaliseIdle(cs[..|cs| - 1]);
      assert cs[|cs| - 1] in cs;
      assert cs == cs[..|cs| - 1] + [cs[|cs| - 1]];
    }
  }

  lemma NoComponents(s: string)
    requires |s| <= 1
    ensures Components(s) == []
  {
  }

  lemma LastComponent(s: string)
    requires |s| > 1
    ensures Components(s) == Components(s[..NameStart(s) - 1]) + [s[NameStart(s)..]]
  {
  }

  /** Splitting a joined path gives its components back. */
  lemma {:induction false} ComponentsOfJoin(cs: seq<string>)
    requires AllProper(cs)
    ensures Components(Join(cs)) == cs
  {
    hide Components; hide Canonical; hide ProperName; hide Slashed;
    NoComponents([SLASH]);
    if cs != [] {
      var d, n := Join(cs[..|cs| - 1]), cs[|cs| - 1];
      ComponentsOfJoin(cs[..|cs| - 1]);
      JoinCanonical(cs[..|cs| - 1]);
      ComponentsBehind(d, n);
      assert cs == cs[..|cs| - 1] + [n];
    }
  }

  /** And joining the components of a canonical path gives the path back. */
  lemma {:induction false} JoinOfComponents(s: string)
    requires Canonical(s)
    ensures Join(Components(s)) == s && AllProper(Components(s))
    decreases |s|
  {
    if |s| > 1 {
      var d, n := LastSplit(s);
      hide Canonical; hide Components; hide Slashed; hide ProperName;
      JoinOfComponents(d);
      assert (Components(d) + [n])[..|Components(d)|] == Components(d);
    }
  }

  /** A canonical path is a canonical directory with a name behind it. */
  lemma LastSplit(s: string) returns (d: string, n: string)
    requires Canonical(s) && |s| > 1
    ensures Canonical(d) && ProperName(n) && |d| < |s| && s == Slashed(d) + n && Components(s) == Components(d) + [n]
  {
    var i := NameStart(s);
    n := s[i..];
    d := if i == 1 then [SLASH] else s[..i - 1];
    assert i == 1 ==> s[..0] == "" && s == [SLASH] + s[1..];
  }

  lemma ComponentsBehind(d: string, n: string)
    requires Canonical(d) && ProperName(n)
    ensures Components(Slashed(d) + n) == Components(d) + [n]
  {
    hide Canonical; hide NameStart;
    AppendName(d, n);
    var s := Slashed(d) + n;
    assert s[NameStart(s)..] == n;
    if |d| > 1 {
      assert s[..NameStart(s) - 1] == d;
    } else {
      assert s[..NameStart(s) - 1] == "";
    }
  }
}
