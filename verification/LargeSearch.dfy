/** The search for a large block: what it finds, and when that is the best fit. */
module LargeSearch {
  import opened Bits
  import opened Sizes
  import opened Tags
  import opened Rings
  import opened LargeTrie
  import opened FreeListSpec
  import opened FreeListSteps

  /** `best_size = -1`. */
  const NO_SIZE: nat := WORD - 1

  datatype Turn = NoTurn | TurnAt(pos: Pos)

  /** Some block of size `n` is in the tries. */
  ghost predicate Present(v: View, n: nat) {
    LargeRing(n) in v.rings
  }

  function SizeOf(v: View, size: map<Addr, Tag>, q: Pos): nat {
    if q in v.at && v.at[q] in size then size[v.at[q]].n else 0
  }

  ghost predicate Below(v: View, p: Pos, q: Pos) {
    q in v.at && q.bucket == p.bucket && Prefix(p.path, q.path)
  }

  /** The node at `p` is the smallest of its subtree. */
  ghost predicate LeastBelow(v: View, size: map<Addr, Tag>, p: Pos) {
    forall q :: Below(v, p, q) ==> SizeOf(v, size, p) <= SizeOf(v, size, q)
  }

  /** The least of the sizes present that are not below `n`. */
  ghost predicate LeastFit(v: View, n: nat, s: nat) {
    Present(v, s) && n <= s && forall t: nat :: Present(v, t) && n <= t ==> s <= t
  }

  /** Where the path of the bits of `n` last left a right sibling behind. */
  ghost function LastTurn(v: View, b: nat, n: nat, path: nat, turn: Turn): Turn
    requires Prefix(path, n) && path >= 1
    decreases n - path
  {
    if Pos(b, path) !in v.at || path == n then turn else
      PrefixLe(path, n);
      var s := Step(path, n);
      LastTurn(v, b, n, s, TurnAfter(v, b, path, s, turn))
  }

  ghost function TurnAfter(v: View, b: nat, path: nat, s: nat, turn: Turn): Turn {
    if s == 2 * path && Pos(b, 2 * path + 1) in v.at then TurnAt(Pos(b, 2 * path + 1)) else turn
  }

  /** The least size on the path of the bits of `n` that is not below `n`. */
  ghost function PathBest(v: View, size: map<Addr, Tag>, b: nat, n: nat, path: nat, best: nat): nat
    requires Prefix(path, n) && path >= 1
    decreases n - path
  {
    if Pos(b, path) !in v.at then best else
      var best' := Better(SizeOf(v, size, Pos(b, path)), n, best);
      if path == n then best' else
        PrefixLe(path, n);
        PathBest(v, size, b, n, Step(path, n), best')
  }

  function Better(s: nat, n: nat, best: nat): nat {
    if n <= s < best then s else best
  }

  /** Exactly when zend_mm_search_large_block finds the best fit: the walks that follow
      `child[child[0] != NULL]` find the smallest block of a subtree only at its root. */
  ghost predicate FindsLeast(v: View, size: map<Addr, Tag>, n: nat)
    requires n > 0
  {
    RootPrefix(n);
    var b := HighBit(n);
    var turn := LastTurn(v, b, n, 1, NoTurn);
    var best := PathBest(v, size, b, n, 1, NO_SIZE);
    || Present(v, n)
    || (turn.TurnAt? && (LeastBelow(v, size, turn.pos) || forall q :: Below(v, turn.pos, q) ==> best <= SizeOf(v, size, q)))
    || (turn.NoTurn? && best < NO_SIZE)
    || (turn.NoTurn? && best == NO_SIZE && forall j: nat :: FirstBucket(v, b, j) ==> LeastBelow(v, size, Pos(j, 1)))
  }

  /** Bucket `j` is the first one beyond `b` that is not empty. */
  ghost predicate FirstBucket(v: View, b: nat, j: nat) {
    b < j && Pos(j, 1) in v.at && forall i :: b < i < j ==> Pos(i, 1) !in v.at
  }

  // ---- intervals ----

  /** The numbers of one length that start with a prefix form an interval. */
  lemma {:induction false} PrefixInterval(n: nat, x: nat, k: nat)
    requires Prefix(n, x) && n >= 1 && HighBit(x) == HighBit(n) + k
    ensures n * Pow2(k) <= x < (n + 1) * Pow2(k)
  {
    PrefixLe(n, x);
    if n == x {
      assert Pow2(0) == 1;
    } else {
      ShorterPrefix(n, x);
      var h := Pow2(k - 1);
      PrefixInterval(n, x / 2, k - 1);
      assert n * Pow2(k) == 2 * (n * h) && (n + 1) * Pow2(k) == 2 * ((n + 1) * h);
    }
  }

  /** A number shares the interval of its prefixes only with numbers of that prefix. */
  lemma ChildIntervals(n: nat, k: nat)
    requires k >= 1
    ensures (2 * n) * Pow2(k - 1) == n * Pow2(k)
    ensures (2 * n + 1) * Pow2(k - 1) == n * Pow2(k) + Pow2(k - 1)
    ensures (2 * n + 2) * Pow2(k - 1) == (n + 1) * Pow2(k)
  {
    var h := Pow2(k - 1);
    assert (2 * n) * h == 2 * (n * h);
    assert (2 * n + 1) * h == 2 * (n * h) + h;
    assert n * Pow2(k) == 2 * (n * h);
    assert (n + 1) * Pow2(k) == 2 * (n * h) + 2 * h;
  }

  // ---- the invariant of the first loop ----

  /** Sizes below the last turn lie in [low, cap), beyond everything below the path. */
  ghost predicate TurnOk(v: View, size: map<Addr, Tag>, b: nat, n: nat, turn: Turn, low: nat, cap: nat, top: nat) {
    turn.TurnAt? ==>
      && turn.pos in v.at && turn.pos.path >= 1 && turn.pos.bucket == b
      && n < top <= low <= cap
      && forall q :: Below(v, turn.pos, q) ==> low <= SizeOf(v, size, q) < cap
  }

  /** Fits of bucket `b` are below the path, matched by `best`, below the last turn or beyond it. */
  ghost predicate FitsCovered(v: View, size: map<Addr, Tag>, b: nat, n: nat, path: nat, best: nat, turn: Turn, cap: nat) {
    forall q :: q in v.at && q.bucket == b && n <= SizeOf(v, size, q) ==>
      || Prefix(path, q.path)
      || best <= SizeOf(v, size, q)
      || (turn.TurnAt? && (Prefix(turn.pos.path, q.path) || cap <= SizeOf(v, size, q)))
  }

  lemma NodeFacts(v: View, size: map<Addr, Tag>, q: Pos)
    requires Kinds(v.rings, size) && Shape(v.at, v.posOf, v.rings, size) && q in v.at
    ensures v.at[q] in size && q.path >= 1 && Prefix(q.path, SizeOf(v, size, q)) && HighBit(SizeOf(v, size, q)) == q.bucket
    ensures 0 < SizeOf(v, size, q) < NO_SIZE && Present(v, SizeOf(v, size, q))
    ensures v.rings[LargeRing(SizeOf(v, size, q))][0] == Block(v.at[q])
  {
    assert ShapeAt(v.at, v.posOf, v.rings, size, q);
    NodeBelowWord(v, size, q);
    ListFacts(v.rings, size, LargeRing(SizeOf(v, size, q)));
  }

  /** The bits of a size locate it: sizes below a position lie in its interval. */
  lemma BelowInterval(v: View, size: map<Addr, Tag>, p: Pos, q: Pos, k: nat)
    requires Kinds(v.rings, size) && Shape(v.at, v.posOf, v.rings, size)
    requires Below(v, p, q) && p.path >= 1 && HighBit(p.path) + k == p.bucket
    ensures p.path * Pow2(k) <= SizeOf(v, size, q) < (p.path + 1) * Pow2(k)
  {
    NodeFacts(v, size, q);
    PrefixTrans(p.path, q.path, SizeOf(v, size, q));
    PrefixInterval(p.path, SizeOf(v, size, q), k);
  }

  lemma HighBitOfChild(n: nat, s: nat)
    requires n >= 1 && s / 2 == n
    ensures HighBit(s) == HighBit(n) + 1
  {
  }

  /** The invariant moves down one level. */
  lemma SearchStep(v: View, size: map<Addr, Tag>, b: nat, n: nat, path: nat, k: nat, best: nat, turn: Turn, low: nat, cap: nat)
    returns (low': nat, cap': nat)
    requires Kinds(v.rings, size) && Shape(v.at, v.posOf, v.rings, size)
    requires Pos(b, path) in v.at && Prefix(path, n) && 1 <= path < n && k >= 1 && HighBit(path) + k == b
    requires path * Pow2(k) <= n < (path + 1) * Pow2(k)
    requires Step(path, n) * Pow2(k - 1) <= n < (Step(path, n) + 1) * Pow2(k - 1)
    requires TurnOk(v, size, b, n, turn, low, cap, (path + 1) * Pow2(k))
    requires FitsCovered(v, size, b, n, path, best, turn, cap)
    ensures var s := Step(path, n);
      var turn' := TurnAfter(v, b, path, s, turn);
      var best' := Better(SizeOf(v, size, Pos(b, path)), n, best);
      && TurnOk(v, size, b, n, turn', low', cap', (s + 1) * Pow2(k - 1))
      && FitsCovered(v, size, b, n, s, best', turn', cap')
  {
    hide Kinds; hide Shape; hide HighBit; hide Pow2;
    var s := Step(path, n);
    var turn' := TurnAfter(v, b, path, s, turn);
    ChildIntervals(path, k);
    assert s == 2 * path || s == 2 * path + 1;
    if turn' != turn {
      low', cap' := (2 * path + 1) * Pow2(k - 1), (path + 1) * Pow2(k);
      HighBitOfChild(path, 2 * path + 1);
      forall q | Below(v, turn'.pos, q)
        ensures low' <= SizeOf(v, size, q) < cap'
      {
        BelowInterval(v, size, turn'.pos, q, k - 1);
      }
    } else {
      low', cap' := low, cap;
    }
    forall q | q in v.at && q.bucket == b && n <= SizeOf(v, size, q) && Prefix(path, q.path) && q.path != path
      ensures Prefix(s, q.path) || (turn'.TurnAt? && turn'.pos == Pos(b, 2 * path + 1) && Prefix(turn'.pos.path, q.path))
    {
      OtherChild(v, size, b, n, path, k, q);
    }
    assert turn.TurnAt? ==> forall q :: q in v.at && q.bucket == b && Prefix(turn.pos.path, q.path) ==> Below(v, turn.pos, q);
  }

  lemma OtherChild(v: View, size: map<Addr, Tag>, b: nat, n: nat, path: nat, k: nat, q: Pos)
    requires Kinds(v.rings, size) && Shape(v.at, v.posOf, v.rings, size)
    requires q in v.at && q.bucket == b && Prefix(path, q.path) && 1 <= path != q.path && k >= 1 && HighBit(path) + k == b
    requires Prefix(path, n) && path < n && Step(path, n) * Pow2(k - 1) <= n <= SizeOf(v, size, q)
    ensures (Pos(b, Step(path, n)) in v.at && Prefix(Step(path, n), q.path))
      || (Step(path, n) == 2 * path && Pos(b, 2 * path + 1) in v.at && Prefix(2 * path + 1, q.path))
  {
    hide Kinds; hide Shape; hide HighBit; hide Pow2; hide Prefix;
    ShapeIsClosed(v.at, v.posOf, v.rings, size);
    PrefixLe(path, q.path);
    var c := Step(path, q.path);
    PrefixOccupied(v.at, v.posOf, b, c, q.path);
    HighBitOfChild(path, c);
    BelowInterval(v, size, Pos(b, c), q, k - 1);
    if c != Step(path, n) {
      assert c == 2 * path || c == 2 * path + 1;
      ChildIntervals(path, k);
    }
  }

  /** When the path ends, every fit of the bucket is matched by `best` or off the path to the right. */
  ghost predicate SearchEnd(v: View, size: map<Addr, Tag>, b: nat, n: nat, best: nat, turn: Turn, cap: nat) {
    && (turn.TurnAt? ==>
          && turn.pos in v.at && turn.pos.path >= 1 && turn.pos.bucket == b && n < cap
          && forall q :: Below(v, turn.pos, q) ==> n < SizeOf(v, size, q) < cap)
    && forall q :: q in v.at && q.bucket == b && n <= SizeOf(v, size, q) ==>
         best <= SizeOf(v, size, q) || (turn.TurnAt? && (Below(v, turn.pos, q) || cap <= SizeOf(v, size, q)))
  }

  lemma PathEnds(v: View, size: map<Addr, Tag>, b: nat, n: nat, path: nat, best: nat, turn: Turn, low: nat, cap: nat, top: nat)
    requires Shape(v.at, v.posOf, v.rings, size) && path >= 1 && Pos(b, path) !in v.at
    requires TurnOk(v, size, b, n, turn, low, cap, top) && FitsCovered(v, size, b, n, path, best, turn, cap)
    ensures SearchEnd(v, size, b, n, best, turn, cap)
  {
    hide Shape;
    ShapeIsClosed(v.at, v.posOf, v.rings, size);
    forall q | q in v.at && q.bucket == b && n <= SizeOf(v, size, q)
      ensures !Prefix(path, q.path)
    {
      if Prefix(path, q.path) {
        PrefixOccupied(v.at, v.posOf, b, path, q.path);
        assert false;
      }
    }
  }

  /** A size that is present has a node in its bucket. */
  lemma PresentNode(v: View, size: map<Addr, Tag>, s: nat) returns (q: Pos)
    requires Kinds(v.rings, size) && Shape(v.at, v.posOf, v.rings, size) && Present(v, s)
    ensures q in v.at && SizeOf(v, size, q) == s && s > 0 && q.bucket == HighBit(s)
  {
    ListFacts(v.rings, size, LargeRing(s));
    NodeOfRing(v, size, s);
    q := v.posOf[v.rings[LargeRing(s)][0].addr];
    NodeFacts(v, size, q);
  }

  // ---- what the loops carry ----

  /** `best_fit` and `best_size` belong together. */
  ghost predicate BestOk(v: View, size: map<Addr, Tag>, n: nat, best: Ptr, bestSize: nat, at: Pos)
    requires n > 0
  {
    if best == Null then bestSize == NO_SIZE else
      at in v.at && at.bucket == HighBit(n) && best == Block(v.at[at]) && bestSize == SizeOf(v, size, at) && n < bestSize < NO_SIZE
  }

  ghost function TurnPtr(v: View, turn: Turn): Ptr {
    if turn.TurnAt? && turn.pos in v.at then Block(v.at[turn.pos]) else Null
  }

  lemma StartSearch(v: View, size: map<Addr, Tag>, n: nat)
    requires 0 < n
    ensures Prefix(1, n)
    ensures TurnOk(v, size, HighBit(n), n, NoTurn, 0, 0, 2 * Pow2(HighBit(n)))
    ensures Closed(v.at, v.posOf) ==> FitsCovered(v, size, HighBit(n), n, 1, NO_SIZE, NoTurn, 0)
  {
    RootPrefix(n);
    forall q | Closed(v.at, v.posOf) && q in v.at
      ensures Prefix(1, q.path)
    {
      RootPrefix(q.path);
    }
  }

  lemma ShiftedInterval(m: nat, n: nat, s: nat, k: nat)
    requires Shifted(m, n, s, k)
    ensures n * Pow2(k) <= s < (n + 1) * Pow2(k)
  {
    assert (n + 1) * Pow2(k) == n * Pow2(k) + Pow2(k);
  }

  /** Nothing of size `n` is present when the whole path missed it. */
  lemma MissedMeansAbsent(v: View, size: map<Addr, Tag>, n: nat, best: nat, turn: Turn, cap: nat)
    requires Kinds(v.rings, size) && Shape(v.at, v.posOf, v.rings, size) && 0 < n < best
    requires SearchEnd(v, size, HighBit(n), n, best, turn, cap)
    ensures !Present(v, n)
  {
    hide Kinds; hide Shape;
    if Present(v, n) {
      var q := PresentNode(v, size, n);
      assert false;
    }
  }

  lemma HighBitOfOne()
    ensures HighBit(1) == 0
  {
  }

  /** The invariant of the walk along the bits of `n`, at node `pos`. */
  ghost predicate OnPath(v: View, size: map<Addr, Tag>, n: nat, pos: Pos, m: nat, k: nat, low: nat, cap: nat, best: nat, turn: Turn)
    requires n > 0
  {
    && pos in v.at && pos.bucket == HighBit(n) && Prefix(pos.path, n) && pos.path >= 1
    && Shifted(m, pos.path, n, k) && HighBit(pos.path) + k == pos.bucket
    && TurnOk(v, size, pos.bucket, n, turn, low, cap, (pos.path + 1) * Pow2(k))
    && FitsCovered(v, size, pos.bucket, n, pos.path, best, turn, cap)
    && Prefix(1, n)
    && LastTurn(v, pos.bucket, n, 1, NoTurn) == LastTurn(v, pos.bucket, n, pos.path, turn)
    && PathBest(v, size, pos.bucket, n, 1, NO_SIZE) == PathBest(v, size, pos.bucket, n, pos.path, best)
  }

  /** The walk ended; `best` and `turn` are what the path gives. */
  ghost predicate PathDone(v: View, size: map<Addr, Tag>, n: nat, best: nat, turn: Turn, cap: nat)
    requires n > 0
  {
    && Prefix(1, n)
    && SearchEnd(v, size, HighBit(n), n, best, turn, cap)
    && turn == LastTurn(v, HighBit(n), n, 1, NoTurn)
    && best == PathBest(v, size, HighBit(n), n, 1, NO_SIZE)
  }

  lemma PathStart(v: View, size: map<Addr, Tag>, n: nat)
    requires Shape(v.at, v.posOf, v.rings, size)
    requires 0 < n < NO_SIZE && Pos(HighBit(n), 1) in v.at
    ensures HighBit(n) < 64
    ensures OnPath(v, size, n, Pos(HighBit(n), 1), Wrap(n * Pow2(64 - HighBit(n))), HighBit(n), 0, 0, NO_SIZE, NoTurn)
  {
    hide Shape; hide TurnOk; hide FitsCovered; hide Shifted;
    ShapeIsClosed(v.at, v.posOf, v.rings, size);
    StartSearch(v, size, n);
    ShiftStart(n);
    HighBitOfOne();
  }

  lemma SizeOfNode(v: View, size: map<Addr, Tag>, q: Pos)
    requires q in v.at && v.at[q] in size
    ensures SizeOf(v, size, q) == size[v.at[q]].n
  {
  }

  lemma UnfoldPath(v: View, size: map<Addr, Tag>, b: nat, n: nat, path: nat, best: nat, turn: Turn)
    requires Pos(b, path) in v.at && Prefix(path, n) && 1 <= path < n
    ensures var s := Step(path, n);
      var best', turn' := Better(SizeOf(v, size, Pos(b, path)), n, best), TurnAfter(v, b, path, s, turn);
      && LastTurn(v, b, n, path, turn) == LastTurn(v, b, n, s, turn')
      && PathBest(v, size, b, n, path, best) == PathBest(v, size, b, n, s, best')
      && (Pos(b, s) !in v.at ==> LastTurn(v, b, n, s, turn') == turn' && PathBest(v, size, b, n, s, best') == best')
  {
  }

  lemma PathStep(v: View, size: map<Addr, Tag>, n: nat, pos: Pos, m: nat, k: nat, low: nat, cap: nat, best: nat, turn: Turn)
    returns (low': nat, cap': nat)
    requires Kinds(v.rings, size) && Shape(v.at, v.posOf, v.rings, size) && n > 0
    requires OnPath(v, size, n, pos, m, k, low, cap, best, turn) && SizeOf(v, size, pos) != n
    ensures pos in v.at && Prefix(pos.path, n) && 1 <= pos.path < n && k >= 1 && m / 0x8000_0000_0000_0000 < 2
    ensures var s := Step(pos.path, n);
      var best', turn' := Better(SizeOf(v, size, pos), n, best), TurnAfter(v, pos.bucket, pos.path, s, turn);
      && s == 2 * pos.path + m / 0x8000_0000_0000_0000
      && (Pos(pos.bucket, s) in v.at ==> OnPath(v, size, n, Pos(pos.bucket, s), Wrap(2 * m), k - 1, low', cap', best', turn'))
      && (Pos(pos.bucket, s) !in v.at ==> PathDone(v, size, n, best', turn', cap'))
  {
    hide Kinds; hide Shape; hide TurnOk; hide FitsCovered; hide Shifted; hide SearchEnd; hide Pow2; hide HighBit; hide TurnAfter;
    hide LastTurn; hide PathBest; hide Wrap; hide Better; hide SizeOf;
    NodeFacts(v, size, pos);
    SizeOfNode(v, size, pos);
    NodeSize(v.at, v.posOf, v.rings, size, pos, n);
    UnfoldPath(v, size, pos.bucket, n, pos.path, best, turn);
    ShiftedInterval(m, pos.path, n, k);
    ShiftStep(m, pos.path, n, k);
    var s := Step(pos.path, n);
    ShiftedInterval(Wrap(2 * m), s, n, k - 1);
    low', cap' := SearchStep(v, size, pos.bucket, n, pos.path, k, best, turn, low, cap);
    HighBitOfChild(pos.path, s);
    if Pos(pos.bucket, s) !in v.at {
      PathEnds(v, size, pos.bucket, n, s, Better(SizeOf(v, size, pos), n, best), TurnAfter(v, pos.bucket, pos.path, s, turn),
               low', cap', (s + 1) * Pow2(k - 1));
    }
  }

  // ---- the walks to the right ----

  /** What a walk that follows `child[child[0] != NULL]` from `r` can visit: `r`, and
      nodes to its right when it has a left child. */
  ghost predicate OnWalk(v: View, r: Pos, q: Pos) {
    Below(v, r, q) && (q == r || (Pos(r.bucket, 2 * r.path) in v.at && Prefix(2 * r.path + 1, q.path)))
  }

  lemma {:induction false} PrefixHighBit(n: nat, x: nat)
    requires Prefix(n, x) && n >= 1
    ensures HighBit(n) <= HighBit(x)
  {
    PrefixLe(n, x);
    HighBitMonotone(n, x);
  }

  /** Left subtrees hold smaller sizes than right ones. */
  lemma LeftIsSmaller(v: View, size: map<Addr, Tag>, r: Pos, l: Pos, q: Pos)
    requires Kinds(v.rings, size) && Shape(v.at, v.posOf, v.rings, size) && r.path >= 1
    requires l == Pos(r.bucket, 2 * r.path) && l in v.at
    requires q in v.at && q.bucket == r.bucket && Prefix(2 * r.path + 1, q.path)
    ensures SizeOf(v, size, l) < SizeOf(v, size, q)
  {
    hide Kinds; hide Shape; hide SizeOf;
    NodeFacts(v, size, l);
    PrefixHighBit(l.path, SizeOf(v, size, l));
    HighBitOfChild(r.path, 2 * r.path);
    HighBitOfChild(r.path, 2 * r.path + 1);
    var k := r.bucket - HighBit(l.path);
    BelowInterval(v, size, l, l, k);
    BelowInterval(v, size, Pos(r.bucket, 2 * r.path + 1), q, k);
  }

  /** A walk's least size is the subtree's exactly when the root's is. */
  lemma WalkFindsLeast(v: View, size: map<Addr, Tag>, r: Pos, q: Pos)
    requires Kinds(v.rings, size) && Shape(v.at, v.posOf, v.rings, size) && r.path >= 1
    requires OnWalk(v, r, q) && r in v.at && SizeOf(v, size, q) <= SizeOf(v, size, r)
    ensures (forall x :: Below(v, r, x) ==> SizeOf(v, size, q) <= SizeOf(v, size, x)) <==> LeastBelow(v, size, r)
  {
    hide Kinds; hide Shape; hide SizeOf;
    if q != r {
      var l := Pos(r.bucket, 2 * r.path);
      LeftIsSmaller(v, size, r, l, q);
      PrefixOfChild(r.path, l.path);
      assert Below(v, r, l);
    }
  }

  /** The next node of a walk, if there is one. */
  lemma WalkOn(v: View, size: map<Addr, Tag>, r: Pos, q: Pos)
    requires Kinds(v.rings, size) && Shape(v.at, v.posOf, v.rings, size) && r.path >= 1
    requires OnWalk(v, r, q)
    ensures q.path >= 1 && q.path < NO_SIZE
    ensures var c := Pos(q.bucket, 2 * q.path + 1);
      Pos(q.bucket, 2 * q.path) in v.at && c in v.at ==> OnWalk(v, r, c)
  {
    hide Kinds; hide Shape; hide Prefix; hide HighBit;
    NodeFacts(v, size, q);
    PrefixLe(q.path, SizeOf(v, size, q));
    var c := Pos(q.bucket, 2 * q.path + 1);
    PrefixOfChild(q.path, c.path);
    PrefixTrans(r.path, q.path, c.path);
    if q == r {
      PrefixSelf(c.path);
    } else {
      PrefixTrans(2 * r.path + 1, q.path, c.path);
    }
  }

  lemma PrefixOfChild(n: nat, c: nat)
    requires c / 2 == n && n >= 1
    ensures Prefix(n, c)
  {
    assert Prefix(n, c / 2);
  }

  lemma PrefixSelf(n: nat)
    ensures Prefix(n, n)
  {
  }

  // ---- the buckets ----

  /** Sizes present lie in the buckets that have roots. */
  lemma PresentHasRoot(v: View, size: map<Addr, Tag>, s: nat)
    requires Kinds(v.rings, size) && Shape(v.at, v.posOf, v.rings, size) && Present(v, s)
    ensures s > 0 && Pos(HighBit(s), 1) in v.at
  {
    hide Kinds; hide Shape;
    var q := PresentNode(v, size, s);
    NodeFacts(v, size, q);
    ShapeIsClosed(v.at, v.posOf, v.rings, size);
    RootPrefix(q.path);
    PrefixOccupied(v.at, v.posOf, q.bucket, 1, q.path);
  }

  /** Fits lie in the bucket of the request or in later ones; every block of a later bucket fits. */
  lemma FitsByBucket(s: nat, n: nat)
    requires s > 0 && n > 0
    ensures n <= s ==> HighBit(n) <= HighBit(s)
    ensures HighBit(n) < HighBit(s) ==> n < s
  {
    if n <= s {
      HighBitMonotone(n, s);
    } else {
      HighBitMonotone(s, n);
    }
  }

  /** With no root at or after the bucket of `n`, nothing fits. */
  lemma NoRootNoFit(v: View, size: map<Addr, Tag>, n: nat, bitmap: nat, largeBitmap: nat)
    requires Kinds(v.rings, size) && Shape(v.at, v.posOf, v.rings, size) && n > 0
    requires forall i: nat :: Bit(largeBitmap, i) <==> Pos(i, 1) in v.at
    requires bitmap == Shr(largeBitmap, HighBit(n)) == 0
    ensures forall s: nat :: Present(v, s) ==> s < n
  {
    hide Kinds; hide Shape;
    forall s: nat | Present(v, s)
      ensures s < n
    {
      PresentHasRoot(v, size, s);
      FitsByBucket(s, n);
      if HighBit(n) <= HighBit(s) {
        ShrSpec(largeBitmap, HighBit(n), HighBit(s) - HighBit(n));
        ZeroHasNoBit(HighBit(s) - HighBit(n));
        assert false;
      }
    }
  }

  /** The least size of the first bucket with a fit is the least fit. */
  lemma LeastOfBucket(v: View, size: map<Addr, Tag>, n: nat, j: nat, s: nat)
    requires Kinds(v.rings, size) && Shape(v.at, v.posOf, v.rings, size) && n > 0
    requires FirstBucket(v, HighBit(n), j)
    requires forall t: nat :: Present(v, t) && n <= t ==> HighBit(t) != HighBit(n)
    requires Present(v, s) && HighBit(s) == j
    ensures n <= s
    ensures LeastFit(v, n, s) <==> forall x :: Below(v, Pos(j, 1), x) ==> s <= SizeOf(v, size, x)
  {
    hide Kinds; hide Shape;
    PresentHasRoot(v, size, s);
    FitsByBucket(s, n);
    if forall x :: Below(v, Pos(j, 1), x) ==> s <= SizeOf(v, size, x) {
      forall t: nat | Present(v, t) && n <= t
        ensures s <= t
      {
        PresentHasRoot(v, size, t);
        FitsByBucket(t, n);
        FitsByBucket(t, s);
        if HighBit(t) == j {
          var x := PresentNode(v, size, t);
          NodeFacts(v, size, x);
          RootPrefix(x.path);
          assert Below(v, Pos(j, 1), x);
        }
      }
    }
    forall x | Below(v, Pos(j, 1), x)
      ensures Present(v, SizeOf(v, size, x)) && n <= SizeOf(v, size, x)
    {
      NodeFacts(v, size, x);
      FitsByBucket(SizeOf(v, size, x), n);
    }
  }

  /** After the walk along the bits, and after the walk from the last turn. */
  lemma LeastOfPath(v: View, size: map<Addr, Tag>, n: nat, best: nat, turn: Turn, cap: nat, s: nat)
    requires Kinds(v.rings, size) && Shape(v.at, v.posOf, v.rings, size) && 0 < n
    requires PathDone(v, size, n, best, turn, cap)
    requires Present(v, s) && n <= s <= best && HighBit(s) == HighBit(n)
    requires turn.TurnAt? ==> turn.pos in v.at && s <= SizeOf(v, size, turn.pos)
    ensures LeastFit(v, n, s) <==> (turn.TurnAt? ==> forall x :: Below(v, turn.pos, x) ==> s <= SizeOf(v, size, x))
  {
    hide Kinds; hide Shape; hide LastTurn; hide PathBest; hide HighBit;
    if turn.TurnAt? ==> forall x :: Below(v, turn.pos, x) ==> s <= SizeOf(v, size, x) {
      forall t: nat | Present(v, t) && n <= t
        ensures s <= t
      {
        var x := PresentNode(v, size, t);
        FitsByBucket(t, s);
        if turn.TurnAt? {
          PrefixSelf(turn.pos.path);
          assert Below(v, turn.pos, turn.pos);
        }
        FitsByBucket(t, n);
      }
    }
    if turn.TurnAt? {
      forall x | Below(v, turn.pos, x)
        ensures Present(v, SizeOf(v, size, x)) && n <= SizeOf(v, size, x)
      {
        NodeFacts(v, size, x);
      }
    }
  }

  /** The bucket of `n` has no fit, and the walk along the bits of `n` says so. */
  ghost predicate NoOwnFit(v: View, size: map<Addr, Tag>, n: nat)
    requires n > 0
  {
    && Prefix(1, n) && !Present(v, n)
    && LastTurn(v, HighBit(n), n, 1, NoTurn) == NoTurn
    && PathBest(v, size, HighBit(n), n, 1, NO_SIZE) == NO_SIZE
    && forall t: nat :: Present(v, t) && n <= t ==> HighBit(t) != HighBit(n)
  }

  lemma NoOwnRoot(v: View, size: map<Addr, Tag>, n: nat)
    requires Kinds(v.rings, size) && Shape(v.at, v.posOf, v.rings, size) && n > 0
    requires Pos(HighBit(n), 1) !in v.at
    ensures NoOwnFit(v, size, n)
  {
    hide Kinds; hide Shape;
    RootPrefix(n);
    forall t: nat | Present(v, t) && n <= t
      ensures HighBit(t) != HighBit(n)
    {
      PresentHasRoot(v, size, t);
    }
  }

  /** The path found nothing and left nothing behind. */
  lemma PathFoundNothing(v: View, size: map<Addr, Tag>, n: nat, cap: nat)
    requires Kinds(v.rings, size) && Shape(v.at, v.posOf, v.rings, size) && 0 < n < NO_SIZE
    requires PathDone(v, size, n, NO_SIZE, NoTurn, cap)
    ensures NoOwnFit(v, size, n)
  {
    hide Kinds; hide Shape; hide LastTurn; hide PathBest;
    forall t: nat | Present(v, t) && n <= t
      ensures HighBit(t) != HighBit(n)
    {
      var x := PresentNode(v, size, t);
      NodeFacts(v, size, x);
    }
  }

  /** Bits of the shifted bitmap name the first bucket beyond that of `n`. */
  lemma FirstBucketOk(v: View, size: map<Addr, Tag>, b: nat, bitmap: nat, index: nat, low: nat)
    requires Kinds(v.rings, size) && Shape(v.at, v.posOf, v.rings, size)
    requires forall k: nat :: Bit(bitmap, k) <==> Pos(index + k, 1) in v.at
    requires index == b + 1 || (index == b && !Bit(bitmap, 0))
    requires Bit(bitmap, low) && forall k :: 0 <= k < low ==> !Bit(bitmap, k)
    ensures FirstBucket(v, b, index + low) && index + low < NUM_BUCKETS
  {
    hide Bit;
    ShapeIsClosed(v.at, v.posOf, v.rings, size);
    forall i | b < i < index + low
      ensures Pos(i, 1) !in v.at
    {
      assert !Bit(bitmap, i - index);
    }
    assert Pos(index + low, 1) in v.at;
  }

  lemma {:induction false} ShiftedBits(v: View, largeBitmap: nat, bitmap: nat, index: nat)
    requires forall i: nat :: Bit(largeBitmap, i) <==> Pos(i, 1) in v.at
    requires bitmap == Shr(largeBitmap, index)
    ensures forall k: nat :: Bit(bitmap, k) <==> Pos(index + k, 1) in v.at
    ensures forall k: nat :: Bit(bitmap / 2, k) <==> Pos(index + 1 + k, 1) in v.at
    ensures Bit(bitmap, 0) <==> bitmap % 2 == 1
  {
    forall k: nat
      ensures Bit(bitmap, k) <==> Pos(index + k, 1) in v.at
      ensures Bit(bitmap / 2, k) <==> Pos(index + 1 + k, 1) in v.at
    {
      ShrSpec(largeBitmap, index, k);
      ShrSpec(largeBitmap, index, k + 1);
      assert Bit(bitmap / 2, k) == Bit(bitmap, k + 1);
    }
  }

  /** The search in a later bucket finds the best fit exactly when FindsLeast says. */
  lemma LaterBucketLeast(v: View, size: map<Addr, Tag>, n: nat, j: nat, q: Pos)
    requires Kinds(v.rings, size) && Shape(v.at, v.posOf, v.rings, size) && n > 0
    requires NoOwnFit(v, size, n) && FirstBucket(v, HighBit(n), j)
    requires q in v.at && q.bucket == j
    requires (forall x :: Below(v, Pos(j, 1), x) ==> SizeOf(v, size, q) <= SizeOf(v, size, x)) <==> LeastBelow(v, size, Pos(j, 1))
    ensures Present(v, SizeOf(v, size, q)) && n <= SizeOf(v, size, q)
    ensures LeastFit(v, n, SizeOf(v, size, q)) <==> FindsLeast(v, size, n)
  {
    hide Kinds; hide Shape; hide LastTurn; hide PathBest; hide LeastFit; hide LeastBelow; hide SizeOf; hide Below; hide HighBit;
    NodeFacts(v, size, q);
    LeastOfBucket(v, size, n, j, SizeOf(v, size, q));
    assert forall i: nat :: FirstBucket(v, HighBit(n), i) ==> i == j by {
      assert forall i: nat :: FirstBucket(v, HighBit(n), i) ==> !(i < j) && !(j < i);
    }
  }

  lemma ExactIsLeast(v: View, size: map<Addr, Tag>, n: nat)
    requires n > 0
    ensures Present(v, n) ==> LeastFit(v, n, n) && FindsLeast(v, size, n)
  {
    hide LastTurn; hide PathBest;
    RootPrefix(n);
  }

  lemma TurnFacts(v: View, size: map<Addr, Tag>, n: nat, best: nat, turn: Turn, cap: nat)
    requires n > 0 && PathDone(v, size, n, best, turn, cap)
    ensures turn.TurnAt? ==> turn.pos in v.at && turn.pos.path >= 1 && turn.pos.bucket == HighBit(n)
    ensures turn.TurnAt? ==> forall q :: Below(v, turn.pos, q) ==> n < SizeOf(v, size, q)
  {
    hide LastTurn; hide PathBest;
  }

  /** The bucket of `n` has a fit; `s` is what the walks found. */
  lemma OwnBucketLeast(v: View, size: map<Addr, Tag>, n: nat, bestPtr: Ptr, best: nat, turn: Turn, cap: nat, s: nat, q: Pos)
    requires Kinds(v.rings, size) && Shape(v.at, v.posOf, v.rings, size) && 0 < n < NO_SIZE
    requires PathDone(v, size, n, best, turn, cap)
    requires BestOk(v, size, n, bestPtr, s, q) && bestPtr != Null && s <= best
    requires turn.NoTurn? ==> s == best
    requires turn.TurnAt? ==> turn.pos in v.at && s <= SizeOf(v, size, turn.pos)
    requires turn.TurnAt? ==>
      ((forall x :: Below(v, turn.pos, x) ==> s <= SizeOf(v, size, x))
       <==> LeastBelow(v, size, turn.pos) || forall x :: Below(v, turn.pos, x) ==> best <= SizeOf(v, size, x))
    ensures !Present(v, n) && Present(v, s) && n <= s
    ensures LeastFit(v, n, s) <==> FindsLeast(v, size, n)
  {
    hide Kinds; hide Shape; hide LastTurn; hide PathBest; hide LeastFit; hide LeastBelow; hide HighBit; hide Prefix; hide SizeOf;
    NodeFacts(v, size, q);
    MissedMeansAbsent(v, size, n, best, turn, cap);
    LeastOfPath(v, size, n, best, turn, cap, s);
  }

  lemma NoLaterRoot(v: View, size: map<Addr, Tag>, n: nat, bitmap: nat, index: nat)
    requires Kinds(v.rings, size) && Shape(v.at, v.posOf, v.rings, size) && n > 0
    requires NoOwnFit(v, size, n) && index == HighBit(n) + 1
    requires forall k: nat :: Bit(bitmap, k) <==> Pos(index + k, 1) in v.at
    requires bitmap == 0
    ensures forall s: nat :: Present(v, s) ==> s < n
  {
    hide Kinds; hide Shape; hide Bit;
    forall s: nat | Present(v, s)
      ensures s < n
    {
      PresentHasRoot(v, size, s);
      FitsByBucket(s, n);
      if HighBit(s) > HighBit(n) {
        ZeroHasNoBit(HighBit(s) - index);
        assert false;
      }
    }
  }
}
