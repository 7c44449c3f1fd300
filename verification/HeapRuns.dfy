/** Runs of a heap: clients' requests, one after the other. */
module HeapRuns {
  import opened Bits
  import opened Sequences
  import opened Sizes
  import opened Tags
  import opened Memory
  import opened Tiling
  import opened FreeBlocks
  import opened HeapSpec
  import opened HeapSteps
  import opened HeapManager

  type Size = n: nat | n < WORD

  datatype Request = Malloc(n: Size) | Realloc(p: Addr, n: Size) | Free(p: Addr) | Store(p: Addr, body: seq<bv8>)

  /** What storage does in each step of a run when asked for a segment, or to resize the
      segment at an address. */
  datatype Storage = Storage(give: (nat, seq<Segment>, nat) -> Addr, move: (nat, seq<Segment>, Addr, nat) -> Addr)

  /** Storage answers NULL or with memory that is not in use. */
  ghost predicate Honest(s: Storage) {
    && (forall step: nat, segs: seq<Segment>, n: nat :: StorageGives(segs, s.give(step, segs, n), n))
    && (forall step: nat, segs: seq<Segment>, j: nat, n: nat :: j < |segs| ==> MovesWell(segs, j, s.move(step, segs, segs[j].base, n), n))
  }

  ghost predicate MovesWell(segs: seq<Segment>, j: nat, moved: Addr, n: nat)
    requires j < |segs|
  {
    moved == 0 || (NewSegment(Remove(segs, j), Segment(moved, n)) && SegmentTotal(segs) + n < WORD)
  }

  /** The request is about the block of `p`. */
  predicate Names(r: Request, p: Addr) {
    match r
    case Malloc(_) => false
    case Realloc(q, _) => q == p
    case Free(q) => q == p
    case Store(q, _) => q == p
  }

  /** The act is what serving the request may do; requests for blocks that the client does
      not hold are not made. A failure releases the reserve, if it is still there. */
  ghost predicate Serves(r: Request, a: Act, reserve: Addr) {
    match r
    case Malloc(n) => (a.Got? && a.n == n) || a == Failed(reserve) || a == Failed(0)
    case Realloc(p, n) =>
      (p == 0 && a.Got? && a.n == n) || (a.Moved? && a.p == p && a.n == n) || a == Failed(reserve) || a == Failed(0) || a == Nothing
    case Free(p) => a == Released(p) || a == Nothing
    case Store(p, body) => a == Wrote(p, body) || a == Nothing
  }

  /** `held` are pointers of the clients, with the room behind them. */
  ghost predicate Holds(h: ZendHeap, held: map<Addr, nat>)
    reads h
  {
    forall p :: p in held ==> p != h.reserve && p - HEADER in h.books.live && h.books.live[p - HEADER].room == held[p]
  }

  /** Why a run ends: storage refused to resize a segment after the free block behind was
      unlinked, or it gave a segment of 2 GiB or more. */
  ghost predicate Ended(h: ZendHeap)
    reads h, h.lists
  {
    (h.Intact() && !h.Near()) || exists next :: h.Stranded(next)
  }

  /** A request for `n` bytes finds no room, with what storage answers. */
  ghost predicate NoRoomFor(h: ZendHeap, storage: Storage, step: nat, n: Size)
    reads h, h.lists
  {
    h.NoRoom(n, storage.give(step, h.segments, SegmentSize(h.blockSize, TrueSize(n))))
  }

  /** Nor can the block of `p` grow to `n` bytes. */
  ghost predicate NoGrowthFor(h: ZendHeap, storage: Storage, step: nat, p: Addr, n: Size)
    reads h, h.lists
  {
    var m := SegmentSize(h.blockSize, TrueSize(n));
    TrueSize(n) < n || h.NoGrowth(p - HEADER, n, storage.give(step, h.segments, m), storage.move(step, h.segments, p - HEADER - SEGMENT_HEADER, m))
  }

  /** When a request fails. */
  ghost predicate Refused(h: ZendHeap, storage: Storage, step: nat, r: Request, held: map<Addr, nat>)
    reads h, h.lists
  {
    match r
    case Malloc(n) => NoRoomFor(h, storage, step, n)
    case Realloc(p, n) => if p == 0 then NoRoomFor(h, storage, step, n) else p in held && NoGrowthFor(h, storage, step, p, n)
    case Free(_) => false
    case Store(_, _) => false
  }

  /** When it is not made: the client does not hold the block, or stores more or less than its room. */
  predicate Idle(r: Request, held: map<Addr, nat>) {
    match r
    case Malloc(_) => false
    case Realloc(p, _) => p != 0 && p !in held
    case Free(p) => p !in held
    case Store(p, body) => p !in held || held[p] != |body|
  }

  /** Serves request number `step`; `ended` tells that the run cannot go on. */
  method ServeOne(h: ZendHeap, storage: Storage, step: nat, r: Request, held: map<Addr, nat>)
    returns (ended: bool, held': map<Addr, nat>, ghost a: Act)
    requires h.Valid() && Honest(storage) && Holds(h, held) && 0 !in held
    modifies h, h.lists
    ensures !ended ==> h.Valid() && Holds(h, held') && 0 !in held' && (h.reserve == old(h.reserve) || h.reserve == 0)
    ensures ended ==> Ended(h)
    ensures Did(old(h.books).live, a, h.books.live) && Serves(r, a, old(h.reserve))
    ensures (a.Failed? <==> old(Refused(h, storage, step, r, held))) && (a == Nothing <==> Idle(r, held))
  {
    hide ZendHeap.Counted; hide Honest; hide ZendHeap.Stranded; hide Fits;
    hide KeepsBytes; hide StorageGives; hide SegmentSize; hide TrueSize;
    hide ZendHeap.NoRoom; hide ZendHeap.HasFit; hide ZendHeap.RequestCounted;
    hide ZendHeap.Strands; hide ZendHeap.PastLimit; hide ZendHeap.FillsSegment;
    hide NoRoomFor; hide NoGrowthFor;
    hide ZendHeap.FreedIn; hide ZendHeap.Returned; hide Tidied; hide ZendHeap.StorageReallocs; hide ZendHeap.InCache;
    ended, held', a := false, held, Nothing;
    match r
    case Malloc(n) =>
      ended, held', a := ServeMalloc(h, storage, step, n, held);
    case Realloc(p, n) =>
      if p == 0 {
        ended, held', a := ServeMalloc(h, storage, step, n, held);
      } else if p in held {
        ended, held', a := ServeRealloc(h, storage, step, p, n, held);
      }
    case Free(p) =>
      if p in held {
        BlockIsNear(h, p - HEADER);
        h.FreePtr(p);
        held', a := held - {p}, Released(p);
      }
    case Store(p, body) =>
      if p in held && held[p] == |body| {
        h.Write(p, body);
        a := Wrote(p, body);
      }
  }

  method ServeMalloc(h: ZendHeap, storage: Storage, step: nat, n: Size, held: map<Addr, nat>)
    returns (ended: bool, held': map<Addr, nat>, ghost a: Act)
    requires h.Valid() && Honest(storage) && Holds(h, held) && 0 !in held
    modifies h, h.lists
    ensures !ended ==> h.Valid() && Holds(h, held') && 0 !in held' && (h.reserve == old(h.reserve) || h.reserve == 0)
    ensures ended ==> Ended(h)
    ensures Did(old(h.books).live, a, h.books.live) && ((a.Got? && a.n == n) || a == Failed(old(h.reserve)))
    ensures a.Failed? <==> old(NoRoomFor(h, storage, step, n))
  {
    hide ZendHeap.GotBlock; hide ZendHeap.Picked; hide ZendHeap.AllocShows; hide ZendHeap.LeftServes;
    hide ZendHeap.Sound; hide Fits; hide StorageGives; hide SegmentSize;
    hide TrueSize; hide ZendHeap.NoRoom; hide ZendHeap.HasFit; hide ZendHeap.Oversized; hide ZendHeap.Near;
    hide ZendHeap.RequestCounted; hide ZendHeap.InCache; hide ZendHeap.FillsSegment; hide ZendHeap.SpanOf;
    var p := h.AllocInt(n, storage.give(step, h.segments, SegmentSize(h.blockSize, TrueSize(n))));
    if p == 0 {
      return false, held, Failed(old(h.reserve));
    }
    var whole := h.BlockSizeOf(p);
    var near := h.IsNear();
    return !near, held[p := whole - HEADER], Got(p, n);
  }

  method ServeRealloc(h: ZendHeap, storage: Storage, step: nat, p: Addr, n: Size, held: map<Addr, nat>)
    returns (ended: bool, held': map<Addr, nat>, ghost a: Act)
    requires h.Valid() && Honest(storage) && Holds(h, held) && 0 !in held && p in held
    modifies h, h.lists
    ensures !ended ==> h.Valid() && Holds(h, held') && 0 !in held' && (h.reserve == old(h.reserve) || h.reserve == 0)
    ensures ended ==> Ended(h)
    ensures Did(old(h.books).live, a, h.books.live) && ((a.Moved? && a.p == p && a.n == n) || a == Failed(old(h.reserve)))
    ensures a.Failed? <==> old(NoGrowthFor(h, storage, step, p, n))
  {
    hide BytesAt; hide ZendHeap.LeftOfSegment; hide ZendHeap.ListedWhole; hide ZendHeap.SpanOf; hide ZendHeap.Stays; hide Tidied;
    hide ZendHeap.GotBlock; hide ZendHeap.Picked; hide ZendHeap.Regot;
    hide ZendHeap.Sound; hide ZendHeap.Stranded; hide Fits; hide KeepsBytes; hide StorageGives; hide SegmentSize; hide TrueSize;
    hide ZendHeap.NoRoom; hide ZendHeap.Strands; hide ZendHeap.PastLimit; hide ZendHeap.FillsSegment; hide ZendHeap.NoGrowth;
    hide ZendHeap.Oversized; hide ZendHeap.Outgrows; hide ZendHeap.Near;
    var base := storage.give(step, h.segments, SegmentSize(h.blockSize, TrueSize(n)));
    var moved := storage.move(step, h.segments, p - HEADER - SEGMENT_HEADER, SegmentSize(h.blockSize, TrueSize(n)));
    HonestMove(h, storage, step, p - HEADER, TrueSize(n));
    var strands := h.WouldStrand(p - HEADER, n, moved);
    var q := h.ReallocInt(p, n, base, moved);
    if q == 0 {
      return strands, held, Failed(old(h.reserve));
    }
    var whole := h.BlockSizeOf(q);
    var near := h.IsNear();
    return !near, (held - {p})[q := whole - HEADER], Moved(p, q, n);
  }

  lemma HonestMove(h: ZendHeap, storage: Storage, step: nat, b: Addr, t: nat)
    requires h.Valid() && Honest(storage)
    ensures var n := SegmentSize(h.blockSize, t);
      h.StorageReallocs(b, t, storage.move(step, h.segments, b - SEGMENT_HEADER, n))
  {
    hide HeapOk; hide HeadersApart; hide FreeLists.Valid; hide LiveTotal;
    hide SegmentTotal; hide SegmentSize; hide ZendHeap.FillsSegment; hide NewSegment;
  }

  lemma BlockIsNear(h: ZendHeap, b: Addr)
    requires h.Valid()
    ensures NearHome(h.books.home, b)
  {
    hide FreeLists.Valid; hide HeadersApart; hide LiveTotal; hide SegmentTotal; hide CacheTotal; hide ValidSegmentBlock; hide HeapOk;
    HomeNear(h.Here(), {}, b);
  }

  lemma LivePositive(h: ZendHeap)
    requires h.Valid()
    ensures forall b :: b in h.books.live ==> b > 0
  {
    hide FreeLists.Valid; hide HeadersApart; hide LiveTotal; hide SegmentTotal; hide CacheTotal; hide ValidSegmentBlock; hide HeapOk;
    forall b | b in h.books.live
      ensures b > 0
    {
      BehindLive(h.Here(), b);
    }
  }

  /** Serves requests, whether they fail or not, as long as the heap is valid: only storage
      can end that, see Ended. The heap is valid all along, each step
      does what its request asks, and blocks that no request is about keep their place,
      their room and their bytes. */
  method Serve(h: ZendHeap, storage: Storage, requests: seq<Request>, held: map<Addr, nat>)
    returns (done: nat, ended: bool, ghost states: seq<Live>, ghost acts: seq<Act>)
    requires h.Valid() && Honest(storage) && Holds(h, held) && 0 !in held
    modifies h, h.lists
    ensures done <= |requests| && (!ended ==> done == |requests| && h.Valid())
    ensures ended ==> Ended(h)
    ensures |acts| == done && |states| == done + 1 && IsRun(states, acts) && states[0] == old(h.books).live && states[done] == h.books.live
    ensures AllServed(requests[..done], acts, old(h.reserve))
    ensures forall b :: b in old(h.books).live && b + HEADER != old(h.reserve) && Unnamed(requests[..done], b + HEADER) ==>
      b in h.books.live && h.books.live[b] == old(h.books).live[b]
  {
    hide ZendHeap.Valid; hide ZendHeap.Stranded; hide Holds; hide Did; hide Honest; hide IsRun; hide Serves; hide Unnamed; hide AllServed;
    LivePositive(h);
    var held' := held;
    done, ended := 0, false;
    states, acts := [h.books.live], [];
    RunStarts(states, requests[..0], h.reserve);
    while done < |requests| && !ended
      invariant done <= |requests|
      invariant !ended ==> h.Valid() && Holds(h, held') && 0 !in held' && (h.reserve == old(h.reserve) || h.reserve == 0)
      invariant ended ==> Ended(h)
      invariant |acts| == done && |states| == done + 1 && IsRun(states, acts) && states[0] == old(h.books).live && states[done] == h.books.live
      invariant AllServed(requests[..done], acts, old(h.reserve))
      decreases |requests| - done
    {
      ghost var a;
      ended, held', a := ServeOne(h, storage, done, requests[done], held');
      RunGrows(states, acts, a, h.books.live);
      ServesLater(requests[done], a, old(h.reserve));
      ServedGrows(requests, acts, old(h.reserve), a);
      states, acts := states + [h.books.live], acts + [a];
      done := done + 1;
    }
    forall b | b in old(h.books).live && b + HEADER != old(h.reserve) && Unnamed(requests[..done], b + HEADER)
      ensures b in h.books.live && h.books.live[b] == old(h.books).live[b]
    {
      KeptOverRun(states, acts, requests[..done], old(h.reserve), b);
    }
  }

  lemma KeptOverRun(states: seq<Live>, acts: seq<Act>, requests: seq<Request>, reserve: Addr, b: Addr)
    requires IsRun(states, acts) && b in states[0] && b > 0 && b + HEADER != reserve
    requires AllServed(requests, acts, reserve) && Unnamed(requests, b + HEADER)
    ensures b in states[|acts|] && states[|acts|][b] == states[0][b]
  {
    hide IsRun;
    forall a | a in acts
      ensures !Touches(a, b + HEADER)
    {
      var i :| 0 <= i < |acts| && acts[i] == a;
      assert Serves(requests[i], acts[i], reserve) && requests[i] in requests;
    }
    OthersKeepTheirs(states, acts, b + HEADER);
  }

  /** Each act is what serving the request may do. */
  ghost predicate AllServed(requests: seq<Request>, acts: seq<Act>, reserve: Addr) {
    |requests| == |acts| && forall i :: 0 <= i < |acts| ==> Serves(requests[i], acts[i], reserve)
  }

  lemma ServesLater(r: Request, a: Act, reserve: Addr)
    ensures Serves(r, a, 0) ==> Serves(r, a, reserve)
  {
  }

  lemma ServedGrows(requests: seq<Request>, acts: seq<Act>, reserve: Addr, a: Act)
    requires |acts| < |requests| && AllServed(requests[..|acts|], acts, reserve) && Serves(requests[|acts|], a, reserve)
    ensures AllServed(requests[..|acts| + 1], acts + [a], reserve)
  {
    hide Serves;
    forall i | 0 <= i < |acts| + 1
      ensures Serves(requests[..|acts| + 1][i], (acts + [a])[i], reserve)
    {
      if i < |acts| {
        assert requests[..|acts|][i] == requests[i];
      }
    }
  }

  lemma RunStarts(states: seq<Live>, requests: seq<Request>, reserve: Addr)
    requires |states| == 1 && requests == []
    ensures IsRun(states, []) && AllServed(requests, [], reserve)
  {
  }

  lemma RunGrows(states: seq<Live>, acts: seq<Act>, a: Act, live: Live)
    requires IsRun(states, acts) && Did(states[|acts|], a, live)
    ensures IsRun(states + [live], acts + [a])
  {
    hide Did;
  }

  /** No request is about the block of `p`. */
  predicate Unnamed(requests: seq<Request>, p: Addr) {
    forall r :: r in requests ==> !Names(r, p)
  }
}
