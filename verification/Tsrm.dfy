/** The thread-safe resource manager (TSRM.c:165-198, 215-379, 442-560): a hash table of
    per-thread storages. Public calls are atomic, allocation succeeds. */
module Tsrm {
  import opened Options
  import opened Sequences

  /** A resource type; its size and constructor do not matter here. */
  datatype ResourceType = ResourceType(dtor: bool, done: bool)

  /** A thread's entry; `storage[j]` tells whether the cell of type `j` is non-NULL. */
  datatype Entry = Entry(thread: nat, storage: seq<bool>, count: nat)

  /** Entries are told apart by number; a cell is an entry and a type. */
  type Ptr = nat

  /** A call of the destructor of type `j` with the cell of entry `p`, or with NULL. */
  datatype Call = Call(p: Ptr, j: nat, isNull: bool)

  type Entries = map<Ptr, Entry>
  type Types = seq<ResourceType>
  type Chains = seq<seq<Ptr>>

  /** The thread-local pointers that are not NULL. */
  type Locals = map<nat, Ptr>

  /** A thread's local pointer is NULL or leads to the thread's own entry. */
  predicate Attached(tls: Locals, entries: Entries, thread: nat) {
    thread in tls ==> tls[thread] in entries && entries[tls[thread]].thread == thread
  }

  function HashOf(thread: nat, size: nat): (h: nat)
    requires size > 0
    ensures h < size
  {
    thread % size
  }

  /** Every linked entry is in its thread's bucket, once, and no two have one thread. */
  ghost predicate ChainsOk(chains: Chains, entries: Entries) {
    && |chains| > 0
    && (forall n, i :: 0 <= n < |chains| && 0 <= i < |chains[n]| ==>
          chains[n][i] in entries && HashOf(entries[chains[n][i]].thread, |chains|) == n)
    && (forall n, i, i' :: 0 <= n < |chains| && 0 <= i < i' < |chains[n]| ==> chains[n][i] != chains[n][i'])
    && (forall p :: p in entries ==> p in chains[HashOf(entries[p].thread, |chains|)])
    && (forall p, q :: p in entries && q in entries && p != q ==> entries[p].thread != entries[q].thread)
  }

  /** Every entry has a cell for every id; it is NULL exactly for the ids that are done. */
  ghost predicate StorageOk(e: Entry, types: Types) {
    && e.count == |e.storage| == |types|
    && forall j :: 0 <= j < |types| ==> (e.storage[j] <==> !types[j].done)
  }

  ghost predicate StoragesOk(entries: Entries, types: Types) {
    forall p :: p in entries ==> StorageOk(entries[p], types)
  }

  function Calls(log: seq<Call>, p: Ptr, j: nat): nat {
    if log == [] then 0 else Calls(log[..|log| - 1], p, j) + (if log[|log| - 1] == Call(p, j, false) then 1 else 0)
  }

  predicate Alive(entries: Entries, p: Ptr, j: nat) {
    p in entries && j < |entries[p].storage| && entries[p].storage[j]
  }

  /** How often the destructor must have been called with a cell: once when the cell was
      there and is gone. Cells of entry `q` below `i` count as gone. */
  predicate Destroyed(born: set<(Ptr, nat)>, entries: Entries, q: Ptr, i: nat, p: Ptr, j: nat) {
    (p, j) in born && (!Alive(entries, p, j) || (p == q && j < i))
  }

  ghost predicate LogOk(log: seq<Call>, born: set<(Ptr, nat)>, entries: Entries, types: Types, q: Ptr, i: nat) {
    && (forall p: Ptr, j: nat :: Alive(entries, p, j) ==> (p, j) in born)
    && (forall c :: c in born ==> c.1 < |types|)
    && forall p: Ptr, j: nat :: Calls(log, p, j) == if Destroyed(born, entries, q, i, p, j) && types[j].dtor then 1 else 0
  }

  // ---- steps ----

  /** One more call, or none when the type has no destructor. */
  function AfterDtor(log: seq<Call>, types: Types, p: Ptr, j: nat, isNull: bool): seq<Call>
    requires j < |types|
  {
    if types[j].dtor then log + [Call(p, j, isNull)] else log
  }

  lemma CallsSnoc(log: seq<Call>, c: Call, p: Ptr, j: nat)
    ensures Calls(log + [c], p, j) == Calls(log, p, j) + (if c == Call(p, j, false) then 1 else 0)
  {
    assert (log + [c])[..|log|] == log;
  }

  /** The destructor of the next cell of entry `q` is called. */
  lemma DtorStep(log: seq<Call>, born: set<(Ptr, nat)>, entries: Entries, types: Types, q: Ptr, i: nat)
    requires LogOk(log, born, entries, types, q, i) && q in entries && StorageOk(entries[q], types) && i < |types|
    ensures LogOk(AfterDtor(log, types, q, i, !entries[q].storage[i]), born, entries, types, q, i + 1)
  {
    var log' := AfterDtor(log, types, q, i, !entries[q].storage[i]);
    forall p: Ptr, j: nat
      ensures Calls(log', p, j) == if Destroyed(born, entries, q, i + 1, p, j) && types[j].dtor then 1 else 0
    {
      CallsSnoc(log, Call(q, i, !entries[q].storage[i]), p, j);
      assert Calls(log, p, j) == if Destroyed(born, entries, q, i, p, j) && types[j].dtor then 1 else 0;
    }
  }

  /** Nothing is left to do for a cell that is NULL. */
  lemma NullStep(log: seq<Call>, born: set<(Ptr, nat)>, entries: Entries, types: Types, q: Ptr, i: nat)
    requires LogOk(log, born, entries, types, q, i) && q in entries && i < |entries[q].storage| && !entries[q].storage[i]
    ensures LogOk(log, born, entries, types, q, i + 1)
  {
    forall p: Ptr, j: nat
      ensures Destroyed(born, entries, q, i, p, j) == Destroyed(born, entries, q, i + 1, p, j)
    {
    }
  }

  /** The entry is freed after all its destructors. */
  lemma EntryGone(log: seq<Call>, born: set<(Ptr, nat)>, entries: Entries, types: Types, q: Ptr, q': Ptr)
    requires LogOk(log, born, entries, types, q, |types|) && q in entries && StorageOk(entries[q], types)
    ensures LogOk(log, born, entries - {q}, types, q', 0)
  {
    forall p: Ptr, j: nat
      ensures (p, j) in born ==> (Destroyed(born, entries, q, |types|, p, j) <==> Destroyed(born, entries - {q}, q', 0, p, j))
    {
    }
  }

  /** One cell is destroyed and set to NULL. */
  lemma CellGone(log: seq<Call>, born: set<(Ptr, nat)>, entries: Entries, types: Types, p: Ptr, i: nat)
    requires LogOk(log, born, entries, types, 0, 0) && Alive(entries, p, i) && i < |types|
    ensures LogOk(AfterDtor(log, types, p, i, false), born,
                  entries[p := entries[p].(storage := entries[p].storage[i := false])], types, 0, 0)
  {
    var log' := AfterDtor(log, types, p, i, false);
    var entries' := entries[p := entries[p].(storage := entries[p].storage[i := false])];
    forall p': Ptr, j: nat
      ensures Alive(entries', p', j) <==> Alive(entries, p', j) && (p', j) != (p, i)
      ensures Calls(log', p', j) == if Destroyed(born, entries', 0, 0, p', j) && types[j].dtor then 1 else 0
    {
      CallsSnoc(log, Call(p, i, false), p', j);
      assert Calls(log, p', j) == if Destroyed(born, entries, 0, 0, p', j) && types[j].dtor then 1 else 0;
    }
  }

  /** A cell appears. */
  lemma CellBorn(log: seq<Call>, born: set<(Ptr, nat)>, entries: Entries, entries': Entries, types: Types, p: Ptr, i: nat)
    requires LogOk(log, born, entries, types, 0, 0) && (p, i) !in born && i < |types|
    requires forall p': Ptr, j: nat :: Alive(entries', p', j) <==> Alive(entries, p', j) || (p', j) == (p, i)
    ensures LogOk(log, born + {(p, i)}, entries', types, 0, 0)
  {
    forall p': Ptr, j: nat
      ensures Destroyed(born + {(p, i)}, entries', 0, 0, p', j) == Destroyed(born, entries, 0, 0, p', j)
    {
    }
  }

  /** What ts_free_thread calls for an entry: every destructor, also with NULL for the ids
      that are done. */
  function FreeCalls(types: Types, p: Ptr, n: nat): seq<Call>
    requires n <= |types|
  {
    if n == 0 then [] else AfterDtor(FreeCalls(types, p, n - 1), types, p, n - 1, types[n - 1].done)
  }

  /** A call with NULL happens exactly for the ids that are done and have a destructor. */
  lemma {:induction false} NullCalls(types: Types, p: Ptr, n: nat, j: nat)
    requires n <= |types|
    ensures Call(p, j, true) in FreeCalls(types, p, n) <==> j < n && types[j].dtor && types[j].done
    ensures Call(p, j, false) in FreeCalls(types, p, n) <==> j < n && types[j].dtor && !types[j].done
  {
    if n > 0 {
      NullCalls(types, p, n - 1, j);
    }
  }

  /** What freeing entries one after the other calls. */
  function AllCalls(types: Types, ps: seq<Ptr>): seq<Call> {
    if ps == [] then [] else AllCalls(types, ps[..|ps| - 1]) + FreeCalls(types, ps[|ps| - 1], |types|)
  }

  lemma NoCalls(types: Types, log: seq<Call>)
    ensures log + AllCalls(types, []) == log
  {
  }

  lemma AllCallsSnoc(types: Types, log: seq<Call>, ps: seq<Ptr>, p: Ptr)
    ensures log + AllCalls(types, ps + [p]) == log + AllCalls(types, ps) + FreeCalls(types, p, |types|)
  {
    hide FreeCalls;
    assert (ps + [p])[..|ps|] == ps;
  }

  /** The entries that are no longer there, each once. */
  ghost predicate Gone(ps: seq<Ptr>, before: Entries, entries: Entries) {
    && (forall p :: p in ps <==> p in before && p !in entries)
    && forall i, j :: 0 <= i < j < |ps| ==> ps[i] != ps[j]
  }

  lemma NobodyGone(entries: Entries)
    ensures Gone([], entries, entries)
  {
  }

  lemma OneMoreGone(ps: seq<Ptr>, before: Entries, entries: Entries, p: Ptr)
    requires Gone(ps, before, entries) && p in before && p in entries
    ensures Gone(ps + [p], before, entries - {p})
  {
  }

  /** Only calls with cells of type `j` were added; any type for None. */
  ghost predicate OnlyCells(log0: seq<Call>, log: seq<Call>, j: Option<nat>) {
    && |log0| <= |log| && log[..|log0|] == log0
    && forall k :: |log0| <= k < |log| ==> !log[k].isNull && (j.Some? ==> log[k].j == j.value)
  }

  lemma TypesGrow(log: seq<Call>, born: set<(Ptr, nat)>, entries: Entries, types: Types, t: ResourceType)
    requires LogOk(log, born, entries, types, 0, 0)
    ensures LogOk(log, born, entries, types + [t], 0, 0)
    ensures forall c :: c in born ==> c.1 < |types|
  {
    forall p: Ptr, j: nat
      ensures Calls(log, p, j) == if Destroyed(born, entries, 0, 0, p, j) && (types + [t])[j].dtor then 1 else 0
    {
      assert Calls(log, p, j) == if Destroyed(born, entries, 0, 0, p, j) && types[j].dtor then 1 else 0;
    }
  }

  lemma TypeDone(log: seq<Call>, born: set<(Ptr, nat)>, entries: Entries, types: Types, j: nat)
    requires LogOk(log, born, entries, types, 0, 0) && j < |types|
    ensures LogOk(log, born, entries, types[j := types[j].(done := true)], 0, 0)
  {
    var types' := types[j := types[j].(done := true)];
    forall p: Ptr, k: nat
      ensures Calls(log, p, k) == if Destroyed(born, entries, 0, 0, p, k) && types'[k].dtor then 1 else 0
    {
      assert Calls(log, p, k) == if Destroyed(born, entries, 0, 0, p, k) && types[k].dtor then 1 else 0;
    }
  }

  lemma NobodyHalfway(log: seq<Call>, born: set<(Ptr, nat)>, entries: Entries, types: Types, q: Ptr, q': Ptr)
    requires LogOk(log, born, entries, types, q, 0)
    ensures LogOk(log, born, entries, types, q', 0)
  {
    forall p: Ptr, j: nat
      ensures Destroyed(born, entries, q, 0, p, j) == Destroyed(born, entries, q', 0, p, j)
    {
    }
  }

  lemma UnlinkOk(chains: Chains, entries: Entries, n: nat, i: nat)
    requires ChainsOk(chains, entries) && n < |chains| && i < |chains[n]|
    ensures ChainsOk(chains[n := Remove(chains[n], i)], entries - {chains[n][i]})
  {
    hide Remove; hide HashOf;
    RemoveContents(chains[n], i);
    var chains' := chains[n := Remove(chains[n], i)];
    forall m, k | 0 <= m < |chains'| && 0 <= k < |chains'[m]|
      ensures chains'[m][k] in entries && chains'[m][k] != chains[n][i] && HashOf(entries[chains'[m][k]].thread, |chains|) == m
    {
      assert chains'[m][k] in chains'[m];
    }
  }

  lemma LinkOk(chains: Chains, entries: Entries, p: Ptr, e: Entry)
    requires ChainsOk(chains, entries) && p !in entries && forall q :: q in entries ==> entries[q].thread != e.thread
    ensures var n := HashOf(e.thread, |chains|); ChainsOk(chains[n := chains[n] + [p]], entries[p := e])
  {
    var n := HashOf(e.thread, |chains|);
    var e' := entries[p := e];
    var chains' := chains[n := chains[n] + [p]];
    forall q | q in e'
      ensures q in chains'[HashOf(e'[q].thread, |chains'|)]
    {
      if q == p {
        assert chains'[n][|chains[n]|] == p;
      } else {
        assert q in chains[HashOf(entries[q].thread, |chains|)];
      }
    }
  }

  /** Storages may change under linked entries. */
  lemma SameChains(chains: Chains, entries: Entries, entries': Entries)
    requires ChainsOk(chains, entries) && entries'.Keys == entries.Keys
    requires forall p :: p in entries ==> entries'[p].thread == entries[p].thread
    ensures ChainsOk(chains, entries')
  {
  }

  class ResourceManager {
    var table: Chains
    var entries: Entries
    var types: Types
    var idCount: nat
    var nextPtr: Ptr
    var locked: bool
    var tls: Locals
    ghost var log: seq<Call>
    // the cells that ever existed in linked entries
    ghost var born: set<(Ptr, nat)>

    ghost predicate Linked()
      reads this
    {
      && ChainsOk(table, entries) && (forall p :: p in entries ==> p < nextPtr) && (forall c :: c in born ==> c.0 < nextPtr)
      && idCount == |types|
    }

    /** What holds between calls. */
    ghost predicate Valid()
      reads this
    {
      !locked && Linked() && StoragesOk(entries, types) && LogOk(log, born, entries, types, 0, 0)
    }

    /** tsrm_startup. */
    constructor (expectedThreads: nat)
      requires expectedThreads > 0
      ensures Valid() && |table| == expectedThreads && entries == map[] && types == [] && log == [] && tls == map[]
    {
      table := seq(expectedThreads, _ => []);
      entries, types, idCount, nextPtr, locked, tls := map[], [], 0, 0, false, map[];
      log, born := [], {};
    }

    method Lock()
      requires !locked
      modifies this`locked
      ensures locked
    {
      locked := true;
    }

    method Unlock()
      requires locked
      modifies this`locked
      ensures !locked
    {
      locked := false;
    }

    /** ts_allocate_id: every linked entry gets a cell for the new id. */
    method AllocateId(dtor: bool) returns (id: nat)
      requires Valid()
      modifies this
      ensures Valid() && id == idCount == old(idCount) + 1 && types == old(types) + [ResourceType(dtor, false)]
      ensures table == old(table) && entries.Keys == old(entries).Keys && log == old(log) && tls == old(tls)
      ensures forall p :: p in entries ==> entries[p].thread == old(entries)[p].thread && Alive(entries, p, id - 1)
    {
      hide ChainsOk; hide LogOk; hide StorageOk; hide Alive; hide HashOf;
      Lock();
      id := idCount + 1;
      idCount := idCount + 1;
      ghost var types0 := types;
      types := types + [ResourceType(dtor, false)];
      TypesGrow(log, born, entries, types0, ResourceType(dtor, false));
      ghost var grown: set<Ptr> := {};
      var n := 0;
      while n < |table|
        invariant 0 <= n <= |table| && table == old(table) && locked && types == types0 + [ResourceType(dtor, false)]
        invariant Growing(types0, grown) && entries.Keys == old(entries).Keys && SameThreads(old(entries), entries)
        invariant log == old(log) && id == idCount && nextPtr == old(nextPtr) && tls == old(tls)
        invariant forall m, k :: 0 <= m < n && 0 <= k < |table[m]| ==> table[m][k] in grown
      {
        grown := GrowChain(n, types0, grown);
        n := n + 1;
      }
      AllGrown(table, entries, grown);
      CellsThere(entries, types, id - 1);
      Unlock();
    }

    ghost predicate SameThreads(e: Entries, e': Entries) {
      forall p :: p in e && p in e' ==> e'[p].thread == e[p].thread
    }

    /** The entries of `grown` have a cell for every type, the others for the types before. */
    ghost predicate Growing(types0: Types, grown: set<Ptr>)
      reads this
    {
      && Linked() && LogOk(log, born, entries, types, 0, 0)
      && (forall c :: c in born && c.1 >= |types0| ==> c.0 in grown)
      && forall p :: p in entries ==> StorageOk(entries[p], if p in grown then types else types0)
    }

    /** The arrays of one chain are enlarged. */
    method GrowChain(n: nat, ghost types0: Types, ghost grown: set<Ptr>) returns (ghost grown': set<Ptr>)
      requires Growing(types0, grown) && n < |table| && locked && |types| == |types0| + 1 && types0 == types[..|types0|]
      requires !types[|types0|].done
      modifies this`entries, this`born
      ensures Growing(types0, grown') && grown <= grown' && entries.Keys == old(entries).Keys && SameThreads(old(entries), entries)
      ensures forall k :: 0 <= k < |table[n]| ==> table[n][k] in grown'
    {
      hide ChainsOk; hide LogOk; hide StorageOk; hide HashOf;
      grown' := grown;
      var i := 0;
      while i < |table[n]|
        invariant 0 <= i <= |table[n]| && Growing(types0, grown') && grown <= grown'
        invariant entries.Keys == old(entries).Keys && SameThreads(old(entries), entries)
        invariant forall k :: 0 <= k < i ==> table[n][k] in grown'
      {
        InChain(table, entries, n, i);
        grown' := GrowEntry(table[n][i], types0, grown');
        i := i + 1;
      }
    }

    /** The array of one entry is enlarged. */
    method GrowEntry(p: Ptr, ghost types0: Types, ghost grown: set<Ptr>) returns (ghost grown': set<Ptr>)
      requires Growing(types0, grown) && p in entries && locked && |types| == |types0| + 1 && types0 == types[..|types0|]
      requires !types[|types0|].done
      modifies this`entries, this`born
      ensures Growing(types0, grown') && grown' == grown + {p} && entries.Keys == old(entries).Keys && SameThreads(old(entries), entries)
    {
      hide ChainsOk; hide LogOk; hide StorageOk;
      grown' := grown + {p};
      ghost var entries0 := entries;
      var e := entries[p];
      StorageCounts(e, if p in grown then types else types0);
      if e.count < idCount {
        var storage := e.storage;
        var j := e.count;
        while j < idCount
          invariant e.count <= j <= idCount && |storage| == j && storage[..e.count] == e.storage
          invariant forall k :: e.count <= k < j ==> storage[k]
        {
          storage := storage + [true];
          j := j + 1;
        }
        assert p !in grown;
        GrownStorage(e, storage, types0, types);
        entries := entries[p := Entry(e.thread, storage, idCount)];
        CellBorn(log, born, entries0, entries, types, p, |types0|);
        born := born + {(p, |types0|)};
        SameChains(table, entries0, entries);
      }
    }

    /** allocate_new_resource: a new entry at the end of chain `n`, a cell for every id that
        is not done; the mutex is released. It becomes the local entry of the caller,
        whichever thread it is for. */
    method AllocateNewResource(thread: nat, n: nat, caller: nat)
      requires locked && Linked() && StoragesOk(entries, types) && LogOk(log, born, entries, types, 0, 0)
      requires n == HashOf(thread, |table|) && forall p :: p in entries ==> entries[p].thread != thread
      modifies this
      ensures Valid() && types == old(types) && log == old(log) && idCount == old(idCount)
      ensures table == old(table)[n := old(table)[n] + [old(nextPtr)]] && old(nextPtr) !in old(entries)
      ensures tls == old(tls)[caller := old(nextPtr)]
      ensures var p := old(nextPtr); p in entries && entries == old(entries)[p := entries[p]] && entries[p].thread == thread
    {
      hide ChainsOk;
      var p := nextPtr;
      nextPtr := nextPtr + 1;
      var storage: seq<bool> := [];
      var j := 0;
      while j < idCount
        invariant 0 <= j <= idCount == |types| && |storage| == j
        invariant forall k :: 0 <= k < j ==> (storage[k] <==> !types[k].done)
      {
        storage := storage + [!types[j].done];
        j := j + 1;
      }
      tls := tls[caller := p];
      var e := Entry(thread, storage, idCount);
      EntryBorn(log, born, entries, types, p, e);
      born := born + CellsOf(p, e);
      LinkOk(table, entries, p, e);
      hide LogOk; hide StorageOk;
      entries := entries[p := e];
      table := table[n := table[n] + [p]];
      Unlock();
    }

    /** The search of a chain for a thread's entry; `|table[n]|` when there is none. */
    method FindEntry(thread: nat, n: nat) returns (i: nat)
      requires Linked() && n == HashOf(thread, |table|)
      ensures i <= |table[n]|
      ensures i < |table[n]| ==> table[n][i] in entries && entries[table[n][i]].thread == thread
      ensures i == |table[n]| ==> forall p :: p in entries ==> entries[p].thread != thread
    {
      i := 0;
      while i < |table[n]|
        invariant 0 <= i <= |table[n]|
        invariant forall k :: 0 <= k < i ==> entries[table[n][k]].thread != thread
      {
        if entries[table[n][i]].thread == thread {
          return;
        }
        i := i + 1;
      }
    }

    /** ts_resource_ex by `caller`, for id 0 (the whole storage) or a valid id, of thread
        `of` or of itself. The local pointer is used without the mutex and unchecked: the
        caller must not be one whose entry ts_free_worker_threads has freed. */
    method ResourceEx(id: nat, caller: nat, of: Option<nat>) returns (p: Ptr, cell: bool)
      requires Valid() && id <= idCount
      requires of == None && caller in tls ==> tls[caller] in entries
      modifies this
      ensures Valid() && types == old(types) && log == old(log) && idCount == old(idCount) && |table| == |old(table)|
      ensures p in entries && (id > 0 ==> (cell <==> !types[id - 1].done))
      ensures if of == None && caller in old(tls) then p == old(tls)[caller] else entries[p].thread == Wanted(caller, of)
      ensures old(Attached(tls, entries, caller)) ==> entries[p].thread == Wanted(caller, of)
      ensures p in old(entries) ==> entries == old(entries) && table == old(table) && tls == old(tls)
      ensures p !in old(entries) ==> entries == old(entries)[p := entries[p]] && tls == old(tls)[caller := p]
      ensures p in old(entries) <==> (of == None && caller in old(tls)) || HasThread(old(entries), Wanted(caller, of))
      ensures forall t :: old(Attached(tls, entries, t)) ==>
        (Attached(tls, entries, t) <==> t != caller || Wanted(caller, of) == caller || HasThread(old(entries), Wanted(caller, of)))
      decreases !HasThread(entries, Wanted(caller, of))
    {
      hide ChainsOk; hide LogOk;
      if of == None && caller in tls {
        p := tls[caller];
        assert StorageOk(entries[p], types);
        cell := id == 0 || entries[p].storage[id - 1];
        return;
      }
      var thread := Wanted(caller, of);
      Lock();
      var n := HashOf(thread, |table|) by {
        TableNotEmpty(table, entries);
      }
      var i := FindEntry(thread, n);
      if i == |table[n]| {
        AllocateNewResource(thread, n, caller);
        p, cell := ResourceEx(id, caller, Some(thread));
        return;
      }
      Unlock();
      p := table[n][i];
      assert StorageOk(entries[p], types);
      cell := id == 0 || entries[p].storage[id - 1];
    }

    // ---- release ----

    /** The destructors of one entry, then the entry goes. */
    method FreeEntry(n: nat, i: nat)
      requires locked && Linked() && StoragesOk(entries, types) && LogOk(log, born, entries, types, 0, 0)
      requires n < |table| && i < |table[n]| && table[n][i] in entries
      modifies this`table, this`entries, this`log
      ensures Linked() && StoragesOk(entries, types) && LogOk(log, born, entries, types, 0, 0)
      ensures table == old(table)[n := Remove(old(table)[n], i)] && entries == old(entries) - {old(table)[n][i]}
      ensures log == old(log) + FreeCalls(types, old(table)[n][i], |types|)
    {
      hide ChainsOk; hide LogOk; hide Remove;
      var p := table[n][i];
      NobodyHalfway(log, born, entries, types, 0, p);
      var j := 0;
      assert old(log) + [] == old(log);
      while j < entries[p].count
        invariant entries == old(entries) && p in entries && StorageOk(entries[p], types) && 0 <= j <= |types|
        invariant table == old(table) && LogOk(log, born, entries, types, p, j)
        invariant log == old(log) + FreeCalls(types, p, j)
      {
        DtorStep(log, born, entries, types, p, j);
        ghost var calls := FreeCalls(types, p, j);
        if types[j].dtor {
          log := log + [Call(p, j, !entries[p].storage[j])];
          assert old(log) + calls + [Call(p, j, types[j].done)] == old(log) + (calls + [Call(p, j, types[j].done)]);
        }
        j := j + 1;
      }
      EntryGone(log, born, entries, types, p, 0);
      UnlinkOk(table, entries, n, i);
      table := table[n := table[n][..i] + table[n][i + 1..]];
      entries := entries - {p};
      assert table == old(table)[n := Remove(old(table)[n], i)] by {
        WithoutIs(old(table)[n], i);
      }
    }

    /** ts_free_thread. */
    method FreeThread(thread: nat)
      requires Valid()
      modifies this
      ensures Valid() && types == old(types) && idCount == old(idCount) && |table| == |old(table)|
      ensures !HasThread(entries, thread)
      ensures forall p :: p in old(entries) && old(entries)[p].thread != thread ==> p in entries && entries[p] == old(entries)[p]
      ensures forall p :: p in entries ==> p in old(entries)
      ensures forall p :: p in old(entries) && old(entries)[p].thread == thread ==> log == old(log) + FreeCalls(types, p, |types|)
      ensures !HasThread(old(entries), thread) ==> log == old(log)
      ensures tls == if HasThread(old(entries), thread) then old(tls) - {thread} else old(tls)
      ensures forall t :: old(Attached(tls, entries, t)) ==> Attached(tls, entries, t)
    {
      hide LogOk; hide StorageOk; hide Remove; hide FreeCalls;
      Lock();
      var n := HashOf(thread, |table|);
      var i := FindEntry(thread, n);
      if i < |table[n]| {
        FreeEntry(n, i);
        tls := tls - {thread};
      }
      Unlock();
    }

    /** ts_free_worker_threads: of the other threads, only those in the bucket of the
        current one lose their entries, and keep pointers to them. */
    method FreeWorkerThreads(thread: nat)
      requires Valid()
      modifies this
      ensures Valid() && types == old(types) && idCount == old(idCount) && |table| == |old(table)|
      ensures forall p :: p in entries <==>
        p in old(entries) && (old(entries)[p].thread == thread || old(entries)[p].thread % |table| != thread % |table|)
      ensures forall p :: p in entries && p in old(entries) ==> entries[p] == old(entries)[p]
      ensures exists ps :: Gone(ps, old(entries), entries) && log == old(log) + AllCalls(types, ps)
      ensures tls == old(tls) && forall t: nat :: old(Attached(tls, entries, t)) ==>
        (Attached(tls, entries, t) <==> t !in tls || t == thread || t % |table| != thread % |table|)
    {
      hide LogOk; hide StorageOk; hide FreeCalls; hide HashOf; hide ChainsOk; hide AllCalls; hide Gone;
      NobodyGone(entries);
      Lock();
      TableNotEmpty(table, entries);
      Buckets(|table|);
      var n := HashOf(thread, |table|);
      var i := 0;
      ghost var ps: seq<Ptr> := [];
      NoCalls(types, log);
      while i < |table[n]|
        invariant locked && Linked() && StoragesOk(entries, types) && LogOk(log, born, entries, types, 0, 0)
        invariant types == old(types) && idCount == old(idCount) && |table| == |old(table)| &&
          n == HashOf(thread, |table|) < |table| && tls == old(tls)
        invariant 0 <= i <= |table[n]| && forall k :: 0 <= k < i ==> table[n][k] in entries && entries[table[n][k]].thread == thread
        invariant forall p :: p in entries ==> p in old(entries) && entries[p] == old(entries)[p]
        invariant Gone(ps, old(entries), entries) && log == old(log) + AllCalls(types, ps)
        invariant forall p :: p in old(entries) && (old(entries)[p].thread == thread || HashOf(old(entries)[p].thread, |table|) != n) ==> p in entries
        decreases |table[n]| - i
      {
        InChain(table, entries, n, i);
        var p := table[n][i];
        if entries[p].thread != thread {
          WithoutPrefix(table[n], i);
          hide Remove;
          OneMoreGone(ps, old(entries), entries, p);
          AllCallsSnoc(types, old(log), ps, p);
          FreeEntry(n, i);
          ps := ps + [p];
        } else {
          i := i + 1;
        }
      }
      ThreadsOfChain(table, entries, n, thread);
      Unlock();
    }

    /** ts_free_id: the cells of one id are destroyed in all linked entries. */
    method FreeId(id: nat)
      requires Valid() && 1 <= id <= idCount
      modifies this
      ensures Valid() && types == old(types)[id - 1 := old(types)[id - 1].(done := true)] && table == old(table) && tls == old(tls)
      ensures entries.Keys == old(entries).Keys && SameThreads(old(entries), entries)
      ensures forall p :: p in entries ==> !Alive(entries, p, id - 1)
      ensures OnlyCells(old(log), log, Some(id - 1))
    {
      hide ChainsOk; hide LogOk; hide StorageOk; hide Alive;
      Lock();
      var j := id - 1;
      ghost var cleared: set<Ptr> := {};
      var n := 0;
      while n < |table|
        invariant 0 <= n <= |table| && table == old(table) && locked && types == old(types) && idCount == old(idCount)
        invariant Clearing(j, cleared) && entries.Keys == old(entries).Keys && SameThreads(old(entries), entries)
        invariant nextPtr == old(nextPtr) && tls == old(tls) && OnlyCells(old(log), log, Some(j))
        invariant forall m, k :: 0 <= m < n && 0 <= k < |table[m]| ==> table[m][k] in cleared
      {
        var i := 0;
        while i < |table[n]|
          invariant table == old(table) && n < |table| && 0 <= i <= |table[n]| && locked && types == old(types) && idCount == old(idCount)
          invariant Clearing(j, cleared) && entries.Keys == old(entries).Keys && SameThreads(old(entries), entries)
          invariant nextPtr == old(nextPtr) && tls == old(tls) && OnlyCells(old(log), log, Some(j))
          invariant forall m, k :: 0 <= m < n && 0 <= k < |table[m]| ==> table[m][k] in cleared
          invariant forall k :: 0 <= k < i ==> table[n][k] in cleared
        {
          InChain(table, entries, n, i);
          cleared := ClearCell(table[n][i], j, cleared);
          i := i + 1;
        }
        n := n + 1;
      }
      AllGrown(table, entries, cleared);
      TypeDone(log, born, entries, types, j);
      types := types[j := types[j].(done := true)];
      CellsGone(entries, types, j);
      Unlock();
    }

    /** The entries of `cleared` are as if type `j` were done already. */
    ghost predicate Clearing(j: nat, cleared: set<Ptr>)
      reads this
    {
      && Linked() && LogOk(log, born, entries, types, 0, 0) && j < |types|
      && forall p :: p in entries ==> StorageOk(entries[p], if p in cleared then types[j := types[j].(done := true)] else types)
    }

    method ClearCell(p: Ptr, j: nat, ghost cleared: set<Ptr>) returns (ghost cleared': set<Ptr>)
      requires Clearing(j, cleared) && p in entries && locked
      modifies this`entries, this`log
      ensures Clearing(j, cleared') && cleared' == cleared + {p} && entries.Keys == old(entries).Keys && SameThreads(old(entries), entries)
      ensures log == old(log) || log == old(log) + [Call(p, j, false)]
    {
      hide ChainsOk; hide LogOk; hide StorageOk;
      cleared' := cleared + {p};
      ClearedStorage(entries[p], types, j, p in cleared);
      if entries[p].count > j && entries[p].storage[j] {
        CellGone(log, born, entries, types, p, j);
        hide Alive;
        if types[j].dtor {
          log := log + [Call(p, j, false)];
        }
        ghost var entries0 := entries;
        entries := entries[p := entries[p].(storage := entries[p].storage[j := false])];
        SameChains(table, entries0, entries);
      }
    }

    /** tsrm_shutdown: every cell that ever was in a linked entry and has a destructor has
        been given to it exactly once. */
    method Shutdown()
      requires Valid()
      modifies this
      ensures entries == map[] && tls == map[] && types == old(types) && born == old(born) && OnlyCells(old(log), log, None)
      ensures forall c :: c in born ==> c.1 < |types| && Calls(log, c.0, c.1) == if types[c.1].dtor then 1 else 0
    {
      hide LogOk; hide StorageOk; hide ChainsOk; hide Remove;
      var n := 0;
      while n < |table|
        invariant 0 <= n <= |table| == |old(table)| && Linked() && StoragesOk(entries, types) && LogOk(log, born, entries, types, 0, 0)
        invariant types == old(types) && born == old(born) && OnlyCells(old(log), log, None)
        decreases |old(table)| - n
        invariant forall m :: 0 <= m < n ==> table[m] == []
      {
        while table[n] != []
          invariant n < |table| == |old(table)| && Linked() && StoragesOk(entries, types) && LogOk(log, born, entries, types, 0, 0)
          invariant types == old(types) && born == old(born) && OnlyCells(old(log), log, None)
          invariant forall m :: 0 <= m < n ==> table[m] == []
          decreases |table[n]|
        {
          InChain(table, entries, n, 0);
          FreeAtShutdown(n);
        }
        n := n + 1;
      }
      tls := map[];
      NothingLinked(table, entries);
      AllDestroyed(log, born, entries, types);
    }

    /** The destructors of the first entry of a chain, for its cells alone, then it goes. */
    method FreeAtShutdown(n: nat)
      requires Linked() && StoragesOk(entries, types) && LogOk(log, born, entries, types, 0, 0)
      requires n < |table| && |table[n]| > 0 && table[n][0] in entries
      modifies this`table, this`entries, this`log
      ensures Linked() && StoragesOk(entries, types) && LogOk(log, born, entries, types, 0, 0)
      ensures table == old(table)[n := old(table)[n][1..]] && OnlyCells(old(log), log, None)
    {
      hide ChainsOk; hide LogOk; hide Remove;
      var p := table[n][0];
      NobodyHalfway(log, born, entries, types, 0, p);
      var j := 0;
      while j < entries[p].count
        invariant entries == old(entries) && p in entries && StorageOk(entries[p], types) && 0 <= j <= |types|
        invariant table == old(table) && LogOk(log, born, entries, types, p, j) && OnlyCells(old(log), log, None)
      {
        if entries[p].storage[j] {
          DtorStep(log, born, entries, types, p, j);
          if !types[j].done && types[j].dtor {
            log := log + [Call(p, j, false)];
          }
        } else {
          NullStep(log, born, entries, types, p, j);
        }
        j := j + 1;
      }
      EntryGone(log, born, entries, types, p, 0);
      UnlinkOk(table, entries, n, 0);
      WithoutIs(table[n], 0);
      assert table[n][..0] + table[n][1..] == table[n][1..];
      table := table[n := table[n][1..]];
      entries := entries - {p};
    }
  }

  lemma ClearedStorage(e: Entry, types: Types, j: nat, cleared: bool)
    requires j < |types| && StorageOk(e, if cleared then types[j := types[j].(done := true)] else types)
    ensures j < e.count == |e.storage|
    ensures var types' := types[j := types[j].(done := true)];
      StorageOk(if e.storage[j] then e.(storage := e.storage[j := false]) else e, types')
  {
  }

  lemma StorageCounts(e: Entry, types: Types)
    requires StorageOk(e, types)
    ensures e.count == |e.storage| == |types|
  {
  }

  lemma GrownStorage(e: Entry, storage: seq<bool>, types0: Types, types: Types)
    requires StorageOk(e, types0) && |types| == |types0| + 1 && types0 == types[..|types0|] && !types[|types0|].done
    requires |storage| == |types| && storage[..e.count] == e.storage && storage[|types0|]
    ensures StorageOk(Entry(e.thread, storage, |types|), types)
  {
    assert forall k :: 0 <= k < |e.storage| ==> storage[k] == storage[..e.count][k];
  }

  lemma WithoutPrefix(c: seq<Ptr>, i: nat)
    requires i < |c|
    ensures |Remove(c, i)| == |c| - 1 && forall k :: 0 <= k < i ==> Remove(c, i)[k] == c[k]
  {
  }

  lemma ThreadsOfChain(chains: Chains, entries: Entries, n: nat, thread: nat)
    requires ChainsOk(chains, entries) && n < |chains|
    requires forall k :: 0 <= k < |chains[n]| ==> chains[n][k] in entries && entries[chains[n][k]].thread == thread
    ensures forall p :: p in entries ==> entries[p].thread == thread || HashOf(entries[p].thread, |chains|) != n
  {
    hide HashOf;
    forall p | p in entries && HashOf(entries[p].thread, |chains|) == n
      ensures entries[p].thread == thread
    {
      assert p in chains[n];
    }
  }

  lemma CellsGone(entries: Entries, types: Types, j: nat)
    requires StoragesOk(entries, types) && j < |types| && types[j].done
    ensures forall p :: p in entries ==> !Alive(entries, p, j)
  {
  }

  lemma NothingLinked(chains: Chains, entries: Entries)
    requires ChainsOk(chains, entries) && forall m :: 0 <= m < |chains| ==> chains[m] == []
    ensures entries == map[]
  {
    AllGrown(chains, entries, {});
    assert forall p :: p !in entries;
  }

  lemma AllDestroyed(log: seq<Call>, born: set<(Ptr, nat)>, entries: Entries, types: Types)
    requires LogOk(log, born, entries, types, 0, 0) && entries == map[]
    ensures forall c :: c in born ==> c.1 < |types| && Calls(log, c.0, c.1) == if types[c.1].dtor then 1 else 0
  {
    forall c | c in born
      ensures c.1 < |types| && Calls(log, c.0, c.1) == if types[c.1].dtor then 1 else 0
    {
      assert Destroyed(born, entries, 0, 0, c.0, c.1);
    }
  }

  /** At any time a cell has been given to its destructor at most once, and not while it
      is in a linked entry. */
  lemma AtMostOnce(m: ResourceManager, p: Ptr, j: nat)
    requires m.Valid()
    ensures Calls(m.log, p, j) <= 1
    ensures Alive(m.entries, p, j) ==> Calls(m.log, p, j) == 0
  {
    hide ChainsOk; hide StorageOk; hide Calls;
    assert Calls(m.log, p, j) == if Destroyed(m.born, m.entries, 0, 0, p, j) && m.types[j].dtor then 1 else 0;
  }

  predicate HasThread(entries: Entries, thread: nat) {
    exists p :: p in entries && entries[p].thread == thread
  }

  /** The thread that a request is about. */
  function Wanted(caller: nat, of: Option<nat>): nat {
    if of == None then caller else of.value
  }

  /** The local pointer of an attached thread leads where the search of the table does. */
  lemma LocalIsLinked(m: ResourceManager, thread: nat, p: Ptr)
    requires m.Valid() && Attached(m.tls, m.entries, thread) && thread in m.tls
    ensures p in m.entries && m.entries[p].thread == thread <==> p == m.tls[thread]
  {
    hide LogOk; hide StorageOk;
  }

  lemma Buckets(size: nat)
    requires size > 0
    ensures forall t: nat :: HashOf(t, size) == t % size
  {
  }

  lemma TableNotEmpty(chains: Chains, entries: Entries)
    requires ChainsOk(chains, entries)
    ensures |chains| > 0
  {
  }

  lemma WithoutIs(c: seq<Ptr>, i: nat)
    requires i < |c|
    ensures Remove(c, i) == c[..i] + c[i + 1..]
  {
  }

  /** The cells of a new entry. */
  function CellsOf(p: Ptr, e: Entry): set<(Ptr, nat)> {
    set j: nat | j < |e.storage| && e.storage[j] :: (p, j)
  }

  lemma EntryBorn(log: seq<Call>, born: set<(Ptr, nat)>, entries: Entries, types: Types, p: Ptr, e: Entry)
    requires LogOk(log, born, entries, types, 0, 0) && p !in entries && (forall c :: c in born ==> c.0 < p) && |e.storage| == |types|
    ensures LogOk(log, born + CellsOf(p, e), entries[p := e], types, 0, 0)
  {
    var born', entries' := born + CellsOf(p, e), entries[p := e];
    forall q: Ptr, j: nat
      ensures Alive(entries', q, j) <==> Alive(entries, q, j) || (q, j) in CellsOf(p, e)
      ensures Destroyed(born', entries', 0, 0, q, j) == Destroyed(born, entries, 0, 0, q, j)
    {
    }
  }

  lemma InChain(chains: Chains, entries: Entries, n: nat, i: nat)
    requires ChainsOk(chains, entries) && n < |chains| && i < |chains[n]|
    ensures chains[n][i] in entries && HashOf(entries[chains[n][i]].thread, |chains|) == n
  {
  }

  /** A set that holds all chains holds all entries. */
  lemma AllGrown(chains: Chains, entries: Entries, grown: set<Ptr>)
    requires ChainsOk(chains, entries)
    requires forall m, k :: 0 <= m < |chains| && 0 <= k < |chains[m]| ==> chains[m][k] in grown
    ensures forall p :: p in entries ==> p in grown
  {
    forall p | p in entries
      ensures p in grown
    {
      var c := chains[HashOf(entries[p].thread, |chains|)];
      assert p in c;
    }
  }

  lemma CellsThere(entries: Entries, types: Types, j: nat)
    requires StoragesOk(entries, types) && j < |types| && !types[j].done
    ensures forall p :: p in entries ==> Alive(entries, p, j)
  {
  }
}
