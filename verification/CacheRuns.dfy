/**
 Any run of cache operations by users who give back what they were given: the count of an entry is always that of its
 users, and one more for the cache itself, so no entry goes while a user holds it.
 */
module CacheRuns {
  import opened Basics
  import opened Coding
  import opened HandleTable
  import opened Cache

  /** `Release` is of the handle at some place among those that are held. */
  datatype Op =
    | LookupOp(key: Slice, hash: U32)
    | InsertOp(key: Slice, hash: U32, charge: nat)
    | ReleaseOp(place: nat)
    | EraseOp(key: Slice, hash: U32)
    | PruneOp

  function OwnReference(h: LRUHandle): nat
    reads h`inCache
  {
    if h.inCache then 1 else 0
  }

  /** Every reference is that of a user or that of the cache. */
  ghost predicate Balanced(c: LRUCache, held: seq<LRUHandle>)
    reads c`handles, c.handles`refs, c.handles`inCache
  {
    && (forall h :: h in held ==> h in c.handles)
    && (forall h :: h in c.handles ==> h.refs == multiset(held)[h] + OwnReference(h))
  }

  /** An unused entry has no users. */
  lemma UnusedIsNotHeld(c: LRUCache, held: seq<LRUHandle>, e: LRUHandle)
    requires c.Valid() && Balanced(c, held) && e in Elems(c.lruList)
    ensures e !in held
  {
    assert e in c.handles && e.refs == 1 && e.inCache;
    assert multiset(held)[e] == 0;
  }

  lemma HeldAreInUse(c: LRUCache, held: seq<LRUHandle>)
    requires c.Valid() && Balanced(c, held)
    ensures forall h :: h in held ==> h !in c.lruList
  {
    forall h | h in held ensures h !in c.lruList {
      if h in Elems(c.lruList) { UnusedIsNotHeld(c, held, h); }
    }
  }

  lemma EntryIsCached(c: LRUCache, name: (Slice, U32))
    requires c.Valid()
    ensures name in c.table.entries ==> c.table.entries[name] in c.handles && c.table.entries[name].inCache
  {
    if name in c.table.entries { c.Cached(name); }
  }

  lemma OneMoreHeld(held: seq<LRUHandle>, e: LRUHandle)
    ensures multiset(held + [e]) == multiset(held) + multiset{e}
  {
  }

  function Without(held: seq<LRUHandle>, place: nat): seq<LRUHandle>
    requires place < |held|
  {
    held[..place] + held[place + 1..]
  }

  lemma OneLessHeld(held: seq<LRUHandle>, place: nat)
    requires place < |held|
    ensures multiset(Without(held, place)) == multiset(held) - multiset{held[place]}
    ensures multiset(held)[held[place]] >= 1
  {
    assert held == held[..place] + [held[place]] + held[place + 1..];
  }

  method DoLookup(c: LRUCache, key: Slice, hash: U32, held: seq<LRUHandle>) returns (now: seq<LRUHandle>)
    requires c.Valid() && Balanced(c, held)
    modifies c, c.table, c.table.list, c.handles, c.lru, c.inUse
    ensures c.Valid() && Balanced(c, now) && c.table.list == old(c.table.list) && c.handles == old(c.handles)
  {
    hide LRUCache.ValidBut;
    var e := c.Lookup(key, hash);
    now := if e == null then held else held + [e];
    if e != null { OneMoreHeld(held, e); }
  }

  method DoRelease(c: LRUCache, place: nat, held: seq<LRUHandle>) returns (now: seq<LRUHandle>)
    requires c.Valid() && Balanced(c, held) && place < |held|
    modifies c, c.table, c.table.list, c.handles, c.lru, c.inUse
    ensures c.Valid() && Balanced(c, now) && c.table.list == old(c.table.list) && c.handles <= old(c.handles)
  {
    hide LRUCache.ValidBut;
    OneLessHeld(held, place);
    now := Without(held, place);
    c.Release(held[place]);
  }

  /** What evicting does to those who hold handles: nothing. */
  lemma EvictedAreNotHeld(held: seq<LRUHandle>, evicted: seq<LRUHandle>, l0: seq<LRUHandle>, l: seq<LRUHandle>,
                          hs0: set<LRUHandle>, hs: set<LRUHandle>, es0: map<(Slice, U32), LRUHandle>,
                          es: map<(Slice, U32), LRUHandle>)
    requires Gone(evicted, l0, l, hs0, hs, es0, es)
    requires forall h :: h in held ==> h in hs0 && h !in l0
    ensures forall h :: h in held ==> h in hs
  {
  }

  lemma MinusHasLess(s: seq<LRUHandle>, e: LRUHandle)
    ensures forall h :: h in Minus(s, e) ==> h in s
  {
  }

  method DoInsert(c: LRUCache, key: Slice, hash: U32, charge: nat, held: seq<LRUHandle>) returns (now: seq<LRUHandle>)
    requires c.Valid() && Balanced(c, held)
    modifies c, c.table, c.table.list, c.handles, c.lru, c.inUse
    ensures c.Valid() && Balanced(c, now)
    ensures fresh({c.table.list} - {old(c.table.list)}) && fresh(c.handles - old(c.handles))
  {
    hide LRUCache.ValidBut, LRUCache.Valid, Gone, Minus, NeedsLast, Nodes;
    HeldAreInUse(c, held);
    EntryIsCached(c, (key, hash));
    ghost var l0 := c.lruList;
    var e, replaced, evicted, l, hs, es := c.Insert(key, hash, charge);
    if replaced != null { MinusHasLess(l0, replaced); }
    EvictedAreNotHeld(held, evicted, l, c.lruList, hs, c.handles, es, c.table.entries);
    OneMoreHeld(held, e);
    now := held + [e];
  }

  method DoErase(c: LRUCache, key: Slice, hash: U32, held: seq<LRUHandle>)
    requires c.Valid() && Balanced(c, held)
    modifies c, c.table, c.table.list, c.handles, c.lru, c.inUse
    ensures c.Valid() && Balanced(c, held) && c.table.list == old(c.table.list) && c.handles <= old(c.handles)
  {
    hide LRUCache.ValidBut, LRUCache.Valid, Minus;
    EntryIsCached(c, (key, hash));
    var r := c.Erase(key, hash);
  }

  method DoPrune(c: LRUCache, held: seq<LRUHandle>)
    requires c.Valid() && Balanced(c, held)
    modifies c, c.table, c.table.list, c.handles, c.lru, c.inUse
    ensures c.Valid() && Balanced(c, held) && c.table.list == old(c.table.list) && c.handles <= old(c.handles)
  {
    hide LRUCache.ValidBut, LRUCache.Valid, Gone;
    HeldAreInUse(c, held);
    ghost var l0, hs0, es0 := c.lruList, c.handles, c.table.entries;
    var evicted := c.Prune();
    EvictedAreNotHeld(held, evicted, l0, c.lruList, hs0, c.handles, es0, c.table.entries);
  }

  /**
   Any list of operations, from an empty cache of any capacity: in the end, as after every operation, each entry has
   exactly the references of its users and its own, no entry that a user holds is freed, and with nothing held nothing
   is in use.
   */
  method Run(capacity: nat, ops: seq<Op>) returns (c: LRUCache, held: seq<LRUHandle>)
    ensures c.Valid() && Balanced(c, held)
    ensures forall h :: h in held ==> h in c.handles && !h.freed
    ensures held == [] ==> c.inUseList == []
  {
    hide LRUCache.ValidBut, LRUCache.Valid, Balanced;
    c := new LRUCache(capacity);
    held := [];
    NobodyHolds(c);
    for i := 0 to |ops|
      invariant fresh(c) && fresh(c.table) && fresh(c.table.list) && fresh(c.handles) && fresh(c.lru) && fresh(c.inUse)
      invariant c.Valid() && Balanced(c, held)
    {
      held := Do(c, ops[i], held);
    }
    InUseIsHeld(c, held);
    NoneLeft(c.inUseList, held);
  }

  method Do(c: LRUCache, op: Op, held: seq<LRUHandle>) returns (now: seq<LRUHandle>)
    requires c.Valid() && Balanced(c, held)
    modifies c, c.table, c.table.list, c.handles, c.lru, c.inUse
    ensures c.Valid() && Balanced(c, now)
    ensures fresh({c.table.list} - {old(c.table.list)}) && fresh(c.handles - old(c.handles))
  {
    hide LRUCache.ValidBut, LRUCache.Valid, Balanced;
    now := held;
    match op
    case LookupOp(key, hash) => now := DoLookup(c, key, hash, held);
    case InsertOp(key, hash, charge) => now := DoInsert(c, key, hash, charge, held);
    case ReleaseOp(place) =>
      if place < |held| {
        now := DoRelease(c, place, held);
      }
    case EraseOp(key, hash) => DoErase(c, key, hash, held);
    case PruneOp => DoPrune(c, held);
  }

  lemma NobodyHolds(c: LRUCache)
    requires c.handles == {}
    ensures Balanced(c, [])
  {
  }

  lemma NoneLeft(s: seq<LRUHandle>, held: seq<LRUHandle>)
    requires forall e :: e in s ==> e in held
    ensures held == [] ==> s == []
  {
    if s != [] { assert s[0] in held; }
  }

  lemma InUseIsHeld(c: LRUCache, held: seq<LRUHandle>)
    requires c.Valid() && Balanced(c, held)
    ensures forall h :: h in held ==> h in c.handles && !h.freed
    ensures forall e :: e in c.inUseList ==> e in held
  {
    forall e | e in c.inUseList ensures e in held {
      assert e in Elems(c.inUseList) && e in c.handles;
      assert e.refs >= 2 && e.inCache;
    }
  }
}
