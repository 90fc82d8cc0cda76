/**
 One shard of the block cache. Entries of the cache are on the ring of the unused, oldest first, or on that of those in
 use; the ghost lists are what the pointers of the rings form.
 */
module Cache {
  import opened Basics
  import opened Coding
  import opened HandleTable

  /** What comes at position `k` of a ring after its dummy head, and what comes before it. */
  ghost function Nx(head: LRUHandle, s: seq<LRUHandle>, k: nat): LRUHandle {
    if k < |s| then s[k] else head
  }

  ghost function Pv(head: LRUHandle, s: seq<LRUHandle>, k: nat): LRUHandle
    requires k <= |s|
  {
    if k > 0 then s[k - 1] else head
  }

  ghost function Elems(s: seq<LRUHandle>): set<LRUHandle> {
    set h | h in s
  }

  /** The pointers form a circle through the head and the handles of the list, in both directions. */
  ghost predicate Ring(head: LRUHandle, s: seq<LRUHandle>)
    reads head`next, head`prev, Elems(s)`next, Elems(s)`prev
  {
    && head.next == Nx(head, s, 0) && head.prev == Pv(head, s, |s|)
    && forall k :: 0 <= k < |s| ==> s[k].next == Nx(head, s, k + 1) && s[k].prev == Pv(head, s, k)
  }

  ghost predicate NoDup(head: LRUHandle, s: seq<LRUHandle>) {
    head !in s && forall j, k :: 0 <= j < k < |s| ==> s[j] != s[k]
  }

  ghost function Cut(s: seq<LRUHandle>, k: nat): seq<LRUHandle>
    requires k < |s|
  {
    s[..k] + s[k + 1..]
  }

  ghost function Charges(s: seq<LRUHandle>): nat {
    if s == [] then 0 else s[0].charge + Charges(s[1..])
  }

  lemma {:induction false} ChargesOfAll(a: seq<LRUHandle>, b: seq<LRUHandle>)
    ensures Charges(a + b) == Charges(a) + Charges(b)
  {
    if a == [] {
      assert a + b == b;
    } else {
      assert (a + b)[1..] == a[1..] + b;
      ChargesOfAll(a[1..], b);
    }
  }

  lemma {:induction false} ChargesOfCut(s: seq<LRUHandle>, k: nat)
    requires k < |s|
    ensures Charges(Cut(s, k)) + s[k].charge == Charges(s)
  {
    if k == 0 {
      assert Cut(s, 0) == s[1..];
    } else {
      assert Cut(s, k) == [s[0]] + Cut(s[1..], k - 1);
      assert ([s[0]] + Cut(s[1..], k - 1))[1..] == Cut(s[1..], k - 1);
      ChargesOfCut(s[1..], k - 1);
    }
  }

  lemma NxPvOfCut(head: LRUHandle, s: seq<LRUHandle>, k: nat, j: nat)
    requires k < |s| && NoDup(head, s) && j < |Cut(s, k)|
    ensures var t, i := Cut(s, k), if j < k then j else j + 1;
            t[j] == s[i] && i < |s| &&
            Nx(head, t, j + 1) == (if i + 1 == k then Nx(head, s, k + 1) else Nx(head, s, i + 1)) &&
            Pv(head, t, j) == (if i == k + 1 then Pv(head, s, k) else Pv(head, s, i)) &&
            (s[i] == Pv(head, s, k) <==> i + 1 == k) && (s[i] == Nx(head, s, k + 1) <==> i == k + 1)
  {
  }

  /** Takes a handle out of the ring it is on. */
  method LRU_Remove(e: LRUHandle, ghost head: LRUHandle, ghost s: seq<LRUHandle>, ghost k: nat)
    requires k < |s| && s[k] == e && Ring(head, s) && NoDup(head, s)
    modifies head`next, head`prev, Elems(s)`next, Elems(s)`prev
    ensures Ring(head, Cut(s, k))
  {
    ghost var before, after := Pv(head, s, k), Nx(head, s, k + 1);
    assert e.prev == before && e.next == after;
    e.next.prev := e.prev;
    e.prev.next := e.next;
    ghost var t := Cut(s, k);
    hide NoDup, Cut;
    forall j | 0 <= j < |t| ensures t[j].next == Nx(head, t, j + 1) && t[j].prev == Pv(head, t, j) {
      NxPvOfCut(head, s, k, j);
    }
    CutEnds(head, s, k);
  }

  lemma CutEnds(head: LRUHandle, s: seq<LRUHandle>, k: nat)
    requires k < |s| && NoDup(head, s)
    ensures var t := Cut(s, k);
            |t| == |s| - 1 &&
            Nx(head, t, 0) == (if k == 0 then Nx(head, s, 1) else Nx(head, s, 0)) &&
            Pv(head, t, |t|) == (if k == |s| - 1 then Pv(head, s, k) else Pv(head, s, |s|)) &&
            (Pv(head, s, k) == head <==> k == 0) && (Nx(head, s, k + 1) == head <==> k == |s| - 1)
  {
  }

  /** Makes a handle the newest of a ring. */
  method LRU_Append(list: LRUHandle, e: LRUHandle, ghost s: seq<LRUHandle>)
    requires Ring(list, s) && NoDup(list, s + [e])
    modifies list`next, list`prev, Elems(s)`next, Elems(s)`prev, e`next, e`prev
    ensures Ring(list, s + [e])
  {
    ghost var last := Pv(list, s, |s|);
    assert list.prev == last;
    assert (s + [e])[|s|] == e;
    e.next := list;
    e.prev := list.prev;
    e.prev.next := e;
    e.next.prev := e;
    ghost var t := s + [e];
    hide NoDup;
    forall j | 0 <= j < |t| ensures t[j].next == Nx(list, t, j + 1) && t[j].prev == Pv(list, t, j) {
      AppendedAt(list, s, e, j);
    }
    AppendedAt(list, s, e, 0);
  }

  lemma AppendedAt(head: LRUHandle, s: seq<LRUHandle>, e: LRUHandle, j: nat)
    requires NoDup(head, s + [e]) && j <= |s|
    ensures head != e && Nx(head, s + [e], 0) == (if s == [] then e else Nx(head, s, 0))
    ensures Pv(head, s + [e], |s| + 1) == e
    ensures Pv(head, s + [e], j) == Pv(head, s, j)
    ensures j < |s| ==>
              (s + [e])[j] == s[j] != e && s[j] != head && (s[j] == Pv(head, s, |s|) <==> j == |s| - 1) &&
              Nx(head, s + [e], j + 1) == (if j == |s| - 1 then e else Nx(head, s, j + 1))
    ensures Pv(head, s, |s|) != e && (Pv(head, s, |s|) == head <==> s == [])
  {
    forall i | 0 <= i < |s| ensures s[i] != e && s[i] != head {
      assert (s + [e])[i] == s[i] && (s + [e])[|s|] == e;
    }
    if j < |s| - 1 { assert (s + [e])[j] == s[j] && (s + [e])[|s| - 1] == s[|s| - 1]; }
  }

  ghost predicate Apart(head: LRUHandle, l: seq<LRUHandle>, list: LRUHandle, u: seq<LRUHandle>) {
    && head != list && NoDup(head, l) && NoDup(list, u)
    && head !in Elems(l) && head !in Elems(u) && list !in Elems(l) && list !in Elems(u) && Elems(l) !! Elems(u)
  }

  lemma MoveKeepsApart(head: LRUHandle, l: seq<LRUHandle>, list: LRUHandle, u: seq<LRUHandle>, k: nat)
    requires k < |l| && Apart(head, l, list, u)
    ensures Elems(Cut(l, k)) == Elems(l) - {l[k]} && Elems(u + [l[k]]) == Elems(u) + {l[k]} && l[k] in Elems(l)
    ensures Apart(head, Cut(l, k), list, u + [l[k]])
  {
    CutHas(head, l, k);
    assert forall h :: h in Elems(l) <==> h in l;
    hide Cut;
    forall i | 0 <= i < |u| ensures u[i] != l[k] { assert u[i] in Elems(u); }
  }

  /** Makes a handle of one ring the newest of another. */
  method MoveTo(list: LRUHandle, e: LRUHandle, ghost u: seq<LRUHandle>, ghost head: LRUHandle, ghost l: seq<LRUHandle>,
                ghost k: nat)
    requires k < |l| && l[k] == e && Ring(head, l) && Ring(list, u) && Apart(head, l, list, u)
    modifies head`next, head`prev, Elems(l)`next, Elems(l)`prev
    modifies list`next, list`prev, Elems(u)`next, Elems(u)`prev
    ensures Ring(head, Cut(l, k)) && Ring(list, u + [e])
  {
    MoveKeepsApart(head, l, list, u, k);
    hide NoDup, Cut, Ring, Nx, Pv, Elems;
    LRU_Remove(e, head, l, k);
    assert Ring(list, u);
    LRU_Append(list, e, u);
  }

  /** The lists hold live handles only. */
  ghost predicate Lists(lru: LRUHandle, inUse: LRUHandle, l: seq<LRUHandle>, u: seq<LRUHandle>,
                        handles: set<LRUHandle>) {
    Apart(lru, l, inUse, u) && lru !in handles && inUse !in handles && Elems(l) <= handles && Elems(u) <= handles
  }

  /**
   The counts and flags of the live handles: the unused have the one reference of the cache, those in use more, and all
   others are out of the cache.
   */
  ghost predicate Counts(l: set<LRUHandle>, u: set<LRUHandle>, handles: set<LRUHandle>)
    reads handles`inCache, handles`refs, handles`freed
  {
    forall h :: h in handles ==>
      !h.freed && h.refs >= 1 && (h in l ==> h.inCache && h.refs == 1) && (h in u ==> h.inCache && h.refs >= 2) &&
      (h.inCache ==> h in l || h in u)
  }

  /** The hash table has just the handles on the lists. */
  ghost predicate Tabled(entries: map<(Slice, U32), LRUHandle>, cached: set<LRUHandle>) {
    && (forall n :: n in entries ==> entries[n].Name() == n && entries[n] in cached)
    && (forall h :: h in cached ==> h.Name() in entries && entries[h.Name()] == h)
  }

  /** The handles on the two lists, without `but`. */
  ghost function CachedBut(l: seq<LRUHandle>, u: seq<LRUHandle>, but: LRUHandle?): set<LRUHandle> {
    set h | h in Elems(l) + Elems(u) && h != but
  }

  class LRUCache {
    var capacity: nat
    var usage: nat
    const lru: LRUHandle
    const inUse: LRUHandle
    const table: HandleTable
    ghost var lruList: seq<LRUHandle>
    ghost var inUseList: seq<LRUHandle>
    ghost var handles: set<LRUHandle>

    /** All is as it should be, except that `but` is on a list still while it is out of the hash table. */
    ghost predicate ValidBut(but: LRUHandle?)
      reads this, table, table.list, lru, inUse, handles
    {
      && Nodes(table.buckets) <= handles && Elems(lruList) <= handles && Elems(inUseList) <= handles
      && table.Valid() && Rings() && Counts(Elems(lruList), Elems(inUseList), handles)
      && Tabled(table.entries, CachedBut(lruList, inUseList, but))
    }

    ghost predicate Valid()
      reads this, table, table.list, lru, inUse, handles
    {
      ValidBut(null)
    }

    constructor (capacity: nat)
      ensures Valid() && handles == {} && usage == 0 && this.capacity == capacity && table.entries == map[]
      ensures fresh(lru) && fresh(inUse) && fresh(table) && fresh(table.list)
    {
      var a := new LRUHandle([], 0, 0, 0);
      var b := new LRUHandle([], 0, 0, 0);
      a.next, a.prev := a, a;
      b.next, b.prev := b, b;
      lru, inUse := a, b;
      table := new HandleTable();
      this.capacity, usage := capacity, 0;
      lruList, inUseList, handles := [], [], {};
    }

    /** What the pointers of the two rings and the lists have to do with each other, and the total charge. */
    ghost predicate Rings()
      reads `lruList, `inUseList, `handles, `usage, lru`next, lru`prev, inUse`next, inUse`prev, handles`next,
            handles`prev
    {
      && Elems(lruList) <= handles && Elems(inUseList) <= handles
      && Lists(lru, inUse, lruList, inUseList, handles) && Ring(lru, lruList) && Ring(inUse, inUseList)
      && usage == Charges(lruList) + Charges(inUseList)
    }

    /** An entry of the cache gets its first user. */
    method ToInUse(e: LRUHandle)
      requires Rings() && e in Elems(lruList)
      modifies `lruList, `inUseList, handles`next, handles`prev, lru`next, lru`prev, inUse`next, inUse`prev
      ensures Rings() && inUseList == old(inUseList) + [e]
      ensures lruList == old(Cut(lruList, IndexOf(lruList, e)))
      ensures Elems(lruList) == old(Elems(lruList)) - {e} && Elems(inUseList) == old(Elems(inUseList)) + {e}
      ensures CachedBut(lruList, inUseList, null) == old(CachedBut(lruList, inUseList, null))
    {
      hide Ring, NoDup, Charges, Cut, Elems, Apart;
      ghost var k := IndexOf(lruList, e);
      MoveKeepsApart(lru, lruList, inUse, inUseList, k);
      MoveKeepsCharges(lruList, inUseList, k);
      MoveTo(inUse, e, inUseList, lru, lruList, k);
      lruList, inUseList := Cut(lruList, k), inUseList + [e];
    }

    /** An entry of the cache loses its last user, and is the newest of the unused. */
    method ToLru(e: LRUHandle)
      requires Rings() && e in Elems(inUseList)
      modifies `lruList, `inUseList, handles`next, handles`prev, lru`next, lru`prev, inUse`next, inUse`prev
      ensures Rings() && lruList == old(lruList) + [e] && inUseList == old(Minus(inUseList, e))
      ensures Elems(inUseList) == old(Elems(inUseList)) - {e} && Elems(lruList) == old(Elems(lruList)) + {e}
      ensures CachedBut(lruList, inUseList, null) == old(CachedBut(lruList, inUseList, null))
    {
      hide Ring, NoDup, Charges, Cut, Elems;
      ghost var k := IndexOf(inUseList, e);
      assert Apart(inUse, inUseList, lru, lruList);
      MoveKeepsApart(inUse, inUseList, lru, lruList, k);
      MoveKeepsCharges(inUseList, lruList, k);
      MoveTo(lru, e, lruList, inUse, inUseList, k);
      inUseList, lruList := Cut(inUseList, k), lruList + [e];
    }

    /** One more reference; it takes an unused entry to those in use. */
    method Ref(e: LRUHandle)
      requires Valid() && e in handles
      modifies `lruList, `inUseList, handles, lru, inUse
      ensures Valid() && e.refs == old(e.refs) + 1
      ensures forall h :: h in handles && h != e ==> h.refs == old(h.refs)
      ensures forall h :: h in handles ==> h.inCache == old(h.inCache)
    {
      hide Lists, Ring, Tabled, Elems, Rings, HandleTable.Valid, Nodes, CachedBut;
      if e.refs == 1 && e.inCache {
        ToInUse(e);
        assert table.Valid();
      }
      e.refs := e.refs + 1;
    }

    /** One reference less; with the last one the entry is freed, with the last but one it becomes unused. */
    method Unref(e: LRUHandle)
      requires Valid() && e in handles && (e.inCache ==> e.refs >= 2)
      modifies `lruList, `inUseList, `handles, handles, lru, inUse
      ensures Valid() && e.refs == old(e.refs) - 1 && e.freed == (e.refs == 0)
      ensures handles == old(handles) - if e.refs == 0 then {e} else {}
      ensures lruList == old(lruList) + (if e.inCache && e.refs == 1 then [e] else [])
      ensures inUseList == if e.inCache && e.refs == 1 then old(Minus(inUseList, e)) else old(inUseList)
      ensures forall h :: h in old(handles) && h != e ==> h.refs == old(h.refs)
      ensures forall h :: h in old(handles) ==> h.inCache == old(h.inCache)
    {
      hide Lists, Ring, Tabled, Elems, Rings, HandleTable.Valid, Nodes, CachedBut;
      e.refs := e.refs - 1;
      if e.refs == 0 {
        e.freed := true;
        CachedIn(lruList, inUseList, null, handles - {e});
        NodesIn(table, CachedBut(lruList, inUseList, null), handles - {e});
        Forget(e);
      } else if e.inCache && e.refs == 1 {
        ToLru(e);
        assert table.Valid();
      }
    }

    ghost method Forget(e: LRUHandle)
      requires Rings() && e !in Elems(lruList) && e !in Elems(inUseList)
      modifies `handles
      ensures Rings() && handles == old(handles) - {e}
    {
      hide Elems, Ring, Charges;
      handles := handles - {e};
    }

    /** Takes an entry off its list; what is left is as if it had never been in the cache. */
    method TakeOff(e: LRUHandle)
      requires Rings() && e in Elems(lruList) + Elems(inUseList)
      modifies `lruList, `inUseList, `usage, e`inCache, handles`next, handles`prev, lru`next, lru`prev, inUse`next,
               inUse`prev
      ensures CachedBut(lruList, inUseList, null) == old(CachedBut(lruList, inUseList, e))
      ensures Rings() && !e.inCache && Elems(lruList) == old(Elems(lruList)) - {e}
      ensures Elems(inUseList) == old(Elems(inUseList)) - {e}
      ensures lruList == old(Minus(lruList, e)) && inUseList == old(Minus(inUseList, e))
      ensures usage + e.charge == old(usage)
    {
      hide Ring, NoDup, Charges, Elems;
      ghost var unused := e in Elems(lruList);
      ghost var k := IndexOf(if unused then lruList else inUseList, e);
      if unused {
        CutKeepsApart(lru, lruList, inUse, inUseList, k);
      } else {
        CutKeepsApart(inUse, inUseList, lru, lruList, k);
      }
      LRU_Remove(e, if unused then lru else inUse, if unused then lruList else inUseList, k);
      if unused {
        assert Ring(inUse, inUseList);
        lruList := Cut(lruList, k);
      } else {
        assert Ring(lru, lruList);
        inUseList := Cut(inUseList, k);
      }
      e.inCache := false;
      usage := usage - e.charge;
    }

    /** Finishes taking an entry out of the cache that is out of the hash table already. */
    method FinishErase(e: LRUHandle?) returns (erased: bool)
      requires ValidBut(e) && (e != null ==> e in Elems(lruList) + Elems(inUseList))
      modifies `lruList, `inUseList, `usage, `handles, handles, lru, inUse
      ensures Valid() && erased == (e != null) && inUseList == old(if e == null then inUseList else Minus(inUseList, e))
      ensures e == null ==> unchanged(this) && forall h :: h in handles ==>
                h.refs == old(h.refs) && h.inCache == old(h.inCache)
      ensures e != null ==>
                !e.inCache && e.refs == old(e.refs) - 1 && e.freed == (e.refs == 0) &&
                lruList == old(Minus(lruList, e)) && usage + e.charge == old(usage) &&
                handles == old(handles) - (if e.refs == 0 then {e} else {})
      ensures forall h :: h in handles && h != e ==> h.refs == old(h.refs) && h.inCache == old(h.inCache)
    {
      hide Lists, Ring, Tabled, Elems, Rings, HandleTable.Valid, Nodes, Minus, CachedBut;
      if e != null {
        TakeOff(e);
        assert table.Valid();
        Unref(e);
      }
      erased := e != null;
    }

    /** The entry of the key, with one more reference. */
    method Lookup(key: Slice, hash: U32) returns (e: LRUHandle?)
      requires Valid()
      modifies `lruList, `inUseList, handles, lru, inUse
      ensures Valid() && if e == null then (key, hash) !in table.entries
                         else (key, hash) in table.entries && table.entries[(key, hash)] == e
      ensures e != null ==> e in handles && e.inCache && e.refs == old(e.refs) + 1 && e.refs >= 2
      ensures forall h :: h in handles && h != e ==> h.refs == old(h.refs)
      ensures forall h :: h in handles ==> h.inCache == old(h.inCache)
    {
      hide Ring, HandleTable.Valid, Nodes, Counts, Lists, Elems, Rings, Tabled;
      e := table.Lookup(key, hash);
      if e != null {
        Cached((key, hash));
        Ref(e);
      }
    }

    lemma Cached(name: (Slice, U32))
      requires Valid() && name in table.entries
      ensures var e := table.entries[name];
              e in handles && e.inCache && e.refs >= 1 && e.Name() == name &&
                  (e in Elems(lruList) || e in Elems(inUseList))
    {
    }

    /** A user gives a reference back that it holds. */
    method Release(e: LRUHandle)
      requires Valid() && e in handles && e.refs > (if e.inCache then 1 else 0)
      modifies `lruList, `inUseList, `handles, handles, lru, inUse
      ensures Valid() && e.refs == old(e.refs) - 1 && e.freed == (e.refs == 0)
      ensures handles == old(handles) - if e.refs == 0 then {e} else {}
      ensures forall h :: h in handles && h != e ==> h.refs == old(h.refs)
      ensures forall h :: h in old(handles) ==> h.inCache == old(h.inCache)
    {
      Unref(e);
    }

    /** Takes the entry of the key out of the hash table only. */
    method Unlink(key: Slice, hash: U32) returns (r: LRUHandle?)
      requires Valid()
      modifies table, table.list, handles`nextHash
      ensures ValidBut(r) && table.entries == old(table.entries) - {(key, hash)} && table.list == old(table.list)
      ensures r == if (key, hash) in old(table.entries) then old(table.entries)[(key, hash)] else null
      ensures r != null ==> r in Elems(lruList) + Elems(inUseList) && r in handles && r.Name() == (key, hash)
    {
      hide Ring, HandleTable.Valid, Nodes, Counts, Lists, Elems, Rings, Tabled, CachedBut;
      ghost var name := (key, hash);
      if name in table.entries { Cached(name); }
      Untabled(table.entries, lruList, inUseList, name);
      r := table.Remove(key, hash);
      CachedIn(lruList, inUseList, r, handles);
      NodesIn(table, CachedBut(lruList, inUseList, r), handles);
    }

    /** The entry of the key leaves the cache; it lives on as long as it has users. */
    method Erase(key: Slice, hash: U32) returns (r: LRUHandle?)
      requires Valid()
      modifies `lruList, `inUseList, `usage, `handles, table, table.list, handles, lru, inUse
      ensures Valid() && table.list == old(table.list) && table.entries == old(table.entries) - {(key, hash)}
      ensures r == if (key, hash) in old(table.entries) then old(table.entries)[(key, hash)] else null
      ensures if r == null then unchanged(this) else
                !r.inCache && r.refs == old(r.refs) - 1 && r.freed == (r.refs == 0) &&
                handles == old(handles) - (if r.refs == 0 then {r} else {}) && usage + r.charge == old(usage) &&
                lruList == old(Minus(lruList, r)) && inUseList == old(Minus(inUseList, r))
      ensures forall h :: h in handles && h != r ==> h.refs == old(h.refs) && h.inCache == old(h.inCache)
    {
      hide ValidBut, Elems, Minus;
      r := Unlink(key, hash);
      var erased := FinishErase(r);
    }

    /** The oldest unused entry leaves the cache and is freed. */
    method EvictOldest() returns (e: LRUHandle)
      requires Valid() && lru.next != lru
      modifies `lruList, `inUseList, `usage, `handles, table, table.list, handles, lru, inUse
      ensures Valid() && table.list == old(table.list)
      ensures old(lruList) == [e] + lruList && inUseList == old(inUseList) && e.freed && handles == old(handles) - {e}
      ensures usage + e.charge == old(usage) && table.entries == old(table.entries) - {e.Name()}
      ensures forall h :: h in handles ==> h.refs == old(h.refs) && h.inCache == old(h.inCache)
    {
      Oldest();
      hide ValidBut, Elems, Minus;
      e := lru.next;
      assert e.refs == 1;
      var r := Erase(e.key, e.hash);
      assert r != null;
    }

    lemma Oldest()
      requires Valid()
      ensures lru.next == lru <==> lruList == []
      ensures lruList != [] ==>
                var e := lru.next;
                lruList == [e] + Minus(lruList, e) && inUseList == Minus(inUseList, e) && e.refs == 1 && e in handles &&
                e.Name() in table.entries && table.entries[e.Name()] == e
    {
      if lruList != [] {
        var e := lruList[0];
        assert e in Elems(lruList);
        FirstIndex(lru, lruList);
      }
    }

    /** The new entry goes to those in use. */
    method Append(e: LRUHandle)
      requires Rings() && e in handles && e !in Elems(lruList) && e !in Elems(inUseList)
      modifies `inUseList, `usage, e`inCache, e`refs, handles`next, handles`prev, lru`next, lru`prev, inUse`next,
               inUse`prev
      ensures Rings() && e.inCache && e.refs == old(e.refs) + 1
      ensures inUseList == old(inUseList) + [e] && usage == old(usage) + e.charge
      ensures Elems(inUseList) == old(Elems(inUseList)) + {e}
      ensures CachedBut(lruList, inUseList, e) == old(CachedBut(lruList, inUseList, null))
    {
      hide Ring, Elems, Charges, NoDup, CachedBut, Apart;
      assert Apart(lru, lruList, inUse, inUseList);
      PutFacts(lru, lruList, inUse, inUseList, e);
      e.refs := e.refs + 1;
      e.inCache := true;
      LRU_Append(inUse, e, inUseList);
      assert Ring(lru, lruList);
      usage := usage + e.charge;
      inUseList := inUseList + [e];
    }

    /** The hash table does not have it yet. */
    method PutOn(e: LRUHandle)
      requires Valid() && e in handles && !e.inCache && e.refs == 1
      modifies `inUseList, `usage, handles, lru, inUse
      ensures ValidBut(e) && e.inCache && e.refs == 2 && inUseList == old(inUseList) + [e]
      ensures usage == old(usage) + e.charge
      ensures e in Elems(inUseList)
      ensures forall h :: h in handles && h != e ==> h.refs == old(h.refs) && h.inCache == old(h.inCache)
    {
      hide Lists, Ring, Tabled, Elems, Rings, HandleTable.Valid, Nodes, CachedBut;
      Append(e);
      assert table.Valid();
    }

    /** The hash table gets the entry, and gives up the one it had for the key. */
    method Enter(e: LRUHandle) returns (replaced: LRUHandle?)
      requires ValidBut(e) && e in handles && e in Elems(inUseList) && e !in Nodes(table.buckets)
      modifies table, table.list, handles`nextHash
      ensures ValidBut(replaced) && table.entries == old(table.entries)[e.Name() := e]
      ensures fresh({table.list} - {old(table.list)})
      ensures replaced == if e.Name() in old(table.entries) then old(table.entries)[e.Name()] else null
      ensures replaced != null ==> replaced != e && replaced in Elems(lruList) + Elems(inUseList) && replaced in handles
    {
      hide Ring, Rings, Lists, Elems, Tabled, HandleTable.Valid, Nodes, Counts, CachedBut;
      Retabled(table.entries, lruList, inUseList, e);
      replaced := table.Insert(e);
      CachedIn(lruList, inUseList, replaced, handles);
      NodesIn(table, CachedBut(lruList, inUseList, replaced), handles);
    }

    /** One more eviction after those that led here. */
    method EvictOneMore(ghost evicted: seq<LRUHandle>, ghost l0: seq<LRUHandle>, ghost hs0: set<LRUHandle>,
                        ghost es0: map<(Slice, U32), LRUHandle>) returns (e: LRUHandle)
      requires Valid() && lru.next != lru && Gone(evicted, l0, lruList, hs0, handles, es0, table.entries)
      modifies `lruList, `inUseList, `usage, `handles, table, table.list, handles, lru, inUse
      ensures handles <= old(handles) && Same(handles)
      ensures Valid() && table.list == old(table.list) && inUseList == old(inUseList)
      ensures Gone(evicted + [e], l0, lruList, hs0, handles, es0, table.entries)
      ensures |lruList| < |old(lruList)| && usage + e.charge == old(usage)
    {
      hide ValidBut, Gone;
      ghost var l, hs, es := lruList, handles, table.entries;
      e := EvictOldest();
      OneMoreGone(evicted, l0, l, lruList, hs0, hs, es0, es, e);
    }

    /** The oldest unused entries go, but no more than it takes to bring the usage down to the capacity. */
    method Shrink() returns (ghost evicted: seq<LRUHandle>)
      requires Valid()
      modifies `lruList, `inUseList, `usage, `handles, table, table.list, handles, lru, inUse
      ensures handles <= old(handles) && Same(handles)
      ensures Valid() && table.list == old(table.list) && inUseList == old(inUseList)
      ensures Gone(evicted, old(lruList), lruList, old(handles), handles, old(table.entries), table.entries)
      ensures usage <= capacity || lruList == []
      ensures NeedsLast(evicted, usage, capacity)
    {
      hide ValidBut, Gone;
      evicted := [];
      NoneGone(lruList, handles, table.entries);
      while usage > capacity && lru.next != lru
        invariant handles <= old(handles) && Same(handles)
        invariant Valid() && table.list == old(table.list) && inUseList == old(inUseList)
        invariant Gone(evicted, old(lruList), lruList, old(handles), handles, old(table.entries), table.entries)
        invariant NeedsLast(evicted, usage, capacity)
        decreases |lruList|
      {
        var e := EvictOneMore(evicted, old(lruList), old(handles), old(table.entries));
        evicted := evicted + [e];
      }
      Oldest();
    }

    twostate predicate Same(s: set<LRUHandle>)
      reads s
    {
      forall h :: h in s ==> h.refs == old(h.refs) && h.inCache == old(h.inCache)
    }

    /** The new entry enters the cache; the one it replaces leaves. */
    method Admit(e: LRUHandle) returns (replaced: LRUHandle?)
      requires Valid() && e in handles && !e.inCache && e.refs == 1 && e !in Nodes(table.buckets)
      modifies `lruList, `inUseList, `usage, `handles, table, table.list, handles, lru, inUse
      ensures Valid() && e in handles && e.inCache && e.refs == 2 && table.entries == old(table.entries)[e.Name() := e]
      ensures fresh({table.list} - {old(table.list)}) && handles <= old(handles)
      ensures replaced != null ==> replaced in old(handles)
      ensures replaced == if e.Name() in old(table.entries) then old(table.entries)[e.Name()] else null
      ensures if replaced == null then lruList == old(lruList) && handles == old(handles) &&
              usage == old(usage) + e.charge
              else Left(replaced, old(replaced.refs)) && lruList == old(Minus(lruList, replaced)) &&
                   handles == old(handles) - (if replaced.refs == 0 then {replaced} else {}) &&
                   usage + replaced.charge == old(usage) + e.charge
      ensures forall h :: h in handles && h != e && h != replaced ==>
                h.refs == old(h.refs) && h.inCache == old(h.inCache)
    {
      hide ValidBut, Elems, Minus, Nodes;
      PutOn(e);
      replaced := Enter(e);
      var erased := FinishErase(replaced);
    }

    /** An entry that has left the cache has one reference less. */
    ghost predicate Left(e: LRUHandle, refs: nat)
      reads e
    {
      !e.inCache && e.refs == refs - 1
    }

    /**
     The new entry replaces the one of its key, which gives the list of the unused `l`, the live handles `hs` and the
     table `es`; then the oldest unused entries go until the usage is down to the capacity. A cache without capacity
     keeps nothing.
     */
    method Insert(key: Slice, hash: U32, charge: nat)
      returns (e: LRUHandle, ghost replaced: LRUHandle?, ghost evicted: seq<LRUHandle>,
               ghost l: seq<LRUHandle>, ghost hs: set<LRUHandle>, ghost es: map<(Slice, U32), LRUHandle>)
      requires Valid()
      modifies `lruList, `inUseList, `usage, `handles, table, table.list, handles, lru, inUse
      ensures Valid() && fresh(e) && e.Name() == (key, hash) && e.charge == charge && e in handles
      ensures e.inCache == (capacity > 0) && e.refs == if capacity > 0 then 2 else 1
      ensures if capacity > 0 then es == old(table.entries)[(key, hash) := e] else es == old(table.entries)
      ensures replaced == if capacity > 0 && (key, hash) in old(table.entries) then old(table.entries)[(key, hash)]
                          else null
      ensures if replaced == null then l == old(lruList) && hs == old(handles) + {e}
              else Left(replaced, old(replaced.refs)) && l == old(Minus(lruList, replaced)) &&
                   hs == old(handles) + {e} - (if replaced.refs == 0 then {replaced} else {})
      ensures Gone(evicted, l, lruList, hs, handles, es, table.entries)
      ensures (usage <= capacity || lruList == []) && NeedsLast(evicted, usage, capacity)
      ensures fresh({table.list} - {old(table.list)}) && handles <= old(handles) + {e}
      ensures forall h :: h in old(handles) && h in handles && h != replaced ==>
                h.refs == old(h.refs) && h.inCache == old(h.inCache)
    {
      hide ValidBut, Elems, Minus, Nodes, Gone, NeedsLast;
      e := new LRUHandle(key, hash, charge, 1);
      NewToAll(e);
      Welcome(e);
      replaced := null;
      if capacity > 0 {
        var r := Admit(e);
        replaced := r;
      }
      l, hs, es := lruList, handles, table.entries;
      NotUnused(e);
      if replaced != null && replaced in handles { NotUnused(replaced); }
      evicted := Shrink();
      NotEvicted(evicted, l, lruList, hs, handles, es, table.entries, e);
      if replaced != null && replaced in hs {
        NotEvicted(evicted, l, lruList, hs, handles, es, table.entries, replaced);
      }
    }

    lemma NotUnused(e: LRUHandle)
      requires Valid() && e in handles && (e.refs >= 2 || !e.inCache)
      ensures e !in Elems(lruList)
    {
    }

    lemma NewToAll(e: LRUHandle)
      requires Valid() && e !in handles && e != lru && e != inUse
      ensures e !in Elems(lruList) && e !in Elems(inUseList) && lru !in handles && inUse !in handles
    {
    }

    ghost method Welcome(e: LRUHandle)
      requires Valid() && e !in handles && !e.inCache && e.refs == 1 && !e.freed && e != lru && e != inUse
      requires e !in Elems(lruList) && e !in Elems(inUseList)
      modifies `handles
      ensures Valid() && handles == old(handles) + {e} && e !in Nodes(table.buckets)
    {
      hide Elems, Ring, Tabled, HandleTable.Valid, Nodes, Charges;
      handles := handles + {e};
    }

    /** All unused entries go. */
    method Prune() returns (ghost evicted: seq<LRUHandle>)
      requires Valid()
      modifies `lruList, `inUseList, `usage, `handles, table, table.list, handles, lru, inUse
      ensures handles <= old(handles) && Same(handles)
      ensures Valid() && lruList == [] && inUseList == old(inUseList) && table.list == old(table.list)
      ensures Gone(evicted, old(lruList), lruList, old(handles), handles, old(table.entries), table.entries)
    {
      hide ValidBut, Gone;
      evicted := [];
      NoneGone(lruList, handles, table.entries);
      while lru.next != lru
        invariant handles <= old(handles) && Same(handles)
        invariant Valid() && table.list == old(table.list) && inUseList == old(inUseList)
        invariant Gone(evicted, old(lruList), lruList, old(handles), handles, old(table.entries), table.entries)
        decreases |lruList|
      {
        var e := EvictOneMore(evicted, old(lruList), old(handles), old(table.entries));
        evicted := evicted + [e];
      }
      Oldest();
    }
  }

  /**
   Evicting took handles from the front of the list of the unused, and them alone from the live ones and the table.
   */
  ghost predicate Gone(evicted: seq<LRUHandle>, l0: seq<LRUHandle>, l: seq<LRUHandle>, hs0: set<LRUHandle>,
                       hs: set<LRUHandle>, es0: map<(Slice, U32), LRUHandle>, es: map<(Slice, U32), LRUHandle>)
  {
    l0 == evicted + l && hs == hs0 - Elems(evicted) && es == es0 - Names(evicted)
  }

  /** Without the last eviction the usage would still be too high. */
  ghost predicate NeedsLast(evicted: seq<LRUHandle>, usage: nat, capacity: nat) {
    evicted == [] || usage + evicted[|evicted| - 1].charge > capacity
  }

  lemma NotEvicted(evicted: seq<LRUHandle>, l0: seq<LRUHandle>, l: seq<LRUHandle>, hs0: set<LRUHandle>,
                   hs: set<LRUHandle>, es0: map<(Slice, U32), LRUHandle>, es: map<(Slice, U32), LRUHandle>,
                   e: LRUHandle)
    requires Gone(evicted, l0, l, hs0, hs, es0, es) && e !in Elems(l0) && e in hs0
    ensures e in hs
  {
  }

  lemma NoneGone(l: seq<LRUHandle>, hs: set<LRUHandle>, es: map<(Slice, U32), LRUHandle>)
    ensures Gone([], l, l, hs, hs, es, es)
  {
  }

  lemma OneMoreGone(evicted: seq<LRUHandle>, l0: seq<LRUHandle>, l: seq<LRUHandle>, l': seq<LRUHandle>,
                    hs0: set<LRUHandle>, hs: set<LRUHandle>, es0: map<(Slice, U32), LRUHandle>,
                    es: map<(Slice, U32), LRUHandle>, e: LRUHandle)
    requires Gone(evicted, l0, l, hs0, hs, es0, es) && l == [e] + l'
    ensures Gone(evicted + [e], l0, l', hs0, hs - {e}, es0, es - {e.Name()})
  {
  }

  ghost function Names(s: seq<LRUHandle>): set<(Slice, U32)> {
    set h | h in s :: h.Name()
  }

  lemma PutFacts(lru: LRUHandle, l: seq<LRUHandle>, inUse: LRUHandle, u: seq<LRUHandle>, e: LRUHandle)
    requires Apart(lru, l, inUse, u) && e !in Elems(l) && e !in Elems(u) && e != lru && e != inUse
    ensures Apart(lru, l, inUse, u + [e]) && NoDup(inUse, u + [e]) && Elems(u + [e]) == Elems(u) + {e}
    ensures Charges(u + [e]) == Charges(u) + e.charge && CachedBut(l, u + [e], e) == CachedBut(l, u, null)
  {
    ChargesOfAll(u, [e]);
    assert Charges([e]) == e.charge;
    forall i | 0 <= i < |u| ensures u[i] != e { assert u[i] in Elems(u); }
  }

  lemma Retabled(entries: map<(Slice, U32), LRUHandle>, l: seq<LRUHandle>, u: seq<LRUHandle>, e: LRUHandle)
    requires Tabled(entries, CachedBut(l, u, e)) && e in Elems(u)
    ensures Tabled(entries[e.Name() := e], CachedBut(l, u, if e.Name() in entries then entries[e.Name()] else null))
    ensures e.Name() in entries ==> entries[e.Name()] in Elems(l) + Elems(u) && entries[e.Name()] != e
  {
  }

  lemma FirstIndex(head: LRUHandle, s: seq<LRUHandle>)
    requires NoDup(head, s) && s != []
    ensures s[0] in Elems(s) && Minus(s, s[0]) == s[1..]
  {
    var k := IndexOf(s, s[0]);
    assert k == 0;
    assert Cut(s, 0) == s[1..];
  }

  lemma Untabled(entries: map<(Slice, U32), LRUHandle>, l: seq<LRUHandle>, u: seq<LRUHandle>, name: (Slice, U32))
    requires Tabled(entries, CachedBut(l, u, null))
    ensures Tabled(entries - {name}, CachedBut(l, u, if name in entries then entries[name] else null))
  {
  }

  lemma CachedIn(l: seq<LRUHandle>, u: seq<LRUHandle>, but: LRUHandle?, handles: set<LRUHandle>)
    requires Elems(l) <= handles && Elems(u) <= handles
    ensures CachedBut(l, u, but) <= handles
  {
  }

  /** A list without a handle. */
  ghost function Minus(s: seq<LRUHandle>, e: LRUHandle): seq<LRUHandle> {
    if e in Elems(s) then Cut(s, IndexOf(s, e)) else s
  }

  lemma CutKeepsApart(head: LRUHandle, l: seq<LRUHandle>, list: LRUHandle, u: seq<LRUHandle>, k: nat)
    requires k < |l| && Apart(head, l, list, u)
    ensures Elems(Cut(l, k)) == Elems(l) - {l[k]} && l[k] !in Elems(u) && Apart(head, Cut(l, k), list, u)
    ensures Charges(Cut(l, k)) + l[k].charge == Charges(l)
  {
    CutHas(head, l, k);
    ChargesOfCut(l, k);
    assert forall h :: h in Elems(l) <==> h in l;
    hide Cut, Charges;
  }

  /** The handles in the buckets of a hash table are those it stands for. */
  lemma NodesIn(table: HandleTable, cached: set<LRUHandle>, handles: set<LRUHandle>)
    requires table.Valid() && Tabled(table.entries, cached) && cached <= handles
    ensures Nodes(table.buckets) <= handles
  {
    forall h | h in Nodes(table.buckets) ensures h in handles {
      assert h.Name() in table.entries && table.entries[h.Name()] == h;
    }
  }

  ghost function IndexOf(s: seq<LRUHandle>, e: LRUHandle): (k: nat)
    requires e in Elems(s)
    ensures k < |s| && s[k] == e
  {
    var k: nat :| k < |s| && s[k] == e;
    k
  }

  lemma MoveKeepsCharges(l: seq<LRUHandle>, u: seq<LRUHandle>, k: nat)
    requires k < |l|
    ensures Charges(Cut(l, k)) + Charges(u + [l[k]]) == Charges(l) + Charges(u)
  {
    ChargesOfCut(l, k);
    ChargesOfAll(u, [l[k]]);
    assert Charges([l[k]]) == l[k].charge;
  }

  lemma CutHas(head: LRUHandle, s: seq<LRUHandle>, k: nat)
    requires NoDup(head, s) && k < |s|
    ensures forall h :: h in Cut(s, k) <==> h in s && h != s[k]
    ensures NoDup(head, Cut(s, k))
  {
    forall h | h in s && h != s[k] ensures h in Cut(s, k) {
      var j :| 0 <= j < |s| && s[j] == h;
      assert Cut(s, k)[if j < k then j else j - 1] == h;
    }
  }
}
