/**
 The chained hash table of the block cache. The ghost `buckets` list the handles of every chain; the ghost map `entries`
 is what the table stands for.
 */
module HandleTable {
  import opened Basics
  import opened Bits
  import opened Coding

  class LRUHandle {
    const key: Slice
    const hash: U32
    const charge: nat
    var nextHash: LRUHandle?
    var next: LRUHandle?
    var prev: LRUHandle?
    var inCache: bool
    var refs: nat
    ghost var freed: bool

    constructor (key: Slice, hash: U32, charge: nat, refs: nat)
      ensures this.key == key && this.hash == hash && this.charge == charge && this.refs == refs
      ensures nextHash == null && !inCache && !freed && next == null && prev == null
    {
      this.key, this.hash, this.charge, this.refs := key, hash, charge, refs;
      nextHash, next, prev, inCache, freed := null, null, null, false, false;
    }

    function Name(): (Slice, U32) { (key, hash) }
  }

  /** The powers of two from four on. */
  ghost predicate Power(n: nat)
    ensures Power(n) ==> n >= 4
  {
    n == 4 || (n > 4 && n % 2 == 0 && Power(n / 2))
  }

  /** The bucket of a hash value among `n`, which is a power of two: `hash & (length_ - 1)`. */
  function BucketOf(hash: U32, n: nat): (i: nat)
    requires n > 0
    ensures i < n
  {
    And(hash, n - 1)
  }

  lemma {:induction false} MaskIsRemainder(a: nat, n: nat)
    requires n == 1 || n == 2 || Power(n)
    ensures And(a, n - 1) == a % n
    decreases n
  {
    if n > 1 && a > 0 {
      var m := n / 2;
      assert m > 1 ==> (n - 1) / 2 == m - 1;
      MaskIsRemainder(a / 2, m);
      assert n == 2 * m && (n - 1) % 2 == 1;
      HalfRemainder(a, m);
    }
  }

  lemma HalfRemainder(a: nat, m: nat)
    requires m > 0
    ensures a % (2 * m) == 2 * (a / 2 % m) + a % 2
  {
    var q, r := a / 2 / m, a / 2 % m;
    assert a / 2 == q * m + r;
    assert a == q * (2 * m) + (2 * r + a % 2);
    RemainderIs(a, 2 * m, q, 2 * r + a % 2);
  }

  lemma RemainderIs(a: nat, n: nat, q: nat, r: nat)
    requires n > 0 && a == q * n + r && r < n
    ensures a % n == r
  {
    var d := a / n - q;
    assert d * n == r - a % n;
    assert d >= 1 ==> d * n >= n;
    assert d <= -1 ==> d * n + n <= 0;
  }

  /** As long as the length is a power of two the buckets are the remainders of the hash value. */
  lemma BucketIsRemainder(hash: U32, n: nat)
    requires Power(n)
    ensures BucketOf(hash, n) == hash % n
  {
    MaskIsRemainder(hash, n);
  }

  ghost function At(s: seq<LRUHandle>, j: nat): LRUHandle? {
    if j < |s| then s[j] else null
  }

  /** Handles are in the bucket of their hash, and no two have the same key and hash. */
  ghost predicate Placed(buckets: seq<seq<LRUHandle>>) {
    && |buckets| > 0
    && (forall i, j :: 0 <= i < |buckets| && 0 <= j < |buckets[i]| ==> BucketOf(buckets[i][j].hash, |buckets|) == i)
    && (forall i, j, k :: 0 <= i < |buckets| && 0 <= j < k < |buckets[i]| ==>
          buckets[i][j].Name() != buckets[i][k].Name())
  }

  ghost function Nodes(buckets: seq<seq<LRUHandle>>): set<LRUHandle> {
    set i, j | 0 <= i < |buckets| && 0 <= j < |buckets[i]| :: buckets[i][j]
  }

  /** The chains that the pointers form are the buckets. */
  ghost predicate Chained(heads: seq<LRUHandle?>, buckets: seq<seq<LRUHandle>>)
    reads Nodes(buckets)`nextHash
  {
    && |heads| == |buckets|
    && (forall i :: 0 <= i < |buckets| ==> heads[i] == At(buckets[i], 0))
    && (forall i, j :: 0 <= i < |buckets| && 0 <= j < |buckets[i]| ==> buckets[i][j].nextHash == At(buckets[i], j + 1))
  }

  /** The map is that of the handles in the buckets. */
  ghost predicate Maps(entries: map<(Slice, U32), LRUHandle>, buckets: seq<seq<LRUHandle>>) {
    AllIn(entries, buckets) && AllNamed(entries, buckets)
  }

  ghost predicate AllIn(entries: map<(Slice, U32), LRUHandle>, buckets: seq<seq<LRUHandle>>) {
    |buckets| > 0 &&
    forall n :: n in entries ==> entries[n].Name() == n && entries[n] in buckets[BucketOf(n.1, |buckets|)]
  }

  ghost predicate AllNamed(entries: map<(Slice, U32), LRUHandle>, buckets: seq<seq<LRUHandle>>) {
    forall i, j :: 0 <= i < |buckets| && 0 <= j < |buckets[i]| ==>
      buckets[i][j].Name() in entries && entries[buckets[i][j].Name()] == buckets[i][j]
  }

  /** The place of a name: its bucket and the first position there with that name, or the end. */
  ghost predicate Spot(buckets: seq<seq<LRUHandle>>, name: (Slice, U32), j: nat)
    requires |buckets| > 0
  {
    var b := buckets[BucketOf(name.1, |buckets|)];
    j <= |b| && (forall k :: 0 <= k < j ==> b[k].Name() != name) && (j < |b| ==> b[j].Name() == name)
  }

  lemma SpotTells(entries: map<(Slice, U32), LRUHandle>, buckets: seq<seq<LRUHandle>>, name: (Slice, U32), j: nat)
    requires Placed(buckets) && Maps(entries, buckets) && Spot(buckets, name, j)
    ensures var b := buckets[BucketOf(name.1, |buckets|)];
            if j < |b| then name in entries && entries[name] == b[j] else name !in entries
  {
    if name in entries {
      var b := buckets[BucketOf(name.1, |buckets|)];
      var k :| 0 <= k < |b| && b[k] == entries[name];
      assert b[k].Name() == name;
    }
  }

  lemma NodesDiffer(buckets: seq<seq<LRUHandle>>, i: nat, j: nat, i': nat, j': nat)
    requires Placed(buckets) && i < |buckets| && j < |buckets[i]| && i' < |buckets| && j' < |buckets[i']|
    ensures buckets[i][j] == buckets[i'][j'] ==> i == i' && j == j'
  {
    assert j < j' && i == i' ==> buckets[i][j].Name() != buckets[i][j'].Name();
    assert j' < j && i == i' ==> buckets[i][j'].Name() != buckets[i][j].Name();
  }

  /** A bucket with the handle in place of the one of its name, or at its end. */
  ghost function WithHandle(b: seq<LRUHandle>, j: nat, h: LRUHandle): seq<LRUHandle>
    requires j <= |b|
  {
    if j < |b| then b[j := h] else b + [h]
  }

  /** The slot of a name: place `j` of bucket `i`, with what stands there and what stands before it. */
  ghost predicate SlotOf(buckets: seq<seq<LRUHandle>>, name: (Slice, U32), i: nat, j: nat, found: LRUHandle?,
                         before: LRUHandle?) {
    && i < |buckets| && i == BucketOf(name.1, |buckets|) && j <= |buckets[i]| && Spot(buckets, name, j)
    && found == At(buckets[i], j) && before == if j == 0 then null else buckets[i][j - 1]
  }

  lemma SlotIs(buckets: seq<seq<LRUHandle>>, name: (Slice, U32), i: nat, j: nat, found: LRUHandle?, before: LRUHandle?)
    requires SlotOf(buckets, name, i, j, found, before)
    ensures i < |buckets| && i == BucketOf(name.1, |buckets|) && j <= |buckets[i]| && Spot(buckets, name, j)
    ensures found == null <==> j == |buckets[i]|
    ensures found != null ==> found == buckets[i][j] && found.Name() == name
  {
  }

  ghost function WithBucket(buckets: seq<seq<LRUHandle>>, i: nat, b: seq<LRUHandle>): (r: seq<seq<LRUHandle>>)
    requires i < |buckets|
    ensures |r| == |buckets|
  {
    buckets[i := b]
  }

  /** What stands at a place, and what follows there, once `h` is put at place `j` of its bucket. */
  lemma PutAt(buckets: seq<seq<LRUHandle>>, j: nat, h: LRUHandle, p: nat, q: nat)
    requires Placed(buckets) && Spot(buckets, h.Name(), j)
    requires p < |buckets|
    requires q < |WithBucket(buckets, BucketOf(h.hash, |buckets|),
                             WithHandle(buckets[BucketOf(h.hash, |buckets|)], j, h))[p]|
    ensures var i := BucketOf(h.hash, |buckets|);
            var buckets': seq<seq<LRUHandle>> := WithBucket(buckets, i, WithHandle(buckets[i], j, h));
            if p == i && q == j then
              buckets'[p][q] == h && At(buckets'[p], q + 1) == At(buckets[i], j + 1)
            else
              q < |buckets[p]| && buckets'[p][q] == buckets[p][q] && buckets[p][q].Name() != h.Name() &&
              At(buckets'[p], q + 1) == (if p == i && q + 1 == j then h else At(buckets[p], q + 1)) &&
              (j > 0 ==> (buckets[p][q] == buckets[i][j - 1] <==> p == i && q == j - 1))
  {
    var i := BucketOf(h.hash, |buckets|);
    if !(p == i && q == j) {
      assert BucketOf(buckets[p][q].hash, |buckets|) == p;
      if j < |buckets[i]| { NodesDiffer(buckets, p, q, i, j); }
      if p == i && q < j { assert buckets[i][q].Name() != h.Name(); }
      if p == i && q > j { assert buckets[i][j].Name() != buckets[i][q].Name(); }
      if j > 0 { NodesDiffer(buckets, p, q, i, j - 1); }
    }
  }

  lemma NodesAfterPut(buckets: seq<seq<LRUHandle>>, j: nat, h: LRUHandle)
    requires Placed(buckets) && Spot(buckets, h.Name(), j)
    ensures var i := BucketOf(h.hash, |buckets|);
            Nodes(WithBucket(buckets, i, WithHandle(buckets[i], j, h))) <= Nodes(buckets) + {h}
  {
  }

  lemma PutKeepsPlaced(buckets: seq<seq<LRUHandle>>, j: nat, h: LRUHandle)
    requires Placed(buckets) && Spot(buckets, h.Name(), j)
    ensures var i := BucketOf(h.hash, |buckets|); Placed(WithBucket(buckets, i, WithHandle(buckets[i], j, h)))
  {
    var i := BucketOf(h.hash, |buckets|);
    var buckets': seq<seq<LRUHandle>> := WithBucket(buckets, i, WithHandle(buckets[i], j, h));
    forall p: nat, q: nat | 0 <= p < |buckets'| && 0 <= q < |buckets'[p]|
      ensures BucketOf(buckets'[p][q].hash, |buckets'|) == p
    {
      PutAt(buckets, j, h, p, q);
    }
    forall p: nat, q: nat, r: nat | 0 <= p < |buckets'| && 0 <= q < r < |buckets'[p]|
      ensures buckets'[p][q].Name() != buckets'[p][r].Name()
    {
      PutAt(buckets, j, h, p, q);
      PutAt(buckets, j, h, p, r);
    }
  }

  lemma PutKeepsMap(entries: map<(Slice, U32), LRUHandle>, buckets: seq<seq<LRUHandle>>, j: nat, h: LRUHandle)
    requires Placed(buckets) && Maps(entries, buckets) && Spot(buckets, h.Name(), j)
    ensures var i := BucketOf(h.hash, |buckets|);
            Maps(entries[h.Name() := h], WithBucket(buckets, i, WithHandle(buckets[i], j, h)))
  {
    var i := BucketOf(h.hash, |buckets|);
    var buckets': seq<seq<LRUHandle>> := WithBucket(buckets, i, WithHandle(buckets[i], j, h));
    var entries' := entries[h.Name() := h];
    SpotTells(entries, buckets, h.Name(), j);
    forall n | n in entries' ensures entries'[n].Name() == n && entries'[n] in buckets'[BucketOf(n.1, |buckets'|)] {
      var b, m := buckets[i], BucketOf(n.1, |buckets|);
      if n == h.Name() {
        assert WithHandle(b, j, h)[j] == h;
      } else if m == i {
        var k :| 0 <= k < |b| && b[k] == entries[n];
        assert WithHandle(b, j, h)[k] == b[k];
      }
    }
    forall p: nat, q: nat | 0 <= p < |buckets'| && 0 <= q < |buckets'[p]|
      ensures buckets'[p][q].Name() in entries' && entries'[buckets'[p][q].Name()] == buckets'[p][q]
    {
      PutAt(buckets, j, h, p, q);
    }
  }

  lemma PutKeeps(entries: map<(Slice, U32), LRUHandle>, buckets: seq<seq<LRUHandle>>, j: nat, h: LRUHandle)
    requires Placed(buckets) && Maps(entries, buckets) && Spot(buckets, h.Name(), j)
    ensures var i := BucketOf(h.hash, |buckets|);
            Placed(WithBucket(buckets, i, WithHandle(buckets[i], j, h))) &&
            Maps(entries[h.Name() := h], WithBucket(buckets, i, WithHandle(buckets[i], j, h))) &&
            |entries[h.Name() := h]| == |entries| + if j < |buckets[i]| then 0 else 1
  {
    PutKeepsPlaced(buckets, j, h);
    PutKeepsMap(entries, buckets, j, h);
    SpotTells(entries, buckets, h.Name(), j);
    hide Placed, Maps, WithBucket, WithHandle, Spot;
    assert entries[h.Name() := h].Keys == entries.Keys + {h.Name()};
  }

  ghost function Without(b: seq<LRUHandle>, j: nat): seq<LRUHandle>
    requires j < |b|
  {
    b[..j] + b[j + 1..]
  }

  /** What stands at a place, and what follows there, once place `j` of a bucket is taken out. */
  lemma TakeAt(buckets: seq<seq<LRUHandle>>, i: nat, j: nat, p: nat, q: nat)
    requires Placed(buckets) && i < |buckets| && j < |buckets[i]|
    requires p < |buckets| && q < |WithBucket(buckets, i, Without(buckets[i], j))[p]|
    ensures var buckets' := WithBucket(buckets, i, Without(buckets[i], j));
            var q' := if p == i && q >= j then q + 1 else q;
            q' < |buckets[p]| && buckets'[p][q] == buckets[p][q'] && buckets[p][q'].Name() != buckets[i][j].Name() &&
            At(buckets'[p], q + 1) ==
                (if p == i && q' + 1 == j then At(buckets[i], j + 1) else At(buckets[p], q' + 1)) &&
            (j > 0 ==> (buckets[p][q'] == buckets[i][j - 1] <==> p == i && q' == j - 1))
  {
    var q' := if p == i && q >= j then q + 1 else q;
    assert BucketOf(buckets[p][q'].hash, |buckets|) == p && BucketOf(buckets[i][j].hash, |buckets|) == i;
    if p == i && q' < j { assert buckets[i][q'].Name() != buckets[i][j].Name(); }
    if p == i && q' > j { assert buckets[i][j].Name() != buckets[i][q'].Name(); }
    if j > 0 { NodesDiffer(buckets, p, q', i, j - 1); }
  }

  lemma TakeKeepsPlaced(buckets: seq<seq<LRUHandle>>, i: nat, j: nat)
    requires Placed(buckets) && i < |buckets| && j < |buckets[i]|
    ensures Placed(WithBucket(buckets, i, Without(buckets[i], j)))
  {
    var buckets': seq<seq<LRUHandle>> := WithBucket(buckets, i, Without(buckets[i], j));
    forall p: nat, q: nat | 0 <= p < |buckets'| && 0 <= q < |buckets'[p]|
      ensures BucketOf(buckets'[p][q].hash, |buckets'|) == p
    {
      TakeAt(buckets, i, j, p, q);
    }
    forall p: nat, q: nat, r: nat | 0 <= p < |buckets'| && 0 <= q < r < |buckets'[p]|
      ensures buckets'[p][q].Name() != buckets'[p][r].Name()
    {
      TakeAt(buckets, i, j, p, q);
      TakeAt(buckets, i, j, p, r);
    }
  }

  lemma StillThere(b: seq<LRUHandle>, j: nat, h: LRUHandle)
    requires j < |b| && h in b && h != b[j]
    ensures h in Without(b, j)
  {
    var k :| 0 <= k < |b| && b[k] == h;
    assert Without(b, j)[if k < j then k else k - 1] == h;
  }

  lemma TakeKeepsMap(entries: map<(Slice, U32), LRUHandle>, buckets: seq<seq<LRUHandle>>, i: nat, j: nat)
    requires Placed(buckets) && Maps(entries, buckets) && i < |buckets| && j < |buckets[i]|
    ensures Maps(entries - {buckets[i][j].Name()}, WithBucket(buckets, i, Without(buckets[i], j)))
  {
    TakeKeepsIn(entries, buckets, i, j);
    TakeKeepsNamed(entries, buckets, i, j);
    hide AllIn, AllNamed, WithBucket, Without;
  }

  lemma TakeKeeps(entries: map<(Slice, U32), LRUHandle>, buckets: seq<seq<LRUHandle>>, i: nat, j: nat)
    requires Placed(buckets) && Maps(entries, buckets) && i < |buckets| && j < |buckets[i]|
    ensures Placed(WithBucket(buckets, i, Without(buckets[i], j)))
    ensures Maps(entries - {buckets[i][j].Name()}, WithBucket(buckets, i, Without(buckets[i], j)))
    ensures |entries - {buckets[i][j].Name()}| == |entries| - 1
  {
    TakeKeepsPlaced(buckets, i, j);
    TakeKeepsMap(entries, buckets, i, j);
    var name := buckets[i][j].Name();
    assert name in entries;
    hide Placed, WithBucket, Without;
    assert (entries - {name}).Keys == entries.Keys - {name};
  }

  lemma TakeKeepsIn(entries: map<(Slice, U32), LRUHandle>, buckets: seq<seq<LRUHandle>>, i: nat, j: nat)
    requires Maps(entries, buckets) && i < |buckets| && j < |buckets[i]|
    ensures AllIn(entries - {buckets[i][j].Name()}, WithBucket(buckets, i, Without(buckets[i], j)))
  {
    var entries' := entries - {buckets[i][j].Name()};
    forall n | n in entries'
      ensures entries'[n].Name() == n &&
              entries'[n] in WithBucket(buckets, i, Without(buckets[i], j))[BucketOf(n.1, |buckets|)]
    {
      assert entries'[n] == entries[n];
      if BucketOf(n.1, |buckets|) == i { StillThere(buckets[i], j, entries[n]); }
    }
  }

  lemma TakeKeepsNamed(entries: map<(Slice, U32), LRUHandle>, buckets: seq<seq<LRUHandle>>, i: nat, j: nat)
    requires Placed(buckets) && Maps(entries, buckets) && i < |buckets| && j < |buckets[i]|
    ensures AllNamed(entries - {buckets[i][j].Name()}, WithBucket(buckets, i, Without(buckets[i], j)))
  {
    var buckets': seq<seq<LRUHandle>> := WithBucket(buckets, i, Without(buckets[i], j));
    var entries' := entries - {buckets[i][j].Name()};
    hide AllIn, Placed;
    forall p: nat, q: nat | 0 <= p < |buckets'| && 0 <= q < |buckets'[p]|
      ensures buckets'[p][q].Name() in entries' && entries'[buckets'[p][q].Name()] == buckets'[p][q]
    {
      Remains(entries, buckets, i, j, p, q);
    }
  }

  lemma Remains(entries: map<(Slice, U32), LRUHandle>, buckets: seq<seq<LRUHandle>>, i: nat, j: nat, p: nat, q: nat)
    requires Placed(buckets) && Maps(entries, buckets) && i < |buckets| && j < |buckets[i]|
    requires p < |buckets| && q < |WithBucket(buckets, i, Without(buckets[i], j))[p]|
    ensures var h := WithBucket(buckets, i, Without(buckets[i], j))[p][q];
            h.Name() in entries && h.Name() != buckets[i][j].Name() && entries[h.Name()] == h
  {
    TakeAt(buckets, i, j, p, q);
    hide Placed, WithBucket, Without;
  }

  // ---------------------------------------------------------------------------------------------------------------
  // All handles in the order in which growing the table visits them.

  ghost function Flat(buckets: seq<seq<LRUHandle>>): seq<LRUHandle> {
    if buckets == [] then [] else buckets[0] + Flat(buckets[1..])
  }

  ghost function MapOf(s: seq<LRUHandle>): map<(Slice, U32), LRUHandle> {
    if s == [] then map[] else MapOf(s[..|s| - 1])[s[|s| - 1].Name() := s[|s| - 1]]
  }

  ghost predicate Distinct(s: seq<LRUHandle>) {
    forall j, k :: 0 <= j < k < |s| ==> s[j].Name() != s[k].Name()
  }

  lemma {:induction false} InMapOf(s: seq<LRUHandle>, n: (Slice, U32))
    requires Distinct(s)
    ensures n in MapOf(s) <==> exists k :: 0 <= k < |s| && s[k].Name() == n
    ensures n in MapOf(s) ==> MapOf(s)[n] in s && MapOf(s)[n].Name() == n
    ensures |MapOf(s)| == |s|
  {
    if s != [] {
      var front, last := s[..|s| - 1], s[|s| - 1];
      InMapOf(front, n);
      InMapOf(front, last.Name());
      assert MapOf(s).Keys == MapOf(front).Keys + {last.Name()};
      if n in MapOf(front) {
        var k :| 0 <= k < |front| && front[k].Name() == n;
        assert s[k].Name() == n;
      }
      if exists k :: 0 <= k < |s| && s[k].Name() == n {
        var k :| 0 <= k < |s| && s[k].Name() == n;
        assert k < |front| ==> front[k].Name() == n;
      }
    }
  }

  class HandleTable {
    var length: nat
    var elems: nat
    var list: array<LRUHandle?>
    ghost var heads: seq<LRUHandle?>
    ghost var buckets: seq<seq<LRUHandle>>
    ghost var entries: map<(Slice, U32), LRUHandle>

    ghost predicate Valid()
      reads this, list, Nodes(buckets)`nextHash
    {
      && list.Length == length == |buckets| && Power(length) && elems == |entries|
      && list[..] == heads && Placed(buckets) && Chained(heads, buckets) && Maps(entries, buckets)
    }

    /** More handles than buckets: then the chains may get long. */
    ghost predicate Crowded()
      reads this
    {
      |entries| > |buckets|
    }

    constructor ()
      ensures Valid() && entries == map[] && fresh(list) && !Crowded()
    {
      length, elems := 0, 0;
      list := new LRUHandle?[0];
      heads, buckets, entries := [], [], map[];
      new;
      assert list[..] == [];
      Resize();
    }

    /** The slot that points to the handle, or the empty one at the end of its chain. A null `before` means the head. */
    method FindPointer(key: Slice, hash: U32) returns (before: LRUHandle?, found: LRUHandle?, ghost j: nat)
      requires Valid()
      ensures Valid() && SlotOf(buckets, (key, hash), BucketOf(hash, length), j, found, before)
      ensures if found == null then (key, hash) !in entries else (key, hash) in entries && entries[(key, hash)] == found
    {
      hide BucketOf;
      var i := BucketOf(hash, length);
      ghost var b := buckets[i];
      hide Maps, Power, Nodes;
      before, found, j := null, list[i], 0;
      while found != null && (found.hash != hash || found.key != key)
        invariant j <= |b| && found == At(b, j) && before == if j == 0 then null else b[j - 1]
        invariant forall k :: 0 <= k < j ==> b[k].Name() != (key, hash)
        decreases |b| - j
      {
        before := found;
        found := found.nextHash;
        j := j + 1;
      }
      SpotTells(entries, buckets, (key, hash), j);
    }

    method Lookup(key: Slice, hash: U32) returns (r: LRUHandle?)
      requires Valid()
      ensures Valid()
      ensures if r == null then (key, hash) !in entries else (key, hash) in entries && entries[(key, hash)] == r
    {
      var before, found, j := FindPointer(key, hash);
      r := found;
    }

    /** Stores a handle in the slot that `before` leads to. */
    method SetSlot(before: LRUHandle?, i: nat, h: LRUHandle?)
      requires i < list.Length && list[..] == heads
      modifies `heads, list, (if before == null then {} else {before})`nextHash
      ensures list[..] == heads == if before == null then old(heads)[i := h] else old(heads)
      ensures before != null ==> before.nextHash == h
    {
      if before == null {
        list[i] := h;
        heads := heads[i := h];
      } else {
        before.nextHash := h;
      }
    }

    /** Links a handle into its chain among `from`, in place of `found` or at the end. */
    method LinkIn(h: LRUHandle, before: LRUHandle?, found: LRUHandle?, i: nat, ghost from: seq<seq<LRUHandle>>,
                  ghost j: nat)
      requires SlotOf(from, h.Name(), i, j, found, before) && Placed(from)
      requires list[..] == heads && Chained(heads, from) && h !in Nodes(from)
      modifies `heads, list, h`nextHash, Nodes(from)`nextHash
      ensures list[..] == heads && Chained(heads, WithBucket(from, i, WithHandle(from[i], j, h)))
    {
      hide Placed, Spot;
      ghost var to: seq<seq<LRUHandle>> := WithBucket(from, i, WithHandle(from[i], j, h));
      h.nextHash := if found == null then null else found.nextHash;
      SetSlot(before, i, h);
      forall p: nat, q: nat | 0 <= p < |to| && 0 <= q < |to[p]| ensures to[p][q].nextHash == At(to[p], q + 1) {
        PutAt(from, j, h, p, q);
      }
    }

    /** Links a handle out of its chain among `from`. */
    method LinkOut(found: LRUHandle, before: LRUHandle?, i: nat, ghost from: seq<seq<LRUHandle>>, ghost j: nat)
      requires SlotOf(from, found.Name(), i, j, found, before) && Placed(from)
      requires list[..] == heads && Chained(heads, from)
      modifies `heads, list, Nodes(from)`nextHash
      ensures list[..] == heads && Chained(heads, WithBucket(from, i, Without(from[i], j)))
    {
      hide Placed;
      ghost var to: seq<seq<LRUHandle>> := WithBucket(from, i, Without(from[i], j));
      SetSlot(before, i, found.nextHash);
      forall p: nat, q: nat | 0 <= p < |to| && 0 <= q < |to[p]| ensures to[p][q].nextHash == At(to[p], q + 1) {
        TakeAt(from, i, j, p, q);
      }
    }

    /** Puts a handle into the table, in place of the one with its key and hash if there is one. */
    method Insert(h: LRUHandle) returns (found: LRUHandle?)
      requires Valid() && h !in Nodes(buckets)
      modifies this, list, h`nextHash, Nodes(buckets)`nextHash
      ensures Valid() && entries == old(entries)[h.Name() := h] && fresh({list} - {old(list)})
      ensures found == if h.Name() in old(entries) then old(entries)[h.Name()] else null
      ensures !old(Crowded()) ==> !Crowded()
    {
      hide Placed, Maps, Chained, BucketOf, Power, Nodes, Spot, At;
      var before, at, j := FindPointer(h.key, h.hash);
      found := at;
      PutIn(h, before, found, BucketOf(h.hash, length), j);
      if found == null && elems > length {
        ValidIsGrowable();
        Resize();
      }
    }

    method PutIn(h: LRUHandle, before: LRUHandle?, found: LRUHandle?, i: nat, ghost j: nat)
      requires Valid() && SlotOf(buckets, h.Name(), i, j, found, before) && h !in Nodes(buckets)
      modifies this, list, h`nextHash, Nodes(buckets)`nextHash
      ensures Valid() && entries == old(entries)[h.Name() := h] && list == old(list)
      ensures found != null ==> elems == old(elems)
      ensures Nodes(buckets) <= old(Nodes(buckets)) + {h}
    {
      hide Placed, Maps, Chained, Nodes, Spot, BucketOf, Power, At, WithBucket, WithHandle, SlotOf;
      SlotIs(buckets, h.Name(), i, j, found, before);
      NodesAfterPut(buckets, j, h);
      PutKeeps(entries, buckets, j, h);
      ghost var from := buckets;
      elems := if found == null then elems + 1 else elems;
      buckets := WithBucket(from, i, WithHandle(from[i], j, h));
      entries := entries[h.Name() := h];
      LinkIn(h, before, found, i, from, j);
      IsValid();
    }

    /** Takes the handle with the key and hash out of the table, if there is one. */
    method Remove(key: Slice, hash: U32) returns (result: LRUHandle?)
      requires Valid()
      modifies this, list, Nodes(buckets)`nextHash
      ensures Valid() && entries == old(entries) - {(key, hash)} && list == old(list)
      ensures result == if (key, hash) in old(entries) then old(entries)[(key, hash)] else null
      ensures !old(Crowded()) ==> !Crowded()
    {
      hide Placed, Maps, Chained, BucketOf, Power, Nodes, Spot, At;
      var before, at, j := FindPointer(key, hash);
      result := at;
      SlotIs(buckets, (key, hash), BucketOf(hash, length), j, at, before);
      if result != null {
        TakeOut(result, before, BucketOf(hash, length), j);
      }
    }

    lemma ValidParts()
      requires Valid()
      ensures list.Length == length == |buckets| && Power(length) && elems == |entries|
      ensures list[..] == heads && Placed(buckets) && Chained(heads, buckets) && Maps(entries, buckets)
    {
    }

    lemma IsValid()
      requires list.Length == length == |buckets| && Power(length) && elems == |entries|
      requires list[..] == heads && Placed(buckets) && Chained(heads, buckets) && Maps(entries, buckets)
      ensures Valid()
    {
    }

    method TakeOut(found: LRUHandle, before: LRUHandle?, i: nat, ghost j: nat)
      requires Valid() && SlotOf(buckets, found.Name(), i, j, found, before)
      modifies this, list, Nodes(buckets)`nextHash
      ensures Valid() && entries == old(entries) - {found.Name()} && list == old(list)
      ensures |entries| <= old(|entries|) && |buckets| == old(|buckets|)
    {
      hide *;
      ValidParts();
      SlotIs(buckets, found.Name(), i, j, found, before);
      TakeKeeps(entries, buckets, i, j);
      ghost var from := buckets;
      elems := elems - 1;
      buckets := WithBucket(from, i, Without(from[i], j));
      entries := entries - {found.Name()};
      LinkOut(found, before, i, from, j);
      IsValid();
    }

    /** What growing the table needs; a table under construction has no buckets at all. */
    ghost predicate Growable()
      reads this, list, Nodes(buckets)`nextHash
    {
      && list.Length == length == |buckets| && elems == |entries| && list[..] == heads && Chained(heads, buckets)
      && if |buckets| == 0 then entries == map[] else Placed(buckets) && Maps(entries, buckets)
    }

    lemma ValidIsGrowable()
      requires Valid()
      ensures Growable()
    {
    }

    /** Stores a handle at the head of its chain among `nb`. */
    method PushFront(newList: array<LRUHandle?>, h: LRUHandle, i: nat, ghost nh: seq<LRUHandle?>,
                     ghost nb: seq<seq<LRUHandle>>)
      requires newList[..] == nh && Chained(nh, nb) && i < newList.Length && h !in Nodes(nb) && newList != list
      modifies newList, h`nextHash
      ensures newList[..] == nh[i := h] && Chained(nh[i := h], WithBucket(nb, i, [h] + nb[i]))
    {
      ghost var to: seq<seq<LRUHandle>> := WithBucket(nb, i, [h] + nb[i]);
      h.nextHash := newList[i];
      newList[i] := h;
      forall p: nat, q: nat | 0 <= p < |to| && 0 <= q < |to[p]| ensures to[p][q].nextHash == At(to[p], q + 1) {
        if p != i {
          assert to[p][q] in Nodes(nb);
        } else if q > 0 {
          assert to[p][q] == nb[p][q - 1] && nb[p][q - 1] in Nodes(nb);
        }
      }
    }

    /** From `from` on, and in bucket `i` from place `j` on, the chains are still as they were. */
    ghost predicate Unmoved(i: nat, j: nat)
      reads this, Nodes(buckets)`nextHash
    {
      forall p, q :: i <= p < |buckets| && 0 <= q < |buckets[p]| && (p == i ==> q >= j) ==>
        buckets[p][q].nextHash == At(buckets[p], q + 1)
    }

    /** What has been moved and what has not. */
    ghost predicate Halfway(nb: seq<seq<LRUHandle>>, done: seq<LRUHandle>, rest: seq<LRUHandle>)
      reads this
    {
      Flat(buckets) == done + rest && Placed(nb) && Maps(MapOf(done), nb)
    }

    lemma StartMoving(newList: array<LRUHandle?>, nh: seq<LRUHandle?>, nb: seq<seq<LRUHandle>>)
      requires Growable() && newList != list && newList[..] == nh && |nh| == |nb| > 0
      requires forall k :: 0 <= k < |nh| ==> nh[k] == null && nb[k] == []
      ensures Moving(newList, nh, nb, [], 0, 0)
    {
      NothingMoved(nh, nb);
      AllUnmoved();
      FlatFrom(buckets);
      hide Flat, Maps, Placed, MapOf, Chained, Unmoved, Growable;
      assert Rest(0, 0) == Flat(buckets);
      assert Flat(buckets) == [] + Rest(0, 0);
    }

    lemma AllUnmoved()
      requires Growable()
      ensures Unmoved(0, 0)
    {
    }

    lemma HeadOf(i: nat)
      requires list[..] == heads && HeadsMatch() && i < |buckets|
      ensures i < list.Length && list[i] == At(buckets[i], 0)
    {
      assert list[..][i] == list[i];
    }

    ghost predicate HeadsMatch()
      reads this
    {
      |heads| == |buckets| && forall i :: 0 <= i < |buckets| ==> heads[i] == At(buckets[i], 0)
    }

    lemma EndMoving(newList: array<LRUHandle?>, nh: seq<LRUHandle?>, nb: seq<seq<LRUHandle>>, done: seq<LRUHandle>)
      requires Moving(newList, nh, nb, done, |buckets|, 0)
      requires MapOf(Flat(buckets)) == entries
      ensures done == Flat(buckets) && newList[..] == nh && |nb| == |nh| && Placed(nb) && Chained(nh, nb)
      ensures Maps(entries, nb)
    {
    }

    lemma MovedOne(nb: seq<seq<LRUHandle>>, done: seq<LRUHandle>, rest: seq<LRUHandle>)
      requires Halfway(nb, done, rest) && rest != [] && Distinct(Flat(buckets))
      ensures rest[0] !in Nodes(nb)
      ensures Halfway(WithBucket(nb, BucketOf(rest[0].hash, |nb|), [rest[0]] + nb[BucketOf(rest[0].hash, |nb|)]),
                      done + [rest[0]], rest[1..])
    {
      var h := rest[0];
      assert Flat(buckets) == (done + [h]) + rest[1..];
      assert Distinct(done) by {
        forall x, y | 0 <= x < y < |done| ensures done[x].Name() != done[y].Name() {
          assert Flat(buckets)[x] == done[x] && Flat(buckets)[y] == done[y];
        }
      }
      InMapOf(done, h.Name());
      assert h.Name() !in MapOf(done) by {
        forall k | 0 <= k < |done| ensures done[k].Name() != h.Name() {
          assert Flat(buckets)[k] == done[k] && Flat(buckets)[|done|] == h;
        }
      }
      assert (done + [h])[..|done|] == done;
      PushKeeps(MapOf(done), nb, h);
    }

    /** What is still to be moved, from place `j` of bucket `i` on. */
    ghost function Rest(i: nat, j: nat): seq<LRUHandle>
      requires i <= |buckets| && (i < |buckets| ==> j <= |buckets[i]|)
      reads this
    {
      if i < |buckets| then buckets[i][j..] + Flat(buckets[i + 1..]) else []
    }

    /** The new chains hold what has been moved; the old ones are as they were from place `j` of bucket `i` on. */
    ghost predicate Moving(newList: array<LRUHandle?>, nh: seq<LRUHandle?>, nb: seq<seq<LRUHandle>>,
                           done: seq<LRUHandle>, i: nat, j: nat)
      reads this, newList, Nodes(nb)`nextHash, Nodes(buckets)`nextHash
    {
      && newList != list && newList[..] == nh && Chained(nh, nb) && |nb| > 0
      && i <= |buckets| && (i < |buckets| ==> j <= |buckets[i]|) && Unmoved(i, j) && Halfway(nb, done, Rest(i, j))
    }

    /** Moves one handle over to the new buckets. */
    method MoveOne(newList: array<LRUHandle?>, h: LRUHandle, to: nat, ghost i: nat, ghost j: nat,
                   ghost nh: seq<LRUHandle?>, ghost nb: seq<seq<LRUHandle>>, ghost done: seq<LRUHandle>)
      requires Placed(buckets) && Distinct(Flat(buckets)) && Moving(newList, nh, nb, done, i, j)
      requires i < |buckets| && j < |buckets[i]| && buckets[i][j] == h && to == BucketOf(h.hash, |nb|)
      requires to < newList.Length
      modifies newList, h`nextHash
      ensures Moving(newList, nh[to := h], WithBucket(nb, to, [h] + nb[to]), done + [h], i, j + 1)
    {
      hide Chained, Placed, Halfway, Distinct, BucketOf, Flat;
      assert Rest(i, j)[0] == h && Rest(i, j)[1..] == Rest(i, j + 1);
      MovedOne(nb, done, Rest(i, j));
      forall p: nat, q: nat | i <= p < |buckets| && 0 <= q < |buckets[p]| && (p == i ==> q >= j + 1)
        ensures buckets[p][q] != h
      {
        NodesDiffer(buckets, p, q, i, j);
      }
      PushFront(newList, h, to, nh, nb);
    }

    lemma NextOf(newList: array<LRUHandle?>, nh: seq<LRUHandle?>, nb: seq<seq<LRUHandle>>, done: seq<LRUHandle>, i: nat,
                 j: nat)
      requires Moving(newList, nh, nb, done, i, j) && i < |buckets|
      ensures j <= |buckets[i]| && |nb| == newList.Length == |nh| > 0
      ensures j < |buckets[i]| ==> buckets[i][j].nextHash == At(buckets[i], j + 1)
      ensures j == |buckets[i]| ==> Moving(newList, nh, nb, done, i + 1, 0)
    {
      if j == |buckets[i]| { assert Rest(i, j) == Rest(i + 1, 0); }
    }

    /** Moves one chain. */
    method MoveChain(newList: array<LRUHandle?>, first: LRUHandle?, count0: nat, ghost i: nat,
                     ghost nh0: seq<LRUHandle?>, ghost nb0: seq<seq<LRUHandle>>, ghost done0: seq<LRUHandle>)
      returns (count: nat, ghost nh: seq<LRUHandle?>, ghost nb: seq<seq<LRUHandle>>, ghost done: seq<LRUHandle>)
      requires i < |buckets| && Placed(buckets) && Distinct(Flat(buckets)) && first == At(buckets[i], 0) &&
               count0 == |done0|
      requires Moving(newList, nh0, nb0, done0, i, 0)
      modifies newList, Nodes(buckets)`nextHash
      ensures Moving(newList, nh, nb, done, i + 1, 0) && count == |done|
    {
      count, nh, nb, done := count0, nh0, nb0, done0;
      var h := first;
      ghost var j := 0;
      hide Moving, Placed, Distinct, BucketOf, Flat, WithBucket;
      while h != null
        invariant j <= |buckets[i]| && h == At(buckets[i], j) && count == |done| && Moving(newList, nh, nb, done, i, j)
        decreases |buckets[i]| - j
      {
        NextOf(newList, nh, nb, done, i, j);
        var next := h.nextHash;
        var to := BucketOf(h.hash, newList.Length);
        MoveOne(newList, h, to, i, j, nh, nb, done);
        nh, nb, done := nh[to := h], WithBucket(nb, to, [h] + nb[to]), done + [h];
        j := j + 1;
        h := next;
        count := count + 1;
      }
      NextOf(newList, nh, nb, done, i, j);
    }

    /** The smallest power of two, but at least four, that is not below the number of handles. */
    method NewLength() returns (newLength: nat)
      ensures Power(newLength) && newLength >= elems && (newLength == 4 || newLength < 2 * elems)
    {
      newLength := 4;
      while newLength < elems
        invariant Power(newLength) && (newLength == 4 || newLength < 2 * elems)
        decreases elems - newLength
      {
        newLength := newLength * 2;
      }
    }

    /** Every handle goes over to the new buckets, none twice. */
    method MoveAll(newList: array<LRUHandle?>)
        returns (count: nat, ghost nh: seq<LRUHandle?>, ghost nb: seq<seq<LRUHandle>>)
      requires Growable() && newList != list && newList.Length > 0
      requires forall k :: 0 <= k < newList.Length ==> newList[k] == null
      modifies newList, Nodes(buckets)`nextHash
      ensures newList[..] == nh && |nb| == newList.Length && count == elems
      ensures Placed(nb) && Chained(nh, nb) && Maps(entries, nb)
    {
      hide Growable, Moving, Placed, Distinct, BucketOf, Flat, Maps, Chained, MapOf, HeadsMatch, Nodes;
      nb := seq(newList.Length, _ => []);
      nh := newList[..];
      ghost var done: seq<LRUHandle> := [];
      StartMoving(newList, nh, nb);
      AllMoved();
      count := 0;
      var i := 0;
      while i < length
        invariant i <= length && Moving(newList, nh, nb, done, i, 0) && count == |done|
      {
        HeadOf(i);
        count, nh, nb, done := MoveChain(newList, list[i], count, i, nh, nb, done);
        i := i + 1;
      }
      EndMoving(newList, nh, nb, done);
    }

    method Resize()
      requires Growable()
      modifies this, Nodes(buckets)`nextHash
      ensures Valid() && entries == old(entries) && fresh(list) && elems == old(elems) && length >= elems
      ensures length == 4 || length < 2 * elems
    {
      hide Placed, Maps, Chained, Power;
      var newLength := NewLength();
      var newList := new LRUHandle?[newLength](_ => null);
      ghost var nh, nb;
      var count;
      count, nh, nb := MoveAll(newList);
      assert elems == count;
      list := newList;
      length := newLength;
      heads := nh;
      buckets := nb;
    }

    lemma AllMoved()
      requires Growable()
      ensures Distinct(Flat(buckets)) && MapOf(Flat(buckets)) == entries && |Flat(buckets)| == |entries| && HeadsMatch()
      ensures (|buckets| > 0 ==> Placed(buckets)) && list.Length == length == |buckets| && list[..] == heads &&
              elems == |entries|
    {
      if |buckets| > 0 {
        FlatIsDistinct(buckets, |buckets|, 0);
        FlatIsMap(entries, buckets);
        InMapOf(Flat(buckets), ([], 0));
      }
    }
  }

  lemma NothingMoved(nh: seq<LRUHandle?>, nb: seq<seq<LRUHandle>>)
    requires |nh| == |nb| > 0 && forall k :: 0 <= k < |nb| ==> nh[k] == null && nb[k] == []
    ensures Placed(nb) && MapOf([]) == map[] && Maps(map[], nb) && Chained(nh, nb)
  {
  }

  lemma FlatFrom(buckets: seq<seq<LRUHandle>>)
    ensures Flat(buckets) == if |buckets| > 0 then buckets[0][0..] + Flat(buckets[1..]) else []
  {
    if |buckets| > 0 { assert buckets[0][0..] == buckets[0]; }
  }

  lemma {:induction false} FlatIn(buckets: seq<seq<LRUHandle>>, h: LRUHandle)
    ensures h in Flat(buckets) <==> exists p :: 0 <= p < |buckets| && h in buckets[p]
  {
    if buckets != [] {
      FlatIn(buckets[1..], h);
      if h in buckets[0] { assert h in Flat(buckets); }
      forall p | 0 < p < |buckets| && h in buckets[p] ensures h in Flat(buckets) {
        assert buckets[1..][p - 1] == buckets[p];
      }
      if p :| 0 <= p < |buckets[1..]| && h in buckets[1..][p] { assert h in buckets[p + 1]; }
    }
  }

  lemma {:induction false} FlatIsDistinct(buckets: seq<seq<LRUHandle>>, n: nat, off: nat)
    requires n > 0
    requires forall i, j :: 0 <= i < |buckets| && 0 <= j < |buckets[i]| ==> BucketOf(buckets[i][j].hash, n) == i + off
    requires forall i, j, k :: 0 <= i < |buckets| && 0 <= j < k < |buckets[i]| ==>
               buckets[i][j].Name() != buckets[i][k].Name()
    ensures Distinct(Flat(buckets))
  {
    if buckets != [] {
      var rest := buckets[1..];
      FlatIsDistinct(rest, n, off + 1);
      var first: seq<LRUHandle>, others: seq<LRUHandle> := buckets[0], Flat(rest);
      forall x: nat, y: nat | 0 <= x < y < |first + others|
        ensures (first + others)[x].Name() != (first + others)[y].Name()
      {
        if x < |first| <= y {
          FlatIn(rest, others[y - |first|]);
          var p :| 0 <= p < |rest| && others[y - |first|] in rest[p];
          var q :| 0 <= q < |rest[p]| && rest[p][q] == others[y - |first|];
          assert BucketOf(buckets[p + 1][q].hash, n) == p + 1 + off && BucketOf(first[x].hash, n) == off;
        } else if |first| <= x {
          assert (first + others)[x] == others[x - |first|] && (first + others)[y] == others[y - |first|];
        }
      }
    }
  }

  lemma FlatIsMap(entries: map<(Slice, U32), LRUHandle>, buckets: seq<seq<LRUHandle>>)
    requires Placed(buckets) && Maps(entries, buckets) && Distinct(Flat(buckets))
    ensures MapOf(Flat(buckets)) == entries
  {
    var all := Flat(buckets);
    forall n: (Slice, U32) ensures n in MapOf(all) <==> n in entries
      ensures n in entries ==> MapOf(all)[n] == entries[n]
    {
      InMapOf(all, n);
      if n in entries {
        FlatIn(buckets, entries[n]);
        var k :| 0 <= k < |all| && all[k] == entries[n];
      }
      if n in MapOf(all) {
        var h := MapOf(all)[n];
        FlatIn(buckets, h);
        var p :| 0 <= p < |buckets| && h in buckets[p];
        var q :| 0 <= q < |buckets[p]| && buckets[p][q] == h;
        assert buckets[p][q].Name() in entries;
      }
    }
  }

  /** A handle of a new name at the front of its bucket. */
  lemma PushKeeps(entries: map<(Slice, U32), LRUHandle>, buckets: seq<seq<LRUHandle>>, h: LRUHandle)
    requires Placed(buckets) && Maps(entries, buckets) && h.Name() !in entries
    ensures h !in Nodes(buckets)
    ensures var i := BucketOf(h.hash, |buckets|);
            Placed(WithBucket(buckets, i, [h] + buckets[i])) &&
                Maps(entries[h.Name() := h], WithBucket(buckets, i, [h] + buckets[i]))
  {
    var i := BucketOf(h.hash, |buckets|);
    var to: seq<seq<LRUHandle>> := WithBucket(buckets, i, [h] + buckets[i]);
    var entries' := entries[h.Name() := h];
    forall n | n in entries' ensures entries'[n].Name() == n && entries'[n] in to[BucketOf(n.1, |to|)] {
      if n != h.Name() && BucketOf(n.1, |to|) == i {
        assert entries[n] in buckets[i];
      }
    }
    forall p: nat, q: nat | 0 <= p < |to| && 0 <= q < |to[p]|
      ensures BucketOf(to[p][q].hash, |to|) == p && to[p][q].Name() in entries' && entries'[to[p][q].Name()] == to[p][q]
    {
      if p == i && q > 0 { assert to[p][q] == buckets[p][q - 1]; }
    }
  }
}
