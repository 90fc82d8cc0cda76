/**
 Versions: table files in levels, and the point lookup over them (`Version::Get`).
 */
module Versions {
  import opened Basics
  import opened DbFormat

  const NUM_LEVELS := 7

  /** A table file's metadata, together with the entries the table holds. */
  datatype FileMetaData = FileMetaData(
    number: nat, fileSize: nat, smallest: InternalKey, largest: InternalKey, entries: seq<Entry>)

  ghost predicate ValidFile(f: FileMetaData) {
    && |f.entries| > 0
    && Sorted(f.entries)
    && f.smallest == f.entries[0].key
    && f.largest == f.entries[|f.entries| - 1].key
  }

  ghost predicate AllValid(fs: seq<FileMetaData>) {
    forall f :: f in fs ==> ValidFile(f)
  }

  /** Sorted by key with no two ranges touching, as internal keys. Two neighbours may share a user key. */
  ghost predicate Apart(fs: seq<FileMetaData>) {
    forall i, j :: 0 <= i < j < |fs| ==> Before(fs[i].largest, fs[j].smallest)
  }

  /** Every entry of `a` supersedes every entry of `b` for the same user key. */
  ghost predicate Newer(a: seq<Entry>, b: seq<Entry>) {
    forall x, y :: x in a && y in b && x.key.user == y.key.user ==> Tag(x.key) > Tag(y.key)
  }

  /** Two files with different numbers, of which the one with the larger number is the newer. */
  ghost predicate NumberedApart(f: FileMetaData, g: FileMetaData) {
    (f.number > g.number && Newer(f.entries, g.entries)) || (g.number > f.number && Newer(g.entries, f.entries))
  }

  ghost predicate NumberedNewestFirst(fs: seq<FileMetaData>) {
    forall i, j :: 0 <= i < j < |fs| ==> NumberedApart(fs[i], fs[j])
  }

  ghost predicate LevelNewer(upper: seq<FileMetaData>, lower: seq<FileMetaData>) {
    forall f, g :: f in upper && g in lower ==> Newer(f.entries, g.entries)
  }

  /** The files of a level that the lookup key may be in: `user` lies in the file's user-key range. */
  predicate Covers(f: FileMetaData, user: UserKey) {
    f.smallest.user <= user <= f.largest.user
  }

  /** No entry of `f` is visible for `user` at `snapshot`. */
  ghost predicate Silent(f: FileMetaData, user: UserKey, snapshot: SequenceNumber) {
    forall e :: e in f.entries ==> !(e.key.user == user && e.key.seqno <= snapshot)
  }

  datatype SaverState = NotFound | Found(value: Slice) | Deleted

  /** Index of the first entry at or after `k`, as a seek into the table finds it. */
  function SeekIndex(es: seq<Entry>, k: InternalKey): (i: nat)
    requires Sorted(es)
    ensures i <= |es|
    ensures forall j :: 0 <= j < i ==> Before(es[j].key, k)
    ensures forall j :: i <= j < |es| ==> !Before(es[j].key, k)
  {
    if es == [] || !Before(es[0].key, k) then 0 else
      var rest := es[1..];
      assert forall j :: 0 <= j < |rest| ==> rest[j] == es[j + 1];
      1 + SeekIndex(rest, k)
  }

  /** `TableCache::Get` followed by `SaveValue` on the entry it hands back, if any. */
  method Match(f: FileMetaData, user: UserKey, snapshot: SequenceNumber)
      returns (state: SaverState, ghost hit: Option<Entry>)
    requires ValidFile(f)
    ensures state.NotFound? <==> Silent(f, user, snapshot)
    ensures state.NotFound? <==> hit.None?
    ensures hit.Some? ==> hit.value in f.entries && hit.value.key.user == user && hit.value.key.seqno <= snapshot
    ensures hit.Some? ==> state == (if hit.value.key.kind.TypeValue? then Found(hit.value.value) else Deleted)
    ensures hit.Some? ==> forall e :: e in f.entries && e.key.user == user && e.key.seqno <= snapshot ==>
                                        Tag(e.key) <= Tag(hit.value.key)
  {
    var i := SeekIndex(f.entries, SeekKey(user, snapshot));
    if i < |f.entries| && f.entries[i].key.user == user {
      var e := f.entries[i];
      hit := Some(e);
      state := if e.key.kind.TypeValue? then Found(e.value) else Deleted;
    } else {
      hit := None;
      state := NotFound;
    }
  }

  /** First index whose file ends at or after `key`; the binary search needs the list sorted. */
  method FindFile(files: seq<FileMetaData>, key: InternalKey) returns (right: nat)
    requires forall i, j :: 0 <= i < j < |files| ==> Before(files[i].largest, files[j].largest)
    ensures right <= |files|
    ensures forall i :: 0 <= i < right ==> Before(files[i].largest, key)
    ensures forall i :: right <= i < |files| ==> !Before(files[i].largest, key)
  {
    var left := 0;
    right := |files|;
    while left < right
      invariant 0 <= left <= right <= |files|
      invariant forall i :: 0 <= i < left ==> Before(files[i].largest, key)
      invariant forall i :: right <= i < |files| ==> !Before(files[i].largest, key)
    {
      var mid := (left + right) / 2;
      if Before(files[mid].largest, key) {
        left := mid + 1;
      } else {
        right := mid;
      }
    }
  }

  ghost predicate NewestNumberFirst(fs: seq<FileMetaData>) {
    forall i, j :: 0 <= i < j < |fs| ==> fs[i].number >= fs[j].number
  }

  method InsertByNumber(fs: seq<FileMetaData>, f: FileMetaData) returns (r: seq<FileMetaData>)
    requires NewestNumberFirst(fs)
    ensures NewestNumberFirst(r)
    ensures multiset(r) == multiset(fs) + multiset{f}
  {
    var at := 0;
    while at < |fs| && fs[at].number >= f.number
      invariant 0 <= at <= |fs|
      invariant forall i :: 0 <= i < at ==> fs[i].number >= f.number
    {
      at := at + 1;
    }
    Inserted(fs, f, at);
    hide NewestNumberFirst;
    assert fs == fs[..at] + fs[at..];
    r := fs[..at] + [f] + fs[at..];
  }

  lemma Inserted(fs: seq<FileMetaData>, f: FileMetaData, at: nat)
    requires NewestNumberFirst(fs) && at <= |fs| && (forall i :: 0 <= i < at ==> fs[i].number >= f.number)
    requires at < |fs| ==> fs[at].number <= f.number
    ensures NewestNumberFirst(fs[..at] + [f] + fs[at..])
  {
  }

  /** `std::sort` with `NewestFirst`. */
  method SortNewestFirst(fs: seq<FileMetaData>) returns (sorted: seq<FileMetaData>)
    ensures multiset(sorted) == multiset(fs)
    ensures NewestNumberFirst(sorted)
  {
    sorted := [];
    for n := 0 to |fs|
      invariant multiset(sorted) == multiset(fs[..n])
      invariant NewestNumberFirst(sorted)
    {
      sorted := InsertByNumber(sorted, fs[n]);
      assert fs[..n + 1] == fs[..n] + [fs[n]];
    }
    assert fs[..|fs|] == fs;
  }

  lemma ValidFileBounds(f: FileMetaData, e: Entry)
    requires ValidFile(f) && e in f.entries
    ensures AtOrBefore(f.smallest, e.key) && AtOrBefore(e.key, f.largest)
    ensures Covers(f, e.key.user)
  {
  }

  lemma ApartLargestSorted(fs: seq<FileMetaData>)
    requires Apart(fs) && AllValid(fs)
    ensures forall i, j :: 0 <= i < j < |fs| ==> Before(fs[i].largest, fs[j].largest)
  {
    forall i, j | 0 <= i < j < |fs| ensures Before(fs[i].largest, fs[j].largest) {
      assert fs[j] in fs;
      ValidFileBounds(fs[j], fs[j].entries[0]);
    }
  }

  lemma UniqueInLevel0(fs: seq<FileMetaData>, f: FileMetaData, g: FileMetaData, a: Entry, b: Entry)
    requires AllValid(fs) && NumberedNewestFirst(fs) && f in fs && g in fs
    requires a in f.entries && b in g.entries && a.key == b.key
    ensures a == b
  {
    var i :| 0 <= i < |fs| && fs[i] == f;
    var j :| 0 <= j < |fs| && fs[j] == g;
  }

  lemma UniqueInSortedLevel(fs: seq<FileMetaData>, f: FileMetaData, g: FileMetaData, a: Entry, b: Entry)
    requires AllValid(fs) && Apart(fs) && f in fs && g in fs
    requires a in f.entries && b in g.entries && a.key == b.key
    ensures a == b
  {
    var i :| 0 <= i < |fs| && fs[i] == f;
    var j :| 0 <= j < |fs| && fs[j] == g;
    ValidFileBounds(f, a);
    ValidFileBounds(g, b);
  }

  lemma NewerIfApart(f: FileMetaData, g: FileMetaData)
    requires ValidFile(f) && ValidFile(g) && Before(f.largest, g.smallest)
    ensures Newer(f.entries, g.entries)
  {
    forall x, y | x in f.entries && y in g.entries && x.key.user == y.key.user ensures Tag(x.key) > Tag(y.key) {
      ValidFileBounds(f, x);
      ValidFileBounds(g, y);
    }
  }

  lemma SilentOutside(f: FileMetaData, user: UserKey, snapshot: SequenceNumber)
    requires ValidFile(f)
    requires Before(f.largest, SeekKey(user, snapshot)) || user < f.smallest.user
    ensures Silent(f, user, snapshot)
  {
    forall e | e in f.entries ensures !(e.key.user == user && e.key.seqno <= snapshot) {
      ValidFileBounds(f, e);
    }
  }

  /** A file that ends at or after the lookup key and shows nothing for it ends past the user key. */
  lemma SilentEndsPast(f: FileMetaData, user: UserKey, snapshot: SequenceNumber)
    requires ValidFile(f) && !Before(f.largest, SeekKey(user, snapshot)) && Silent(f, user, snapshot)
    ensures f.largest.user > user
  {
    assert f.entries[|f.entries| - 1] in f.entries;
  }

  /** In a sorted level only the file the binary search names can be visible to the lookup. */
  lemma OneFilePerLevel(fs: seq<FileMetaData>, index: nat, user: UserKey, snapshot: SequenceNumber)
    requires AllValid(fs) && Apart(fs) && index <= |fs|
    requires forall i :: 0 <= i < index ==> Before(fs[i].largest, SeekKey(user, snapshot))
    requires index < |fs| ==> !Before(fs[index].largest, SeekKey(user, snapshot))
    ensures forall i :: 0 <= i < index ==> Silent(fs[i], user, snapshot)
    ensures index < |fs| && user < fs[index].smallest.user ==> Silent(fs[index], user, snapshot)
    ensures index < |fs| ==> forall i :: index < i < |fs| ==> Newer(fs[index].entries, fs[i].entries)
    ensures index < |fs| && Silent(fs[index], user, snapshot) ==> forall i :: index < i < |fs| ==>
              Silent(fs[i], user, snapshot)
  {
    forall i | 0 <= i < index ensures Silent(fs[i], user, snapshot) {
      assert fs[i] in fs;
      SilentOutside(fs[i], user, snapshot);
    }
    if index < |fs| {
      assert fs[index] in fs;
      if user < fs[index].smallest.user { SilentOutside(fs[index], user, snapshot); }
      forall i | index < i < |fs|
        ensures Newer(fs[index].entries, fs[i].entries)
        ensures Silent(fs[index], user, snapshot) ==> Silent(fs[i], user, snapshot)
      {
        assert fs[i] in fs;
        NewerIfApart(fs[index], fs[i]);
        if Silent(fs[index], user, snapshot) {
          SilentEndsPast(fs[index], user, snapshot);
          SilentOutside(fs[i], user, snapshot);
        }
      }
    }
  }

  /** The level-0 files whose range covers the key, newest first. */
  method Level0Candidates(fs: seq<FileMetaData>, user: UserKey) returns (sorted: seq<FileMetaData>)
    ensures forall f :: f in sorted <==> f in fs && Covers(f, user)
    ensures NewestNumberFirst(sorted)
  {
    var tmp: seq<FileMetaData> := [];
    for i := 0 to |fs|
      invariant forall f :: f in tmp ==> f in fs && Covers(f, user)
      invariant forall j :: 0 <= j < i && Covers(fs[j], user) ==> fs[j] in tmp
    {
      var f := fs[i];
      if user >= f.smallest.user && user <= f.largest.user {
        tmp := tmp + [f];
      }
    }
    sorted := SortNewestFirst(tmp);
    assert forall f :: f in sorted <==> f in multiset(sorted);
    assert forall f :: f in tmp <==> f in multiset(tmp);
  }

  datatype Version = Version(files: seq<seq<FileMetaData>>) {

    ghost predicate Valid() {
      && |files| == NUM_LEVELS
      && (forall l :: 0 <= l < NUM_LEVELS ==> AllValid(files[l]))
      && (forall l :: 1 <= l < NUM_LEVELS ==> Apart(files[l]))
      && NumberedNewestFirst(files[0])
      && (forall l, m :: 0 <= l < m < NUM_LEVELS ==> LevelNewer(files[l], files[m]))
    }

    ghost function Entries(): set<Entry> {
      set l, f, e | 0 <= l < |files| && f in files[l] && e in f.entries :: e
    }

    lemma AcrossLevels(l: nat, f: FileMetaData, m: nat, g: FileMetaData)
      requires Valid() && l < NUM_LEVELS && m < NUM_LEVELS && l != m && f in files[l] && g in files[m]
      ensures forall a, b :: a in f.entries && b in g.entries ==> a.key != b.key
    {
      assert LevelNewer(files[l], files[m]) || LevelNewer(files[m], files[l]);
      assert Newer(f.entries, g.entries) || Newer(g.entries, f.entries);
    }

    /** Two entries of a valid version with the same internal key are the same entry. */
    lemma EntriesUnique()
      requires Valid()
      ensures UniqueKeys(Entries())
    {
      forall a, b | a in Entries() && b in Entries() && a.key == b.key ensures a == b {
        var l, f :| 0 <= l < |files| && f in files[l] && a in f.entries;
        var m, g :| 0 <= m < |files| && g in files[m] && b in g.entries;
        if l != m {
          AcrossLevels(l, f, m, g);
        } else {
          if l == 0 { UniqueInLevel0(files[0], f, g, a, b); } else { UniqueInSortedLevel(files[l], f, g, a, b); }
        }
      }
    }

    /** A hit decides the read when every file not yet asked has nothing newer. */
    lemma ReadFrom(user: UserKey, snapshot: SequenceNumber, e: Entry)
      requires Valid() && Sees(Entries(), user, snapshot, e)
      requires forall l, f :: 0 <= l < NUM_LEVELS && f in files[l] ==>
                 forall o :: o in f.entries && o.key.user == user && o.key.seqno <= snapshot ==>
                     Tag(o.key) <= Tag(e.key)
      ensures Read(Entries(), user, snapshot) == Shown(e)
    {
      EntriesUnique();
      assert Newest(Entries(), user, snapshot, e);
      ReadIs(Entries(), user, snapshot, e);
    }

    /**
     `Version::Get` over `ForEachOverlapping`: level-0 files that cover the key newest first, then at most one binary-
     searched file per level, stopping at the first file that knows the key. It answers exactly what the whole set of
     entries says.
     */
    method Get(user: UserKey, snapshot: SequenceNumber) returns (value: Option<Slice>)
      requires Valid()
      ensures value == Read(Entries(), user, snapshot)
    {
      var state := SearchLevel0(user, snapshot);
      if !state.NotFound? {
        return if state.Found? then Some(state.value) else None;
      }
      for level := 1 to NUM_LEVELS
        invariant forall l, f :: 0 <= l < level && f in files[l] ==> Silent(f, user, snapshot)
      {
        state := SearchLevel(level, user, snapshot);
        if !state.NotFound? {
          return if state.Found? then Some(state.value) else None;
        }
      }
      forall e ensures !Sees(Entries(), user, snapshot, e) {
        if e in Entries() {
          var l, f :| 0 <= l < |files| && f in files[l] && e in f.entries;
          assert Silent(f, user, snapshot);
        }
      }
      ReadNothing(Entries(), user, snapshot);
      return None;
    }

    method SearchLevel0(user: UserKey, snapshot: SequenceNumber) returns (state: SaverState)
      requires Valid()
      ensures state.NotFound? ==> forall f :: f in files[0] ==> Silent(f, user, snapshot)
      ensures !state.NotFound? ==>
                Read(Entries(), user, snapshot) == if state.Found? then Some(state.value) else None
    {
      var sorted := Level0Candidates(files[0], user);
      for i := 0 to |sorted|
        invariant forall j :: 0 <= j < i ==> Silent(sorted[j], user, snapshot)
      {
        assert sorted[i] in sorted;
        ghost var hit;
        state, hit := Match(sorted[i], user, snapshot);
        if !state.NotFound? {
          HitInLevel0(sorted, i, user, snapshot, hit.value);
          return;
        }
      }
      forall f | f in files[0] ensures Silent(f, user, snapshot) {
        if !Covers(f, user) {
          forall e | e in f.entries ensures e.key.user != user { ValidFileBounds(f, e); }
        }
      }
      state := NotFound;
    }

    method SearchLevel(level: nat, user: UserKey, snapshot: SequenceNumber) returns (state: SaverState)
      requires Valid() && 1 <= level < NUM_LEVELS
      requires forall l, f :: 0 <= l < level && f in files[l] ==> Silent(f, user, snapshot)
      ensures state.NotFound? ==> forall f :: f in files[level] ==> Silent(f, user, snapshot)
      ensures !state.NotFound? ==>
                Read(Entries(), user, snapshot) == if state.Found? then Some(state.value) else None
    {
      var fs := files[level];
      if |fs| == 0 {
        return NotFound;
      }
      assert Apart(fs) && AllValid(fs);
      ApartLargestSorted(fs);
      var index := FindFile(fs, SeekKey(user, snapshot));
      OneFilePerLevel(fs, index, user, snapshot);
      if index < |fs| && user >= fs[index].smallest.user {
        assert fs[index] in fs;
        ghost var hit;
        state, hit := Match(fs[index], user, snapshot);
        if !state.NotFound? {
          HitInLevel(level, index, user, snapshot, hit.value);
        }
        return;
      }
      return NotFound;
    }

    lemma HitInLevel0(sorted: seq<FileMetaData>, i: nat, user: UserKey, snapshot: SequenceNumber, e: Entry)
      requires Valid() && i < |sorted|
      requires forall f :: f in sorted ==> f in files[0]
      requires forall f :: f in files[0] && Covers(f, user) ==> f in sorted
      requires NewestNumberFirst(sorted)
      requires forall j :: 0 <= j < i ==> Silent(sorted[j], user, snapshot)
      requires e in sorted[i].entries && e.key.user == user && e.key.seqno <= snapshot
      requires forall o :: o in sorted[i].entries && o.key.user == user && o.key.seqno <= snapshot ==>
                 Tag(o.key) <= Tag(e.key)
      ensures Read(Entries(), user, snapshot) == Shown(e)
    {
      var f := sorted[i];
      assert f in sorted && f in files[0];
      forall l, g, o | 0 <= l < NUM_LEVELS && g in files[l] && o in g.entries && o.key.user == user &&
          o.key.seqno <= snapshot
        ensures Tag(o.key) <= Tag(e.key)
      {
        if l > 0 {
          assert LevelNewer(files[0], files[l]);
          assert Newer(f.entries, g.entries);
        } else if g != f {
          ValidFileBounds(g, o);
          var j :| 0 <= j < |sorted| && sorted[j] == g;
          var a :| 0 <= a < |files[0]| && files[0][a] == f;
          var b :| 0 <= b < |files[0]| && files[0][b] == g;
          assert NumberedApart(files[0][a], files[0][b]) || NumberedApart(files[0][b], files[0][a]);
        }
      }
      ReadFrom(user, snapshot, e);
    }

    lemma HitInLevel(level: nat, index: nat, user: UserKey, snapshot: SequenceNumber, e: Entry)
      requires Valid() && 1 <= level < NUM_LEVELS && index < |files[level]|
      requires forall l, f :: 0 <= l < level && f in files[l] ==> Silent(f, user, snapshot)
      requires forall i :: 0 <= i < index ==> Silent(files[level][i], user, snapshot)
      requires forall i :: index < i < |files[level]| ==> Newer(files[level][index].entries, files[level][i].entries)
      requires e in files[level][index].entries && e.key.user == user && e.key.seqno <= snapshot
      requires forall o :: o in files[level][index].entries && o.key.user == user && o.key.seqno <= snapshot ==>
                 Tag(o.key) <= Tag(e.key)
      ensures Read(Entries(), user, snapshot) == Shown(e)
    {
      var f := files[level][index];
      assert f in files[level];
      forall l, g | 0 <= l < NUM_LEVELS && g in files[l]
        ensures forall o :: o in g.entries && o.key.user == user && o.key.seqno <= snapshot ==> Tag(o.key) <= Tag(e.key)
      {
        if l < level {
          assert Silent(g, user, snapshot);
        } else if l > level {
          assert LevelNewer(files[level], files[l]);
          assert Newer(f.entries, g.entries);
        } else {
          var j :| 0 <= j < |files[level]| && files[level][j] == g;
          if j < index {
            assert Silent(g, user, snapshot);
          } else if j > index {
            assert Newer(f.entries, g.entries);
          }
        }
      }
      ReadFrom(user, snapshot, e);
    }
  }
}
