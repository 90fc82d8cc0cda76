/**
 How a compaction keeps its outputs from overlapping too much of level+2: `Compaction::ShouldStopBefore` as a function
 of the keys asked about so far, and what cutting the outputs where it says promises.
 */
module Grandparents {
  import opened Basics
  import opened DbFormat
  import opened Versions
  import opened CompactionInputs

  /** The files of level+2 in the range of all inputs. */
  ghost predicate AreGrandparents(v: Version, level: nat, in0: seq<FileMetaData>, in1: seq<FileMetaData>,
                                  gs: seq<FileMetaData>)
    requires |v.files| == NUM_LEVELS
  {
    if level + 2 < NUM_LEVELS then exists lo, hi :: InRangeOf(v, level, in0, in1, lo, hi, gs) else gs == []
  }

  ghost predicate InRangeOf(v: Version, level: nat, in0: seq<FileMetaData>, in1: seq<FileMetaData>, lo: UserKey,
                            hi: UserKey, gs: seq<FileMetaData>)
    requires level + 2 < |v.files|
  {
    IsHull(in0 + in1, lo, hi) && gs == Select(v.files[level + 2], Some(lo), Some(hi))
  }

  method FindGrandparents(v: Version, level: nat, in0: seq<FileMetaData>, in1: seq<FileMetaData>)
      returns (gs: seq<FileMetaData>)
    requires v.Valid() && in0 != [] && AllValid(in0 + in1)
    ensures AreGrandparents(v, level, in0, in1, gs) && Apart(gs) && AllValid(gs)
  {
    gs := [];
    if level + 2 < NUM_LEVELS {
      var allStart, allLimit := GetRange(in0 + in1);
      ghost var lo, hi;
      gs, lo, hi := GetOverlappingInputs(level + 2, v.files[level + 2], Some(allStart.user), Some(allLimit.user));
      assert InRangeOf(v, level, in0, in1, allStart.user, allLimit.user, gs);
      SelectedApart(v.files[level + 2], lo, hi);
    }
  }

  lemma {:induction false} SelectedApart(fs: seq<FileMetaData>, lo: Option<UserKey>, hi: Option<UserKey>)
    requires Apart(fs)
    ensures Apart(Select(fs, lo, hi))
  {
    if fs != [] {
      var r := Select(fs[..|fs| - 1], lo, hi);
      SelectedApart(fs[..|fs| - 1], lo, hi);
      forall i | 0 <= i < |r| ensures Before(r[i].largest, fs[|fs| - 1].smallest) {
        assert r[i] in fs[..|fs| - 1];
      }
    }
  }

  // ---------------------------------------------------------------------------------------------------------------
  // Where to stop.

  /** How far the scan of the grandparents is, whether a key has been seen, and the bytes passed since the last stop. */
  datatype Overlap = Overlap(index: nat, seenKey: bool, bytes: nat)

  /** The first grandparent from `from` on that does not end before the key. */
  function Reached(gs: seq<FileMetaData>, from: nat, key: InternalKey): (n: nat)
    requires from <= |gs|
    ensures from <= n <= |gs|
    decreases |gs| - from
  {
    if from == |gs| || !Before(gs[from].largest, key) then from else Reached(gs, from + 1, key)
  }

  lemma ReachedFurther(gs: seq<FileMetaData>, n: nat, key: InternalKey)
    requires n <= |gs|
    ensures if n < |gs| && Before(gs[n].largest, key) then Reached(gs, n, key) == Reached(gs, n + 1, key)
            else Reached(gs, n, key) == n
  {
  }

  lemma {:induction false} ReachedIs(gs: seq<FileMetaData>, from: nat, key: InternalKey)
    requires from <= |gs|
    ensures var n := Reached(gs, from, key);
            (forall k :: from <= k < n ==> Before(gs[k].largest, key)) && (n < |gs| ==> !Before(gs[n].largest, key))
    decreases |gs| - from
  {
    if from < |gs| && Before(gs[from].largest, key) { ReachedIs(gs, from + 1, key); }
  }

  /** The state after the first `i` keys. */
  function Asked(gs: seq<FileMetaData>, limit: nat, input: seq<Entry>, i: nat): (o: Overlap)
    requires i <= |input|
    ensures o.index <= |gs| && (o.seenKey <==> i > 0)
    decreases i, 1
  {
    if i == 0 then Overlap(0, false, 0)
    else
      var bytes := Overlapped(gs, limit, input, i - 1);
      Overlap(Reached(gs, Asked(gs, limit, input, i - 1).index, input[i - 1].key), true,
              if bytes > limit then 0 else bytes)
  }

  /** What the output being built would overlap with key `i`. */
  function Overlapped(gs: seq<FileMetaData>, limit: nat, input: seq<Entry>, i: nat): nat
    requires i < |input|
    decreases i, 2
  {
    var o := Asked(gs, limit, input, i);
    o.bytes + if o.seenKey then BytesOf(gs, o.index, Reached(gs, o.index, input[i].key)) else 0
  }

  function BytesOf(gs: seq<FileMetaData>, from: nat, to: nat): nat
    requires from <= to <= |gs|
  {
    Bytes(gs[from..to])
  }

  lemma PassNone(gs: seq<FileMetaData>, from: nat)
    requires from <= |gs|
    ensures BytesOf(gs, from, from) == 0
  {
    assert gs[from..from] == [];
  }

  lemma PassOne(gs: seq<FileMetaData>, from: nat, to: nat)
    requires from <= to < |gs|
    ensures BytesOf(gs, from, to + 1) == BytesOf(gs, from, to) + gs[to].fileSize
  {
    assert gs[from..to + 1][..to - from] == gs[from..to];
  }

  lemma NextAsked(gs: seq<FileMetaData>, limit: nat, input: seq<Entry>, i: nat)
    requires i < |input|
    ensures Asked(gs, limit, input, i + 1) ==
            Overlap(Reached(gs, Asked(gs, limit, input, i).index, input[i].key), true,
                    if StopsAt(gs, limit, input, i) then 0 else Overlapped(gs, limit, input, i))
    ensures var o := Asked(gs, limit, input, i);
            Overlapped(gs, limit, input, i) ==
            o.bytes + if o.seenKey then BytesOf(gs, o.index, Reached(gs, o.index, input[i].key)) else 0
  {
  }

  predicate StopsAt(gs: seq<FileMetaData>, limit: nat, input: seq<Entry>, i: nat) {
    i < |input| && Overlapped(gs, limit, input, i) > limit
  }

  function Stops(gs: seq<FileMetaData>, limit: nat, input: seq<Entry>): nat -> bool {
    (i: nat) => StopsAt(gs, limit, input, i)
  }

  // ---------------------------------------------------------------------------------------------------------------
  // What that promises.

  lemma {:induction false} BytesSplit(fs: seq<FileMetaData>, n: nat)
    requires n <= |fs|
    ensures Bytes(fs) == Bytes(fs[..n]) + Bytes(fs[n..])
    decreases |fs|
  {
    if n == |fs| {
      assert fs[..n] == fs && fs[n..] == [];
    } else {
      var front := fs[..|fs| - 1];
      BytesSplit(front, n);
      assert front[..n] == fs[..n] && fs[n..][..|fs| - n - 1] == front[n..];
    }
  }

  lemma BytesBetween(fs: seq<FileMetaData>, a: nat, b: nat, c: nat)
    requires a <= b <= c <= |fs|
    ensures Bytes(fs[a..c]) == Bytes(fs[a..b]) + Bytes(fs[b..c])
  {
    BytesSplit(fs[a..c], b - a);
    assert fs[a..c][..b - a] == fs[a..b];
    assert fs[a..c][b - a..] == fs[b..c];
  }

  /** The scan has passed exactly the grandparents that end before the last key. */
  lemma {:induction false} ScanIs(gs: seq<FileMetaData>, limit: nat, input: seq<Entry>, i: nat, k: nat)
    requires Apart(gs) && AllValid(gs) && Sorted(input) && i < |input| && k < |gs|
    ensures k < Asked(gs, limit, input, i + 1).index <==> Before(gs[k].largest, input[i].key)
    decreases i
  {
    var from := Asked(gs, limit, input, i).index;
    var n := Reached(gs, from, input[i].key);
    ReachedIs(gs, from, input[i].key);
    if k < from && i > 0 { ScanIs(gs, limit, input, i - 1, k); }
    if n < k {
      assert gs[k] in gs;
      ValidFileOrdered(gs[k]);
      assert Before(gs[n].largest, gs[k].smallest);
    }
  }

  /** From key `a` up to key `b`, without a stop in between: all that the scan has passed is counted. */
  lemma {:induction false} AllCounted(gs: seq<FileMetaData>, limit: nat, input: seq<Entry>, a: nat, b: nat)
    requires a <= b < |input| && forall j :: a < j <= b ==> !StopsAt(gs, limit, input, j)
    ensures var from, to := Asked(gs, limit, input, a + 1).index, Asked(gs, limit, input, b + 1).index;
            from <= to <= |gs| && Bytes(gs[from..to]) <= Asked(gs, limit, input, b + 1).bytes
    decreases b
  {
    if a == b {
      var from := Asked(gs, limit, input, a + 1).index;
      assert gs[from..from] == [];
    } else {
      AllCounted(gs, limit, input, a, b - 1);
      assert !StopsAt(gs, limit, input, b);
      BytesBetween(gs, Asked(gs, limit, input, a + 1).index, Asked(gs, limit, input, b).index,
                   Asked(gs, limit, input, b + 1).index);
      hide Reached, Bytes;
    }
  }

  /** The grandparents that end within the range of the entries have `limit` bytes at most. */
  ghost predicate LittleOverlap(es: seq<Entry>, gs: seq<FileMetaData>, limit: nat) {
    forall lo, hi :: 0 <= lo <= hi <= |gs| && EndWithin(gs[lo..hi], es) ==> Bytes(gs[lo..hi]) <= limit
  }

  ghost predicate EndWithin(gs: seq<FileMetaData>, es: seq<Entry>) {
    es != [] && forall g :: g in gs ==> !Before(g.largest, es[0].key) && Before(g.largest, es[|es| - 1].key)
  }

  /** Entries between two keys of the input, without a stop in between, overlap little. */
  lemma WithoutStopLittle(gs: seq<FileMetaData>, limit: nat, input: seq<Entry>, a: nat, b: nat, es: seq<Entry>)
    requires Apart(gs) && AllValid(gs) && Sorted(input) && a <= b < |input|
    requires es != [] && es[0] == input[a] && es[|es| - 1] == input[b]
    requires forall j :: a < j <= b ==> !StopsAt(gs, limit, input, j)
    ensures LittleOverlap(es, gs, limit)
  {
    var from, to := Asked(gs, limit, input, a + 1).index, Asked(gs, limit, input, b + 1).index;
    AllCounted(gs, limit, input, a, b);
    assert a < b ==> Asked(gs, limit, input, b + 1).bytes <= limit by {
      if a < b { assert !StopsAt(gs, limit, input, b); }
    }
    hide Asked, Bytes;
    forall lo, hi | 0 <= lo <= hi <= |gs| && EndWithin(gs[lo..hi], es) ensures Bytes(gs[lo..hi]) <= limit {
      if lo < hi {
        PassedWithin(gs, limit, input, a, b, es, lo, hi);
        BytesBetween(gs, from, lo, to);
        BytesBetween(gs, lo, hi, to);
      } else {
        NoBytes(gs[lo..hi]);
      }
    }
  }

  lemma PassedWithin(gs: seq<FileMetaData>, limit: nat, input: seq<Entry>, a: nat, b: nat, es: seq<Entry>, lo: nat,
                     hi: nat)
    requires Apart(gs) && AllValid(gs) && Sorted(input) && a <= b < |input|
    requires es != [] && es[0] == input[a] && es[|es| - 1] == input[b]
    requires lo < hi <= |gs| && EndWithin(gs[lo..hi], es)
    ensures Asked(gs, limit, input, a + 1).index <= lo && hi <= Asked(gs, limit, input, b + 1).index && a < b
  {
    assert gs[lo..hi][0] == gs[lo] && gs[lo..hi][hi - lo - 1] == gs[hi - 1];
    assert gs[lo] in gs[lo..hi] && gs[hi - 1] in gs[lo..hi];
    ScanIs(gs, limit, input, a, lo);
    ScanIs(gs, limit, input, b, hi - 1);
    hide Asked, Apart, AllValid, Sorted;
  }

  lemma NoBytes(fs: seq<FileMetaData>)
    ensures fs == [] ==> Bytes(fs) == 0
  {
  }
}
