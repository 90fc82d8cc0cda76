/**
 `VersionSet::Builder`: a list of edits is applied to a base version at once, without building the versions between.
 */
module VersionBuilder {
  import opened DbFormat
  import opened Versions

  datatype LevelEdit = LevelEdit(deletedFiles: set<nat>, newFiles: seq<FileMetaData>)

  /** A version edit: for each level, the file numbers it deletes and the files it adds. */
  type VersionEdit = e: seq<LevelEdit> | |e| == NUM_LEVELS
    witness [LevelEdit({}, []), LevelEdit({}, []), LevelEdit({}, []), LevelEdit({}, []), LevelEdit({}, []),
             LevelEdit({}, []), LevelEdit({}, [])]

  /** `BySmallestKey`. */
  predicate BySmallestKey(a: FileMetaData, b: FileMetaData) {
    Before(a.smallest, b.smallest) || (Tie(a, b) && a.number < b.number)
  }

  predicate Tie(a: FileMetaData, b: FileMetaData) {
    a.smallest.user == b.smallest.user && Tag(a.smallest) == Tag(b.smallest)
  }

  ghost predicate InOrder(fs: seq<FileMetaData>) {
    forall i, j :: 0 <= i < j < |fs| ==> BySmallestKey(fs[i], fs[j])
  }

  ghost function FileSet(fs: seq<FileMetaData>): set<FileMetaData> {
    set f | f in fs
  }

  /** A sorted list is determined by the files in it. */
  lemma {:induction false} OrderDetermines(a: seq<FileMetaData>, b: seq<FileMetaData>)
    requires InOrder(a) && InOrder(b) && FileSet(a) == FileSet(b)
    ensures a == b
    decreases |a|
  {
    assert |a| > 0 ==> a[0] in FileSet(a);
    assert |b| > 0 ==> b[0] in FileSet(b);
    if a != [] {
      assert a[0] in FileSet(b);
      assert b[0] in FileSet(a);
      var j :| 0 <= j < |b| && b[j] == a[0];
      var i :| 0 <= i < |a| && a[i] == b[0];
      assert a[0] == b[0];
      forall f ensures f in FileSet(a[1..]) <==> f in FileSet(b[1..]) {
        assert f in FileSet(a) <==> f == a[0] || f in FileSet(a[1..]);
        assert f in FileSet(b) <==> f == b[0] || f in FileSet(b[1..]);
        assert forall k :: 0 <= k < |a| - 1 ==> a[1..][k] == a[k + 1] && BySmallestKey(a[0], a[1..][k]);
        assert forall k :: 0 <= k < |b| - 1 ==> b[1..][k] == b[k + 1] && BySmallestKey(b[0], b[1..][k]);
      }
      OrderDetermines(a[1..], b[1..]);
    }
  }

  // ---------------------------------------------------------------------------------------------------------------
  // The simple form: fold the edits over the file set, deletions before additions.

  ghost function ApplyOne(files: set<FileMetaData>, e: LevelEdit): set<FileMetaData> {
    (set f | f in files && f.number !in e.deletedFiles) + FileSet(e.newFiles)
  }

  ghost function Fold(base: set<FileMetaData>, edits: seq<VersionEdit>, level: nat): set<FileMetaData>
    requires level < NUM_LEVELS
  {
    if edits == [] then base
    else ApplyOne(Fold(base, edits[..|edits| - 1], level), edits[|edits| - 1][level])
  }

  /** The files the edits add to a level, in the order they are added. */
  function AllAdded(edits: seq<VersionEdit>, level: nat): seq<FileMetaData>
    requires level < NUM_LEVELS
  {
    if edits == [] then [] else AllAdded(edits[..|edits| - 1], level) + edits[|edits| - 1][level].newFiles
  }

  /** No file number is added twice to the level, nor added when the base already has it there. */
  ghost predicate FreshNumbers(base: seq<FileMetaData>, added: seq<FileMetaData>) {
    && (forall i, j :: 0 <= i < j < |added| ==> added[i].number != added[j].number)
    && (forall f, g :: f in base && g in added ==> f.number != g.number)
  }

  ghost predicate DistinctNumbers(fs: seq<FileMetaData>) {
    forall f, g :: f in fs && g in fs && f.number == g.number ==> f == g
  }

  class Builder {
    const base: Version
    var deleted: seq<set<nat>>
    var added: seq<seq<FileMetaData>>

    ghost predicate Valid()
      reads this
    {
      && |base.files| == NUM_LEVELS && |deleted| == NUM_LEVELS && |added| == NUM_LEVELS
      && forall l :: 0 <= l < NUM_LEVELS ==> InOrder(added[l])
    }

    /** The builder stands for `edits`: what it holds is what they add, and it hides what is gone at the end. */
    ghost predicate Holds(edits: seq<VersionEdit>)
      requires Valid()
      reads this
    {
      forall l :: 0 <= l < NUM_LEVELS ==> LevelHolds(base.files[l], deleted[l], added[l], edits, l)
    }

    constructor (base: Version)
      requires |base.files| == NUM_LEVELS
      ensures Valid() && this.base == base && Holds([])
      ensures fresh(this)
    {
      this.base := base;
      deleted := [{}, {}, {}, {}, {}, {}, {}];
      added := [[], [], [], [], [], [], []];
    }

    /** `Apply`: all of the edit's deletions are recorded, then its additions, each of which cancels a deletion. */
    method Apply(edit: VersionEdit, ghost edits: seq<VersionEdit>)
      requires Valid() && Holds(edits)
      modifies this
      ensures Valid() && Holds(edits + [edit])
    {
      for l := 0 to NUM_LEVELS
        invariant Valid()
        invariant forall m :: 0 <= m < NUM_LEVELS ==>
                    LevelHolds(base.files[m], deleted[m], added[m], if m < l then edits + [edit] else edits, m)
      {
        var deletedHere, addedHere := ApplyLevel(deleted[l], added[l], edit[l]);
        OneMoreEdit(base.files[l], edits, edit, l, deleted[l], added[l], deletedHere, addedHere);
        deleted := deleted[l := deletedHere];
        added := added[l := addedHere];
      }
    }

    /**
     `SaveTo`: each level merges its base list with the added list, in order, leaving out deleted numbers. If no number
     was added twice, the level's list is the sorted list of the folded file set.
     */
    method SaveTo(ghost edits: seq<VersionEdit>) returns (v: Version)
      requires Valid() && Holds(edits)
      requires forall l :: 0 <= l < NUM_LEVELS ==>
                 InOrder(base.files[l]) && DistinctNumbers(base.files[l]) &&
                     FreshNumbers(base.files[l], AllAdded(edits, l))
      ensures |v.files| == NUM_LEVELS
      ensures forall l :: 0 <= l < NUM_LEVELS ==>
                InOrder(v.files[l]) && FileSet(v.files[l]) == Fold(FileSet(base.files[l]), edits, l)
    {
      var files: seq<seq<FileMetaData>> := [];
      for l := 0 to NUM_LEVELS
        invariant |files| == l
        invariant forall m :: 0 <= m < l ==>
                    InOrder(files[m]) && FileSet(files[m]) == Fold(FileSet(base.files[m]), edits, m)
      {
        assert LevelHolds(base.files[l], deleted[l], added[l], edits, l);
        forall f, g | f in base.files[l] && g in added[l] ensures f.number != g.number {
          assert g in FileSet(added[l]);
        }
        var merged := MergeLevel(base.files[l], added[l], deleted[l]);
        files := files + [merged];
      }
      v := Version(files);
    }
  }

  ghost predicate LevelHolds(base: seq<FileMetaData>, deleted: set<nat>, added: seq<FileMetaData>,
                             edits: seq<VersionEdit>, l: nat)
    requires l < NUM_LEVELS
  {
    FreshNumbers(base, AllAdded(edits, l)) ==>
      && FileSet(added) == FileSet(AllAdded(edits, l))
      && Fold(FileSet(base), edits, l) == Kept(FileSet(base) + FileSet(added), deleted)
  }

  ghost function Kept(files: set<FileMetaData>, deleted: set<nat>): set<FileMetaData> {
    set f | f in files && f.number !in deleted
  }

  lemma FreshPrefix(base: seq<FileMetaData>, added: seq<FileMetaData>, more: seq<FileMetaData>)
    requires FreshNumbers(base, added + more)
    ensures FreshNumbers(base, added)
  {
    forall i, j | 0 <= i < j < |added| ensures added[i].number != added[j].number {
      assert (added + more)[i] == added[i] && (added + more)[j] == added[j];
    }
  }

  /** `std::set::insert`: in order, and ignored if an equivalent file is there. */
  method InsertFile(fs: seq<FileMetaData>, f: FileMetaData) returns (r: seq<FileMetaData>)
    requires InOrder(fs)
    ensures InOrder(r)
    ensures FileSet(r) == FileSet(fs) || FileSet(r) == FileSet(fs) + {f}
    ensures (forall g :: g in fs ==> g.number != f.number) ==> FileSet(r) == FileSet(fs) + {f}
  {
    var at := 0;
    while at < |fs| && BySmallestKey(fs[at], f)
      invariant 0 <= at <= |fs|
      invariant forall i :: 0 <= i < at ==> BySmallestKey(fs[i], f)
    {
      at := at + 1;
    }
    if at < |fs| && !BySmallestKey(f, fs[at]) {
      assert fs[at] in fs && fs[at].number == f.number;
      return fs;
    }
    r := fs[..at] + [f] + fs[at..];
    InsertedInOrder(fs, at, f);
    InsertedSet(fs, at, f);
  }

  lemma InsertedInOrder(fs: seq<FileMetaData>, at: nat, f: FileMetaData)
    requires InOrder(fs) && at <= |fs|
    requires forall i :: 0 <= i < at ==> BySmallestKey(fs[i], f)
    requires at < |fs| ==> BySmallestKey(f, fs[at])
    ensures InOrder(fs[..at] + [f] + fs[at..])
  {
    assert forall j :: at < j < |fs| ==> BySmallestKey(fs[at], fs[j]);
  }

  lemma InsertedSet(fs: seq<FileMetaData>, at: nat, f: FileMetaData)
    requires at <= |fs|
    ensures FileSet(fs[..at] + [f] + fs[at..]) == FileSet(fs) + {f}
  {
    assert fs == fs[..at] + fs[at..];
  }

  method ApplyLevel(deleted: set<nat>, added: seq<FileMetaData>, edit: LevelEdit)
      returns (deleted': set<nat>, added': seq<FileMetaData>)
    requires InOrder(added)
    ensures InOrder(added')
    ensures deleted' == deleted + edit.deletedFiles - Numbers(edit.newFiles)
    ensures FreshNumbers(added, edit.newFiles) ==> FileSet(added') == FileSet(added) + FileSet(edit.newFiles)
  {
    deleted', added' := deleted + edit.deletedFiles, added;
    for i := 0 to |edit.newFiles|
      invariant InOrder(added')
      invariant deleted' == deleted + edit.deletedFiles - Numbers(edit.newFiles[..i])
      invariant FreshNumbers(added, edit.newFiles) ==> FileSet(added') == FileSet(added) + FileSet(edit.newFiles[..i])
    {
      var f := edit.newFiles[i];
      assert edit.newFiles[..i + 1] == edit.newFiles[..i] + [f];
      if FreshNumbers(added, edit.newFiles) {
        forall g | g in added' ensures g.number != f.number {
          assert g in FileSet(added) + FileSet(edit.newFiles[..i]);
        }
      }
      deleted' := deleted' - {f.number};
      added' := InsertFile(added', f);
    }
    assert edit.newFiles[..|edit.newFiles|] == edit.newFiles;
  }

  lemma FreshMore(base: seq<FileMetaData>, soFar: seq<FileMetaData>, added: seq<FileMetaData>, more: seq<FileMetaData>)
    requires FreshNumbers(base, soFar + more) && FileSet(added) == FileSet(soFar)
    ensures FreshNumbers(added, more)
    ensures forall f, g :: f in base && g in more ==> f.number != g.number
  {
    var both := soFar + more;
    forall i, j | 0 <= i < j < |more| ensures more[i].number != more[j].number {
      assert both[|soFar| + i] == more[i] && both[|soFar| + j] == more[j];
    }
    forall f, g | f in added && g in more ensures f.number != g.number {
      assert f in FileSet(added);
      var i :| 0 <= i < |soFar| && soFar[i] == f;
      var j :| 0 <= j < |more| && more[j] == g;
      assert both[i] == f && both[|soFar| + j] == g;
    }
    forall f, g | f in base && g in more ensures f.number != g.number {
      assert g in both;
    }
  }

  lemma OneMoreEdit(base: seq<FileMetaData>, edits: seq<VersionEdit>, edit: VersionEdit, l: nat, deleted: set<nat>,
                    added: seq<FileMetaData>, deleted': set<nat>, added': seq<FileMetaData>)
    requires l < NUM_LEVELS && LevelHolds(base, deleted, added, edits, l)
    requires deleted' == deleted + edit[l].deletedFiles - Numbers(edit[l].newFiles)
    requires FreshNumbers(added, edit[l].newFiles) ==> FileSet(added') == FileSet(added) + FileSet(edit[l].newFiles)
    ensures LevelHolds(base, deleted', added', edits + [edit], l)
  {
    var edits' := edits + [edit];
    assert edits'[..|edits|] == edits;
    var soFar, more := AllAdded(edits, l), edit[l].newFiles;
    if FreshNumbers(base, soFar + more) {
      FreshPrefix(base, soFar, more);
      FreshMore(base, soFar, added, more);
      assert FileSet(soFar + more) == FileSet(soFar) + FileSet(more);
      forall f ensures f in ApplyOne(Kept(FileSet(base) + FileSet(added), deleted), edit[l])
                  <==> f in Kept(FileSet(base) + FileSet(added'), deleted')
      {
        assert f in FileSet(more) ==> f.number in Numbers(more);
        assert f in FileSet(base) + FileSet(added) ==> f.number !in Numbers(more);
      }
    }
  }

  function Numbers(fs: seq<FileMetaData>): set<nat> {
    set f | f in fs :: f.number
  }

  /** One level of `SaveTo`: before each added file come the base files up to `std::upper_bound`. */
  method MergeLevel(base: seq<FileMetaData>, added: seq<FileMetaData>, deleted: set<nat>)
      returns (out: seq<FileMetaData>)
    requires InOrder(base) && InOrder(added)
    requires forall f, g :: f in base && g in added ==> f.number != g.number
    ensures InOrder(out)
    ensures FileSet(out) == Kept(FileSet(base) + FileSet(added), deleted)
  {
    out := [];
    var b := 0;
    for a := 0 to |added|
      invariant 0 <= b <= |base|
      invariant InOrder(out) && Precedes(out, base, b) && Precedes(out, added, a)
      invariant FileSet(out) == Taken(base, b, added, a, deleted)
    {
      while b < |base| && !BySmallestKey(added[a], base[b])
        invariant 0 <= b <= |base|
        invariant InOrder(out) && Precedes(out, base, b) && Precedes(out, added, a)
        invariant FileSet(out) == Taken(base, b, added, a, deleted)
      {
        assert base[b] in base && added[a] in added;
        TakenStep(base, b, added, a, deleted);
        out := Take(out, base, b, added, a, deleted);
        b := b + 1;
      }
      TakenStep(base, b, added, a, deleted);
      out := Take(out, added, a, base, b, deleted);
    }
    while b < |base|
      invariant 0 <= b <= |base|
      invariant InOrder(out) && Precedes(out, base, b) && Precedes(out, added, |added|)
      invariant FileSet(out) == Taken(base, b, added, |added|, deleted)
    {
      TakenStep(base, b, added, |added|, deleted);
      out := Take(out, base, b, added, |added|, deleted);
      b := b + 1;
    }
    assert base[..|base|] == base && added[..|added|] == added;
  }

  /** What is left of the first `b` base files and the first `a` added files. */
  ghost function Taken(base: seq<FileMetaData>, b: nat, added: seq<FileMetaData>, a: nat,
                       deleted: set<nat>): set<FileMetaData>
    requires b <= |base| && a <= |added|
  {
    Kept(FileSet(base[..b]) + FileSet(added[..a]), deleted)
  }

  lemma TakenStep(base: seq<FileMetaData>, b: nat, added: seq<FileMetaData>, a: nat, deleted: set<nat>)
    requires b <= |base| && a <= |added|
    ensures b < |base| ==>
              Taken(base, b + 1, added, a, deleted) == Taken(base, b, added, a, deleted) + Kept({base[b]}, deleted)
    ensures a < |added| ==>
              Taken(base, b, added, a + 1, deleted) == Taken(base, b, added, a, deleted) + Kept({added[a]}, deleted)
  {
    assert b < |base| ==> base[..b + 1] == base[..b] + [base[b]];
    assert a < |added| ==> added[..a + 1] == added[..a] + [added[a]];
  }

  ghost predicate Precedes(out: seq<FileMetaData>, fs: seq<FileMetaData>, from: nat) {
    forall f, j :: f in out && from <= j < |fs| ==> BySmallestKey(f, fs[j])
  }

  /** Appends the next file of one list, which comes before what is left of both. */
  method Take(out: seq<FileMetaData>, fs: seq<FileMetaData>, at: nat, other: seq<FileMetaData>, otherAt: nat,
              deleted: set<nat>)
      returns (r: seq<FileMetaData>)
    requires InOrder(out) && InOrder(fs) && InOrder(other) && at < |fs| && otherAt <= |other|
    requires Precedes(out, fs, at) && Precedes(out, other, otherAt)
    requires otherAt < |other| ==> BySmallestKey(fs[at], other[otherAt])
    ensures InOrder(r) && Precedes(r, fs, at + 1) && Precedes(r, other, otherAt)
    ensures FileSet(r) == FileSet(out) + Kept({fs[at]}, deleted)
  {
    r := MaybeAddFile(out, fs[at], deleted);
    forall f, j | f in r && otherAt <= j < |other| ensures BySmallestKey(f, other[j]) {
      if f == fs[at] && j > otherAt {
        assert BySmallestKey(other[otherAt], other[j]);
      }
    }
  }

  method MaybeAddFile(out: seq<FileMetaData>, f: FileMetaData, deleted: set<nat>) returns (r: seq<FileMetaData>)
    requires InOrder(out) && forall g :: g in out ==> BySmallestKey(g, f)
    ensures InOrder(r)
    ensures FileSet(r) == FileSet(out) + Kept({f}, deleted)
    ensures forall g :: g in r ==> g in out || g == f
  {
    if f.number in deleted {
      r := out;
    } else {
      forall i | 0 <= i < |out| ensures BySmallestKey(out[i], f) { assert out[i] in out; }
      r := out + [f];
    }
  }
}
