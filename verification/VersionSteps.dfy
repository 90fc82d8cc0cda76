/**
 Steps from one version to the next (`LogAndApply` of a compaction, a file move or a memtable flush), and what each of
 them keeps: the order of the levels and the answer of every read.
 */
module VersionSteps {
  import opened Basics
  import opened DbFormat
  import opened Versions
  import opened CompactionInputs
  import opened Compactions
  import opened Grandparents
  import opened VersionBuilder

  /** A version as `Builder` leaves it: valid, every level listed in key order, and each file number in one place. */
  ghost predicate Canonical(v: Version, nextFileNumber: nat) {
    && v.Valid()
    && (forall l :: 0 <= l < NUM_LEVELS ==> InOrder(v.files[l]))
    && exists place :: Placed(v, place, nextFileNumber)
  }

  /** Each file number is below the next one and names one file in one level. */
  ghost predicate Placed(v: Version, place: map<nat, (nat, FileMetaData)>, nextFileNumber: nat) {
    forall l, f :: 0 <= l < |v.files| && f in v.files[l] ==> PlacedAt(place, nextFileNumber, l, f)
  }

  ghost predicate PlacedAt(place: map<nat, (nat, FileMetaData)>, nextFileNumber: nat, l: nat, f: FileMetaData) {
    f.number < nextFileNumber && f.number in place && place[f.number] == (l, f)
  }

  ghost function FileEntries(fs: seq<FileMetaData>): set<Entry> {
    set f, e | f in fs && e in f.entries :: e
  }

  /** The entries of all files that are not inputs. */
  ghost function RestEntries(v: Version, level: nat, in0: seq<FileMetaData>, in1: seq<FileMetaData>): set<Entry> {
    set l, f, e | 0 <= l < |v.files| && f in v.files[l] && !(l == level && f in in0) && !(l == level + 1 && f in in1) &&
                  e in f.entries :: e
  }

  /** What the merging iterator over the inputs yields from first to last. */
  ghost predicate IsMerge(input: seq<Entry>, in0: seq<FileMetaData>, in1: seq<FileMetaData>) {
    Sorted(input) && EntrySet(input) == FileEntries(in0 + in1)
  }

  /** The next version: the inputs are gone and the outputs are in level+1. */
  ghost predicate Installed(v: Version, v': Version, level: nat, in0: seq<FileMetaData>, in1: seq<FileMetaData>,
                            outputs: seq<FileMetaData>) {
    && InstalledFiles(v, v', level, in0, in1, outputs)
    && forall l :: 0 <= l < NUM_LEVELS ==> InOrder(v'.files[l])
  }

  ghost predicate InstalledFiles(v: Version, v': Version, level: nat, in0: seq<FileMetaData>, in1: seq<FileMetaData>,
                                 outputs: seq<FileMetaData>) {
    && |v.files| == NUM_LEVELS && |v'.files| == NUM_LEVELS && level + 1 < NUM_LEVELS
    && (forall l, f :: 0 <= l < NUM_LEVELS && l != level && l != level + 1 ==> (f in v'.files[l] <==> f in v.files[l]))
    && (forall f :: f in v'.files[level] <==> f in v.files[level] && f !in in0)
    && (forall f :: f in v'.files[level + 1] <==> (f in v.files[level + 1] && f !in in1) || f in outputs)
  }

  /** Every output entry is an entry of an input file. */
  ghost predicate DrawnFrom(outputs: seq<FileMetaData>, in0: seq<FileMetaData>, in1: seq<FileMetaData>) {
    forall o, e :: o in outputs && e in o.entries ==> exists f :: (f in in0 || f in in1) && e in f.entries
  }

  // ---------------------------------------------------------------------------------------------------------------
  // The order of the levels is kept

  lemma ApartIfOrdered(fs: seq<FileMetaData>)
    requires AllValid(fs) && InOrder(fs)
    requires forall f, g :: f in fs && g in fs && f != g ==>
               Before(f.largest, g.smallest) || Before(g.largest, f.smallest)
    ensures Apart(fs)
  {
    forall i, j | 0 <= i < j < |fs| ensures Before(fs[i].largest, fs[j].smallest) {
      assert fs[i] in fs && fs[j] in fs && BySmallestKey(fs[i], fs[j]);
      ValidFileOrdered(fs[i]);
      ValidFileOrdered(fs[j]);
    }
  }

  predicate WhollyBefore(f: FileMetaData, g: FileMetaData) {
    Before(f.largest, g.smallest)
  }

  /** Of two files of a sorted level, one meets the range and one does not: the side they are on is the range's. */
  lemma SidesOfRange(f: FileMetaData, g: FileMetaData, lo: UserKey, hi: UserKey)
    requires AtOrBefore(f.smallest, f.largest) && AtOrBefore(g.smallest, g.largest)
    requires WhollyBefore(f, g) || WhollyBefore(g, f)
    requires Overlaps(f, Some(lo), Some(hi)) && lo <= hi
    ensures g.largest.user < lo ==> WhollyBefore(g, f)
    ensures g.smallest.user > hi ==> WhollyBefore(f, g)
  {
  }

  /** A level+1 file that is no input lies wholly before or wholly after all the inputs. */
  lemma BesideInputs(v: Version, level: nat, in0: seq<FileMetaData>, in1: seq<FileMetaData>, g: FileMetaData)
    requires v.Valid() && ProperInputs(v, level, in0, in1) && g in v.files[level + 1] && g !in in1
    ensures (forall f :: f in in0 || f in in1 ==> WhollyBefore(g, f))
         || (forall f :: f in in0 || f in in1 ==> WhollyBefore(f, g))
  {
    var lo, hi :| IsHull(in0, lo, hi) && in1 == Select(v.files[level + 1], Some(lo), Some(hi));
    assert Apart(v.files[level + 1]) && AllValid(v.files[level]);
    BesideRange(v.files[level], in0, v.files[level + 1], lo, hi, g);
  }

  lemma BesideRange(ls: seq<FileMetaData>, in0: seq<FileMetaData>, fs: seq<FileMetaData>, lo: UserKey, hi: UserKey,
                    g: FileMetaData)
    requires AllValid(ls) && From(in0, ls) && IsHull(in0, lo, hi) && AllValid(fs) && Apart(fs)
    requires g in fs && !Overlaps(g, Some(lo), Some(hi))
    ensures (forall f :: f in in0 || f in Select(fs, Some(lo), Some(hi)) ==> WhollyBefore(g, f))
         || (forall f :: f in in0 || f in Select(fs, Some(lo), Some(hi)) ==> WhollyBefore(f, g))
  {
    ValidFileOrdered(g);
    var h :| h in in0;
    assert h in ls && ValidFile(h);
    ValidFileOrdered(h);
    forall f | f in Select(fs, Some(lo), Some(hi))
      ensures g.largest.user < lo ==> WhollyBefore(g, f)
      ensures g.smallest.user > hi ==> WhollyBefore(f, g)
    {
      FilesOrdered(fs, f, g);
      ValidFileOrdered(f);
      SidesOfRange(f, g, lo, hi);
    }
  }

  /** Ranges that share no user key, or `g` first: either way `g` is newer wherever they share a user key. */
  lemma NewerByRange(g: FileMetaData, f: FileMetaData)
    requires ValidFile(g) && ValidFile(f)
    requires f.largest.user < g.smallest.user || g.largest.user < f.smallest.user || Before(g.largest, f.smallest)
    ensures Newer(g.entries, f.entries)
  {
    forall x, y | x in g.entries && y in f.entries && x.key.user == y.key.user ensures Tag(x.key) > Tag(y.key) {
      ValidFileBounds(g, x);
      ValidFileBounds(f, y);
    }
  }

  /** A file left in the input level is newer than an input file wherever they share a user key. */
  lemma LeftBehindIsNewer(v: Version, level: nat, in0: seq<FileMetaData>, in1: seq<FileMetaData>, g: FileMetaData,
                          f: FileMetaData)
    requires v.Valid() && ProperInputs(v, level, in0, in1) && g in v.files[level] && g !in in0 && f in in0
    ensures Newer(g.entries, f.entries)
  {
    assert level == 0 ==> !Overlaps(g, Some(f.smallest.user), Some(f.largest.user));
    assert !IsBoundaryFile(g, f.largest);
    if level > 0 {
      assert Apart(v.files[level]);
      FilesOrdered(v.files[level], f, g);
    }
    NewerByRange(g, f);
  }

  lemma OutputBesideFile(v: Version, level: nat, in0: seq<FileMetaData>, in1: seq<FileMetaData>,
                         outputs: seq<FileMetaData>, o: FileMetaData, g: FileMetaData)
    requires v.Valid() && ProperInputs(v, level, in0, in1) && DrawnFrom(outputs, in0, in1)
    requires o in outputs && ValidFile(o) && g in v.files[level + 1] && g !in in1
    ensures WhollyBefore(o, g) || WhollyBefore(g, o)
  {
    BesideInputs(v, level, in0, in1, g);
    assert AllValid(in0 + in1) by {
      assert AllValid(v.files[level]) && AllValid(v.files[level + 1]);
    }
    var f := Source(o, o.entries[0], outputs, in0, in1);
    var h := Source(o, o.entries[|o.entries| - 1], outputs, in0, in1);
    BetweenSources(f, o.smallest, h, o.largest, g);
  }

  lemma BetweenSources(f: FileMetaData, first: InternalKey, h: FileMetaData, last: InternalKey, g: FileMetaData)
    requires AtOrBefore(f.smallest, first) && AtOrBefore(last, h.largest)
    requires (WhollyBefore(g, f) && WhollyBefore(g, h)) || (WhollyBefore(f, g) && WhollyBefore(h, g))
    ensures Before(last, g.smallest) || Before(g.largest, first)
  {
  }

  /** The input file an output entry comes from. */
  lemma Source(o: FileMetaData, e: Entry, outputs: seq<FileMetaData>, in0: seq<FileMetaData>, in1: seq<FileMetaData>)
      returns (f: FileMetaData)
    requires DrawnFrom(outputs, in0, in1) && AllValid(in0 + in1) && o in outputs && e in o.entries
    ensures (f in in0 || f in in1) && e in f.entries
    ensures AtOrBefore(f.smallest, e.key) && AtOrBefore(e.key, f.largest)
  {
    f :| (f in in0 || f in in1) && e in f.entries;
    assert f in in0 + in1;
    ValidFileBounds(f, e);
  }

  lemma OutputsNewerThanBelow(v: Version, level: nat, in0: seq<FileMetaData>, in1: seq<FileMetaData>,
                              outputs: seq<FileMetaData>, o: FileMetaData, m: nat, g: FileMetaData)
    requires v.Valid() && ProperInputs(v, level, in0, in1) && DrawnFrom(outputs, in0, in1) && o in outputs
    requires level + 1 < m < NUM_LEVELS && g in v.files[m]
    ensures Newer(o.entries, g.entries)
  {
    assert LevelNewer(v.files[level], v.files[m]) && LevelNewer(v.files[level + 1], v.files[m]);
    assert forall f :: f in in0 || f in in1 ==> Newer(f.entries, g.entries);
    forall x, y | x in o.entries && y in g.entries && x.key.user == y.key.user ensures Tag(x.key) > Tag(y.key) {
      var f :| (f in in0 || f in in1) && x in f.entries;
    }
  }

  lemma AboveNewerThanInput(v: Version, level: nat, in0: seq<FileMetaData>, in1: seq<FileMetaData>, l: nat,
                            g: FileMetaData, f: FileMetaData)
    requires v.Valid() && ProperInputs(v, level, in0, in1) && (f in in0 || f in in1)
    requires l <= level && g in v.files[l] && !(l == level && g in in0)
    ensures Newer(g.entries, f.entries)
  {
    if f in in1 {
      assert LevelNewer(v.files[l], v.files[level + 1]);
    } else if l < level {
      assert LevelNewer(v.files[l], v.files[level]);
    } else {
      LeftBehindIsNewer(v, level, in0, in1, g, f);
    }
  }

  lemma AboveNewerThanOutputs(v: Version, level: nat, in0: seq<FileMetaData>, in1: seq<FileMetaData>,
                              outputs: seq<FileMetaData>, l: nat, g: FileMetaData, o: FileMetaData)
    requires v.Valid() && ProperInputs(v, level, in0, in1) && DrawnFrom(outputs, in0, in1) && o in outputs
    requires l <= level && g in v.files[l] && !(l == level && g in in0)
    ensures Newer(g.entries, o.entries)
  {
    forall f | f in in0 || f in in1 ensures Newer(g.entries, f.entries) {
      AboveNewerThanInput(v, level, in0, in1, l, g, f);
    }
    forall x, y | x in g.entries && y in o.entries && x.key.user == y.key.user ensures Tag(x.key) > Tag(y.key) {
      var f :| (f in in0 || f in in1) && y in f.entries;
    }
  }

  lemma InstalledApart(v: Version, v': Version, level: nat, in0: seq<FileMetaData>, in1: seq<FileMetaData>,
                       outputs: seq<FileMetaData>)
    requires v.Valid() && ProperInputs(v, level, in0, in1) && DrawnFrom(outputs, in0, in1)
    requires Installed(v, v', level, in0, in1, outputs) && AllValid(outputs) && Apart(outputs)
    ensures forall l :: 0 <= l < NUM_LEVELS ==> AllValid(v'.files[l])
    ensures forall l :: 1 <= l < NUM_LEVELS ==> Apart(v'.files[l])
  {
    forall l | 0 <= l < NUM_LEVELS
      ensures AllValid(v'.files[l]) && (l >= 1 ==> Apart(v'.files[l]))
    {
      if l >= 1 {
        assert Apart(v.files[l]);
        forall f, g | f in v'.files[l] && g in v'.files[l] && f != g
          ensures Before(f.largest, g.smallest) || Before(g.largest, f.smallest)
        {
          if f in v.files[l] && g in v.files[l] {
            FilesOrdered(v.files[l], f, g);
          } else if f in v.files[l] {
            if l == level + 1 && f in in1 {
              FilesOrdered(outputs, f, g);
            } else {
              OutputBesideFile(v, level, in0, in1, outputs, g, f);
            }
          } else if g in v.files[l] {
            if l == level + 1 && g in in1 {
              FilesOrdered(outputs, f, g);
            } else {
              OutputBesideFile(v, level, in0, in1, outputs, f, g);
            }
          } else {
            FilesOrdered(outputs, f, g);
          }
        }
        ApartIfOrdered(v'.files[l]);
      }
    }
  }

  lemma InstalledLevelsNewer(v: Version, v': Version, level: nat, in0: seq<FileMetaData>, in1: seq<FileMetaData>,
                             outputs: seq<FileMetaData>)
    requires v.Valid() && ProperInputs(v, level, in0, in1) && DrawnFrom(outputs, in0, in1)
    requires Installed(v, v', level, in0, in1, outputs)
    ensures forall l, m :: 0 <= l < m < NUM_LEVELS ==> LevelNewer(v'.files[l], v'.files[m])
  {
    hide ProperInputs, DrawnFrom, InOrder, Apart, AllValid, NumberedNewestFirst, Newer;
    forall l, m, f, g | 0 <= l < m < NUM_LEVELS && f in v'.files[l] && g in v'.files[m]
      ensures Newer(f.entries, g.entries)
    {
      if l == level + 1 && f in outputs {
        OutputsNewerThanBelow(v, level, in0, in1, outputs, f, m, g);
      } else if m == level + 1 && g in outputs {
        AboveNewerThanOutputs(v, level, in0, in1, outputs, l, f, g);
      } else {
        assert LevelNewer(v.files[l], v.files[m]);
      }
    }
  }

  /** Distinct places of an ordered list hold distinct files. */
  lemma SubsetNumbered(fs: seq<FileMetaData>, gs: seq<FileMetaData>)
    requires NumberedNewestFirst(fs) && InOrder(gs) && forall g :: g in gs ==> g in fs
    ensures NumberedNewestFirst(gs)
  {
    forall i, j | 0 <= i < j < |gs| ensures NumberedApart(gs[i], gs[j]) {
      assert gs[i] in gs && gs[j] in gs && BySmallestKey(gs[i], gs[j]);
      var a :| 0 <= a < |fs| && fs[a] == gs[i];
      var b :| 0 <= b < |fs| && fs[b] == gs[j];
      assert NumberedApart(fs[a], fs[b]) || NumberedApart(fs[b], fs[a]);
    }
  }

  /** Installing outputs drawn from properly chosen inputs gives a valid version again. */
  lemma InstallKeepsOrder(v: Version, v': Version, level: nat, in0: seq<FileMetaData>, in1: seq<FileMetaData>,
                          outputs: seq<FileMetaData>)
    requires v.Valid() && ProperInputs(v, level, in0, in1) && DrawnFrom(outputs, in0, in1)
    requires Installed(v, v', level, in0, in1, outputs) && AllValid(outputs) && Apart(outputs)
    ensures v'.Valid()
  {
    InstalledApart(v, v', level, in0, in1, outputs);
    InstalledLevelsNewer(v, v', level, in0, in1, outputs);
    SubsetNumbered(v.files[0], v'.files[0]);
  }

  // ---------------------------------------------------------------------------------------------------------------
  // Reads

  lemma EntriesBefore(v: Version, level: nat, in0: seq<FileMetaData>, in1: seq<FileMetaData>)
    requires v.Valid() && ProperInputs(v, level, in0, in1)
    ensures v.Entries() == FileEntries(in0 + in1) + RestEntries(v, level, in0, in1)
  {
    forall e ensures e in v.Entries() <==> e in FileEntries(in0 + in1) + RestEntries(v, level, in0, in1) {
      if e in v.Entries() {
        var l, f :| 0 <= l < |v.files| && f in v.files[l] && e in f.entries;
        if (l == level && f in in0) || (l == level + 1 && f in in1) { assert f in in0 + in1; }
      }
      if e in FileEntries(in0 + in1) {
        var f :| f in in0 + in1 && e in f.entries;
        assert f in v.files[level] || f in v.files[level + 1];
      }
    }
  }

  lemma EntriesAfter(v: Version, v': Version, level: nat, in0: seq<FileMetaData>, in1: seq<FileMetaData>,
                     outputs: seq<FileMetaData>)
    requires |v.files| == NUM_LEVELS && Installed(v, v', level, in0, in1, outputs)
    ensures v'.Entries() == EntrySet(Contents(outputs)) + RestEntries(v, level, in0, in1)
  {
    ContentsHas(outputs);
    forall e | e in v'.Entries() ensures e in EntrySet(Contents(outputs)) + RestEntries(v, level, in0, in1) {
      var l, f :| 0 <= l < |v'.files| && f in v'.files[l] && e in f.entries;
      if !(l == level + 1 && f in outputs) {
        assert f in v.files[l] && !(l == level && f in in0) && !(l == level + 1 && f in in1);
      }
    }
    forall e | e in RestEntries(v, level, in0, in1) ensures e in v'.Entries() {
      var l, f :| 0 <= l < |v.files| && f in v.files[l] && !(l == level && f in in0) && !(l == level + 1 && f in in1) &&
          e in f.entries;
      assert f in v'.files[l];
    }
    forall e | e in EntrySet(Contents(outputs)) ensures e in v'.Entries() {
      var f :| f in outputs && e in f.entries;
      assert f in v'.files[level + 1];
    }
  }

  /** Beside the level inputs it shares no user key with them at all. */
  lemma BesideLevelIsNewer(v: Version, level: nat, in0: seq<FileMetaData>, in1: seq<FileMetaData>, g: FileMetaData,
                           f: FileMetaData)
    requires v.Valid() && ProperInputs(v, level, in0, in1) && g in v.files[level + 1] && g !in in1 && f in in0
    ensures Newer(g.entries, f.entries)
  {
    assert AllValid(v.files[level]) && AllValid(v.files[level + 1]);
    var lo, hi :| IsHull(in0, lo, hi) && in1 == Select(v.files[level + 1], Some(lo), Some(hi));
    OutsideHullIsNewer(in0, lo, hi, g, f);
  }

  lemma OutsideHullIsNewer(ins: seq<FileMetaData>, lo: UserKey, hi: UserKey, g: FileMetaData, f: FileMetaData)
    requires IsHull(ins, lo, hi) && f in ins && ValidFile(f) && ValidFile(g) && !Overlaps(g, Some(lo), Some(hi))
    ensures Newer(g.entries, f.entries)
  {
    NewerByRange(g, f);
  }

  /**
   A level+1 input `f` whose last user key goes on in a file `g` that was left behind: the one place where a hazard can
   be. The deletion `t` is in `f` and the old value `r` in `g`.
   */
  ghost predicate SplitKey(v: Version, level: nat, in1: seq<FileMetaData>, f: FileMetaData, g: FileMetaData,
                           user: UserKey, t: Entry, r: Entry)
    requires |v.files| == NUM_LEVELS && level + 1 < NUM_LEVELS
  {
    && f in in1 && g in v.files[level + 1] && g !in in1 && IsBoundaryFile(g, f.largest)
    && user == f.largest.user && t in f.entries && r in g.entries
  }

  /**
   Of two files of a sorted level that share a user key, the one with the older entry comes second, and begins with that
   key.
   */
  lemma OlderIsNext(fs: seq<FileMetaData>, f: FileMetaData, g: FileMetaData, t: Entry, r: Entry)
    requires AllValid(fs) && Apart(fs) && f in fs && g in fs && f != g && t in f.entries && r in g.entries
    requires t.key.user == r.key.user && Tag(r.key) < Tag(t.key)
    ensures IsBoundaryFile(g, f.largest) && f.largest.user == t.key.user
  {
    FilesOrdered(fs, f, g);
    ValidFileBounds(f, t);
    ValidFileBounds(g, r);
    if Before(g.largest, f.smallest) { NewerByRange(g, f); }
  }

  /** A file left behind that holds an older entry than an input does holds it at a split key. */
  lemma OlderLeftBehind(v: Version, level: nat, in0: seq<FileMetaData>, in1: seq<FileMetaData>, f: FileMetaData, l: nat,
                        g: FileMetaData, t: Entry, r: Entry)
    requires v.Valid() && ProperInputs(v, level, in0, in1) && (f in in0 || f in in1) && t in f.entries
    requires l <= level + 1 && g in v.files[l] && !(l == level && g in in0) && !(l == level + 1 && g in in1)
    requires r in g.entries && r.key.user == t.key.user && Tag(r.key) < Tag(t.key)
    ensures SplitKey(v, level, in1, f, g, t.key.user, t, r)
  {
    assert AllValid(v.files[level + 1]) && Apart(v.files[level + 1]);
    assert |v.files| == NUM_LEVELS && level + 1 < NUM_LEVELS && From(in1, v.files[level + 1]);
    hide Version.Valid, ProperInputs, AllValid, Apart;
    if l <= level {
      AboveNewerThanInput(v, level, in0, in1, l, g, f);
    } else if f in in1 {
      OlderIsNext(v.files[level + 1], f, g, t, r);
    } else {
      BesideLevelIsNewer(v, level, in0, in1, g, f);
    }
  }

  /** Where the two entries of a hazard are: in an input, and in a file no deeper than level+1 that is no input. */
  lemma HazardFiles(v: Version, level: nat, in0: seq<FileMetaData>, in1: seq<FileMetaData>, input: seq<Entry>,
                    smallest: SequenceNumber, user: UserKey, t: Entry, r: Entry)
      returns (f: FileMetaData, l: nat, g: FileMetaData)
    requires |v.files| == NUM_LEVELS && (forall l :: 0 <= l < NUM_LEVELS ==> AllValid(v.files[l]))
    requires IsMerge(input, in0, in1)
    requires Hazard(v, level, EntrySet(input), RestEntries(v, level, in0, in1), smallest, user, t, r)
    ensures (f in in0 || f in in1) && t in f.entries && r in g.entries && l <= level + 1 && l < NUM_LEVELS
    ensures g in v.files[l] && !(l == level && g in in0) && !(l == level + 1 && g in in1)
    ensures t.key.user == user && r.key.user == user && Tag(r.key) < Tag(t.key)
  {
    assert Sees(EntrySet(input), user, smallest, t) && Sees(RestEntries(v, level, in0, in1), user, smallest, r);
    f :| f in in0 + in1 && t in f.entries;
    l, g :| 0 <= l < |v.files| && g in v.files[l] && !(l == level && g in in0) && !(l == level + 1 && g in in1) &&
            r in g.entries;
    ValidFileBounds(g, r);
  }

  /** Every hazard is at such a split key. */
  lemma HazardIsAtSplit(v: Version, level: nat, in0: seq<FileMetaData>, in1: seq<FileMetaData>, input: seq<Entry>,
                        smallest: SequenceNumber, user: UserKey, t: Entry, r: Entry)
    requires v.Valid() && ProperInputs(v, level, in0, in1) && IsMerge(input, in0, in1)
    requires Hazard(v, level, EntrySet(input), RestEntries(v, level, in0, in1), smallest, user, t, r)
    ensures exists f: FileMetaData, g: FileMetaData :: SplitKey(v, level, in1, f, g, user, t, r)
  {
    assert level + 1 < NUM_LEVELS;
    hide Hazard, IsMerge, ProperInputs, AllValid, Apart, LevelNewer, NumberedNewestFirst;
    var f, l, g := HazardFiles(v, level, in0, in1, input, smallest, user, t, r);
    OlderLeftBehind(v, level, in0, in1, f, l, g, t, r);
    assert SplitKey(v, level, in1, f, g, user, t, r);
  }

  /** There is a hazard at a key split between a level+1 input and a file left behind. */
  ghost predicate HazardAtSplit(v: Version, level: nat, in0: seq<FileMetaData>, in1: seq<FileMetaData>,
                                input: seq<Entry>, smallest: SequenceNumber)
    requires |v.files| == NUM_LEVELS && level + 1 < NUM_LEVELS
  {
    exists f: FileMetaData, g: FileMetaData, t: Entry, r: Entry ::
      && SplitKey(v, level, in1, f, g, f.largest.user, t, r)
      && Hazard(v, level, EntrySet(input), RestEntries(v, level, in0, in1), smallest, f.largest.user, t, r)
  }

  /**
   A compaction step keeps every read at every snapshot from the oldest one on exactly when no hazard exists, and none
   exists if no level+1 file is left starting on the last user key of a level+1 input.
   */
  lemma CompactionPreservesReads(v: Version, v': Version, level: nat, in0: seq<FileMetaData>, in1: seq<FileMetaData>,
                                 input: seq<Entry>, smallest: SequenceNumber, outputs: seq<FileMetaData>)
    requires v.Valid() && ProperInputs(v, level, in0, in1) && IsMerge(input, in0, in1) && smallest < MAX_SEQUENCE
    requires Contents(outputs) == Survivors(v, level, input, smallest, |input|)
    requires Installed(v, v', level, in0, in1, outputs)
    ensures v'.Entries() ==
            EntrySet(Survivors(v, level, input, smallest, |input|)) + RestEntries(v, level, in0, in1)
    ensures SameReads(v.Entries(), v'.Entries(), smallest) <==>
            HazardFree(v, level, EntrySet(input), RestEntries(v, level, in0, in1), smallest)
    ensures SameReads(v.Entries(), v'.Entries(), smallest) <==> !HazardAtSplit(v, level, in0, in1, input, smallest)
    ensures BoundaryClosed(v.files[level + 1], in1) ==> SameReads(v.Entries(), v'.Entries(), smallest)
  {
    EntriesBefore(v, level, in0, in1);
    EntriesAfter(v, v', level, in0, in1, outputs);
    v.EntriesUnique();
    DropsAreSound(v, level, input, RestEntries(v, level, in0, in1), smallest);
    HazardFreeIf(v, level, in0, in1, input, smallest);
  }

  lemma HazardFreeIf(v: Version, level: nat, in0: seq<FileMetaData>, in1: seq<FileMetaData>, input: seq<Entry>,
                     smallest: SequenceNumber)
    requires v.Valid() && ProperInputs(v, level, in0, in1) && IsMerge(input, in0, in1)
    ensures HazardFree(v, level, EntrySet(input), RestEntries(v, level, in0, in1), smallest) <==>
            !HazardAtSplit(v, level, in0, in1, input, smallest)
    ensures BoundaryClosed(v.files[level + 1], in1) ==> !HazardAtSplit(v, level, in0, in1, input, smallest)
  {
    assert level + 1 < NUM_LEVELS;
    hide Hazard, IsMerge, ProperInputs;
    if user, t, r :| Hazard(v, level, EntrySet(input), RestEntries(v, level, in0, in1), smallest, user, t, r) {
      HazardIsAtSplit(v, level, in0, in1, input, smallest, user, t, r);
      var f: FileMetaData, g: FileMetaData :| SplitKey(v, level, in1, f, g, user, t, r);
    }
  }

  // ---------------------------------------------------------------------------------------------------------------
  // The steps themselves

  const NO_EDIT := LevelEdit({}, [])
  const EMPTY_EDIT: seq<LevelEdit> := [NO_EDIT, NO_EDIT, NO_EDIT, NO_EDIT, NO_EDIT, NO_EDIT, NO_EDIT]

  /** A level after one edit: deletions by number, then additions. */
  ghost predicate LevelApplied(fs: seq<FileMetaData>, e: LevelEdit, fs': seq<FileMetaData>) {
    InOrder(fs') && forall f :: f in fs' <==> (f in fs && f.number !in e.deletedFiles) || f in e.newFiles
  }

  lemma FoldOne(fs: seq<FileMetaData>, edit: VersionEdit, l: nat)
    requires l < NUM_LEVELS
    ensures AllAdded([edit], l) == edit[l].newFiles
    ensures Fold(FileSet(fs), [edit], l) == ApplyOne(FileSet(fs), edit[l])
  {
    var edits := [edit];
    assert edits[..0] == [];
    assert AllAdded(edits[..0], l) == [] && Fold(FileSet(fs), edits[..0], l) == FileSet(fs);
  }

  lemma AppliedIfFolded(fs: seq<FileMetaData>, e: LevelEdit, fs': seq<FileMetaData>)
    requires InOrder(fs') && FileSet(fs') == ApplyOne(FileSet(fs), e)
    ensures LevelApplied(fs, e, fs')
  {
    forall f ensures f in fs' <==> (f in fs && f.number !in e.deletedFiles) || f in e.newFiles {
      assert f in fs' <==> f in FileSet(fs');
    }
  }

  /** `LogAndApply`, as far as the files go: one edit applied to the current version. */
  method LogAndApply(v: Version, edit: VersionEdit, ghost nextFileNumber: nat) returns (v': Version)
    requires Canonical(v, nextFileNumber)
    requires forall l :: 0 <= l < NUM_LEVELS ==> FreshNumbers(v.files[l], edit[l].newFiles)
    ensures |v'.files| == NUM_LEVELS
    ensures forall l :: 0 <= l < NUM_LEVELS ==> LevelApplied(v.files[l], edit[l], v'.files[l])
  {
    var builder := new Builder(v);
    builder.Apply(edit, []);
    assert [] + [edit] == [edit];
    forall l | 0 <= l < NUM_LEVELS
      ensures InOrder(v.files[l]) && DistinctNumbers(v.files[l]) && FreshNumbers(v.files[l], AllAdded([edit], l))
    {
      FoldOne(v.files[l], edit, l);
      CanonicalLevels(v, nextFileNumber, l);
    }
    v' := builder.SaveTo([edit]);
    forall l | 0 <= l < NUM_LEVELS ensures LevelApplied(v.files[l], edit[l], v'.files[l]) {
      FoldOne(v.files[l], edit, l);
      AppliedIfFolded(v.files[l], edit[l], v'.files[l]);
    }
  }

  lemma CanonicalLevels(v: Version, nextFileNumber: nat, l: nat)
    requires Canonical(v, nextFileNumber) && l < NUM_LEVELS
    ensures InOrder(v.files[l]) && DistinctNumbers(v.files[l])
  {
    var place :| Placed(v, place, nextFileNumber);
    PlacedDistinct(v, place, nextFileNumber, l);
  }

  lemma PlacedDistinct(v: Version, place: map<nat, (nat, FileMetaData)>, nextFileNumber: nat, l: nat)
    requires Placed(v, place, nextFileNumber) && l < |v.files|
    ensures DistinctNumbers(v.files[l])
  {
  }

  /** The edit of a compaction: `AddInputDeletions`, then `AddFile` for each output. */
  function CompactionEdit(level: nat, in0: seq<FileMetaData>, in1: seq<FileMetaData>,
                          outputs: seq<FileMetaData>): (e: VersionEdit)
    requires level + 1 < NUM_LEVELS
    ensures e[level] == LevelEdit(Numbers(in0), [])
    ensures e[level + 1] == LevelEdit(Numbers(in1), outputs)
    ensures forall l :: 0 <= l < NUM_LEVELS && l != level && l != level + 1 ==> e[l] == NO_EDIT
  {
    EMPTY_EDIT[level := LevelEdit(Numbers(in0), [])][level + 1 := LevelEdit(Numbers(in1), outputs)]
  }

  lemma AppliedRemoves(fs: seq<FileMetaData>, ins: seq<FileMetaData>, outputs: seq<FileMetaData>,
                       fs': seq<FileMetaData>)
    requires DistinctNumbers(fs) && From(ins, fs) && LevelApplied(fs, LevelEdit(Numbers(ins), outputs), fs')
    ensures forall f :: f in fs' <==> (f in fs && f !in ins) || f in outputs
  {
    forall f | f in fs ensures f.number in Numbers(ins) <==> f in ins {
    }
  }

  lemma IsInstalled(v: Version, v': Version, level: nat, in0: seq<FileMetaData>, in1: seq<FileMetaData>,
                    outputs: seq<FileMetaData>)
    requires |v.files| == NUM_LEVELS && |v'.files| == NUM_LEVELS && level + 1 < NUM_LEVELS
    requires DistinctNumbers(v.files[level]) && From(in0, v.files[level])
    requires DistinctNumbers(v.files[level + 1]) && From(in1, v.files[level + 1])
    requires forall l :: 0 <= l < NUM_LEVELS ==>
               LevelApplied(v.files[l], CompactionEdit(level, in0, in1, outputs)[l], v'.files[l])
    ensures Installed(v, v', level, in0, in1, outputs)
  {
    assert LevelApplied(v.files[level], LevelEdit(Numbers(in0), []), v'.files[level]);
    assert LevelApplied(v.files[level + 1], LevelEdit(Numbers(in1), outputs), v'.files[level + 1]);
    AppliedRemoves(v.files[level], in0, [], v'.files[level]);
    AppliedRemoves(v.files[level + 1], in1, outputs, v'.files[level + 1]);
    forall l | 0 <= l < NUM_LEVELS && l != level && l != level + 1
      ensures forall f :: f in v'.files[l] <==> f in v.files[l]
    {
      assert LevelApplied(v.files[l], NO_EDIT, v'.files[l]);
    }
  }

  /** `InstallCompactionResults`: the inputs leave their levels and the outputs enter level+1. */
  method Install(v: Version, ghost nextFileNumber: nat, level: nat, in0: seq<FileMetaData>, in1: seq<FileMetaData>,
                 outputs: seq<FileMetaData>)
      returns (v': Version)
    requires Canonical(v, nextFileNumber) && ProperInputs(v, level, in0, in1)
    requires forall l :: 0 <= l < NUM_LEVELS ==>
               FreshNumbers(v.files[l], CompactionEdit(level, in0, in1, outputs)[l].newFiles)
    requires DrawnFrom(outputs, in0, in1) && AllValid(outputs) && Apart(outputs)
    ensures Installed(v, v', level, in0, in1, outputs) && v'.Valid()
  {
    v' := LogAndApply(v, CompactionEdit(level, in0, in1, outputs), nextFileNumber);
    CanonicalLevels(v, nextFileNumber, level);
    CanonicalLevels(v, nextFileNumber, level + 1);
    IsInstalled(v, v', level, in0, in1, outputs);
    InstallKeepsOrder(v, v', level, in0, in1, outputs);
  }

  /** Where the outputs are cut: at the size limit, and where they would overlap too much of level+2. */
  ghost predicate CutForOverlap(v: Version, level: nat, in0: seq<FileMetaData>, in1: seq<FileMetaData>,
                                input: seq<Entry>, maxOverlap: nat, sizeOf: seq<Entry> -> nat, maxSize: nat,
                                outputs: seq<FileMetaData>)
    requires |v.files| == NUM_LEVELS
  {
    exists gs :: AreGrandparents(v, level, in0, in1, gs) &&
      CutAsAsked(outputs, input, Cutting(Stops(gs, maxOverlap, input), sizeOf, maxSize)) &&
      forall o :: o in outputs ==> LittleOverlap(o.entries, gs, maxOverlap)
  }

  method WriteOutputs(v: Version, level: nat, in0: seq<FileMetaData>, in1: seq<FileMetaData>, input: seq<Entry>,
                      smallest: SequenceNumber, maxOverlap: nat, sizeOf: seq<Entry> -> nat, maxOutputFileSize: nat,
                      nextFileNumber: nat)
      returns (outputs: seq<FileMetaData>)
    requires v.Valid() && ProperInputs(v, level, in0, in1) && IsMerge(input, in0, in1)
    ensures Contents(outputs) == Survivors(v, level, input, smallest, |input|)
    ensures Written(outputs, sizeOf, nextFileNumber)
    ensures CutForOverlap(v, level, in0, in1, input, maxOverlap, sizeOf, maxOutputFileSize, outputs)
    ensures AllValid(outputs) && Apart(outputs) && NumberedFrom(outputs, nextFileNumber) && DrawnFrom(outputs, in0, in1)
  {
    InputsValid(v, level, in0, in1);
    var grandparents := FindGrandparents(v, level, in0, in1);
    var compaction := new Compaction(level, v, grandparents, maxOverlap);
    outputs := compaction.DoCompactionWork(input, smallest, sizeOf, maxOutputFileSize, nextFileNumber);
    OutputsDrawn(v, level, in0, in1, input, smallest, outputs);
    OutputsOverlap(v, level, input, smallest, outputs, grandparents, maxOverlap, sizeOf, maxOutputFileSize);
  }

  lemma OutputsOverlap(v: Version, level: nat, input: seq<Entry>, smallest: SequenceNumber, outputs: seq<FileMetaData>,
                       gs: seq<FileMetaData>, maxOverlap: nat, sizeOf: seq<Entry> -> nat, maxSize: nat)
    requires |v.files| == NUM_LEVELS && Sorted(input) && Apart(gs) && AllValid(gs) && AllValid(outputs)
    requires Contents(outputs) == Survivors(v, level, input, smallest, |input|)
    requires CutAsAsked(outputs, input, Cutting(Stops(gs, maxOverlap, input), sizeOf, maxSize))
    ensures forall o :: o in outputs ==> LittleOverlap(o.entries, gs, maxOverlap)
  {
    ContentsHas(outputs);
    forall o | o in outputs ensures LittleOverlap(o.entries, gs, maxOverlap) {
      assert ValidFile(o);
      forall e | e in o.entries ensures e in input {
        assert e in Contents(outputs);
        var i :| 0 <= i < |input| && input[i] == e && !Dropped(v, level, input, smallest, i);
      }
      OutputsOverlapLittle(outputs, input, gs, maxOverlap, sizeOf, maxSize, o);
    }
  }

  /**
   A whole compaction: the loop's outputs, cut as asked, replace its inputs in one edit. The next version is canonical
   again, and its reads agree with the old ones exactly when there was no hazard.
   */
  method RunCompaction(v: Version, nextFileNumber: nat, level: nat, in0: seq<FileMetaData>, in1: seq<FileMetaData>,
                       input: seq<Entry>, smallest: SequenceNumber, maxOverlap: nat, sizeOf: seq<Entry> -> nat,
                       maxOutputFileSize: nat)
      returns (v': Version, nextFileNumber': nat, ghost outputs: seq<FileMetaData>)
    requires Canonical(v, nextFileNumber) && ProperInputs(v, level, in0, in1) && IsMerge(input, in0, in1)
    requires smallest < MAX_SEQUENCE
    ensures Canonical(v', nextFileNumber') && nextFileNumber' == nextFileNumber + |outputs|
    ensures Installed(v, v', level, in0, in1, outputs) && Written(outputs, sizeOf, nextFileNumber)
    ensures Contents(outputs) == Survivors(v, level, input, smallest, |input|)
    ensures CutForOverlap(v, level, in0, in1, input, maxOverlap, sizeOf, maxOutputFileSize, outputs)
    ensures v'.Entries() ==
            EntrySet(Survivors(v, level, input, smallest, |input|)) + RestEntries(v, level, in0, in1)
    ensures SameReads(v.Entries(), v'.Entries(), smallest) <==>
            HazardFree(v, level, EntrySet(input), RestEntries(v, level, in0, in1), smallest)
    ensures SameReads(v.Entries(), v'.Entries(), smallest) <==> !HazardAtSplit(v, level, in0, in1, input, smallest)
    ensures BoundaryClosed(v.files[level + 1], in1) ==> !HazardAtSplit(v, level, in0, in1, input, smallest)
    ensures !HazardAtSplit(v, level, in0, in1, input, smallest) ==>
              Follows(v.Entries(), Rearrange(smallest), v'.Entries())
  {
    ghost var place :| Placed(v, place, nextFileNumber);
    assert |v.files| == NUM_LEVELS && level + 1 < NUM_LEVELS;
    hide *;
    var files :=
        WriteOutputs(v, level, in0, in1, input, smallest, maxOverlap, sizeOf, maxOutputFileSize, nextFileNumber);
    outputs, nextFileNumber' := files, nextFileNumber + |files|;
    FreshOutputs(v, place, nextFileNumber, level, in0, in1, files);
    v' := Install(v, nextFileNumber, level, in0, in1, files);
    place := NumbersStayDistinct(v, v', place, nextFileNumber, level, in0, in1, outputs);
    CanonicalAfter(v, v', level, in0, in1, outputs, place, nextFileNumber');
    CompactionPreservesReads(v, v', level, in0, in1, input, smallest, outputs);
    HazardFreeIf(v, level, in0, in1, input, smallest);
    if !HazardAtSplit(v, level, in0, in1, input, smallest) { RearrangeFollows(v, v', smallest); }
  }

  lemma RearrangeFollows(v: Version, v': Version, smallest: SequenceNumber)
    requires v.Valid() && v'.Valid() && SameReads(v.Entries(), v'.Entries(), smallest)
    ensures Follows(v.Entries(), Rearrange(smallest), v'.Entries())
  {
    v.EntriesUnique();
    v'.EntriesUnique();
  }

  lemma FlushFollows(v: Version, v': Version, mem: seq<Entry>)
    requires v.Valid() && v'.Valid() && NewerThanTables(mem, v) && v'.Entries() == v.Entries() + EntrySet(mem)
    ensures Follows(v.Entries(), Flush(EntrySet(mem)), v'.Entries())
  {
    v.EntriesUnique();
    v'.EntriesUnique();
    forall x, y | x in EntrySet(mem) && y in v.Entries() && x.key.user == y.key.user ensures Tag(x.key) > Tag(y.key) {
      var l, f :| 0 <= l < |v.files| && f in v.files[l] && y in f.entries;
      assert Newer(mem, f.entries);
    }
  }

  lemma CanonicalAfter(v: Version, v': Version, level: nat, in0: seq<FileMetaData>, in1: seq<FileMetaData>,
                       outputs: seq<FileMetaData>, place: map<nat, (nat, FileMetaData)>, nextFileNumber: nat)
    requires Installed(v, v', level, in0, in1, outputs) && v'.Valid() && Placed(v', place, nextFileNumber)
    ensures Canonical(v', nextFileNumber)
  {
  }

  ghost predicate NumberedFrom(outputs: seq<FileMetaData>, nextFileNumber: nat) {
    forall i :: 0 <= i < |outputs| ==> outputs[i].number == nextFileNumber + i
  }

  lemma FreshOutputs(v: Version, place: map<nat, (nat, FileMetaData)>, nextFileNumber: nat, level: nat,
                     in0: seq<FileMetaData>, in1: seq<FileMetaData>, outputs: seq<FileMetaData>)
    requires |v.files| == NUM_LEVELS && Placed(v, place, nextFileNumber) && level + 1 < NUM_LEVELS
    requires NumberedFrom(outputs, nextFileNumber)
    ensures forall l :: 0 <= l < NUM_LEVELS ==>
              FreshNumbers(v.files[l], CompactionEdit(level, in0, in1, outputs)[l].newFiles)
  {
    forall l | 0 <= l < NUM_LEVELS
      ensures FreshNumbers(v.files[l], CompactionEdit(level, in0, in1, outputs)[l].newFiles)
    {
      assert CompactionEdit(level, in0, in1, outputs)[l].newFiles == if l == level + 1 then outputs else [];
    }
  }

  lemma OutputsDrawn(v: Version, level: nat, in0: seq<FileMetaData>, in1: seq<FileMetaData>, input: seq<Entry>,
                     smallest: SequenceNumber, outputs: seq<FileMetaData>)
    requires |v.files| == NUM_LEVELS && IsMerge(input, in0, in1)
    requires Contents(outputs) == Survivors(v, level, input, smallest, |input|)
    ensures DrawnFrom(outputs, in0, in1)
  {
    ContentsHas(outputs);
    forall o, e | o in outputs && e in o.entries ensures exists f :: (f in in0 || f in in1) && e in f.entries {
      assert e in Contents(outputs);
      assert e in EntrySet(input);
      var f :| f in in0 + in1 && e in f.entries;
    }
  }

  ghost function PlaceAll(place: map<nat, (nat, FileMetaData)>, fs: seq<FileMetaData>,
                          l: nat): map<nat, (nat, FileMetaData)> {
    if fs == [] then place else
      var f := fs[|fs| - 1];
      PlaceAll(place, fs[..|fs| - 1], l)[f.number := (l, f)]
  }

  lemma {:induction false} PlaceAllHas(place: map<nat, (nat, FileMetaData)>, fs: seq<FileMetaData>, l: nat,
                                       nextFileNumber: nat)
    requires NumberedFrom(fs, nextFileNumber)
    ensures forall n :: n < nextFileNumber && n in place ==>
              n in PlaceAll(place, fs, l) && PlaceAll(place, fs, l)[n] == place[n]
    ensures forall i :: 0 <= i < |fs| ==>
              fs[i].number in PlaceAll(place, fs, l) && PlaceAll(place, fs, l)[fs[i].number] == (l, fs[i])
  {
    if fs != [] {
      PlaceAllHas(place, fs[..|fs| - 1], l, nextFileNumber);
    }
  }

  lemma NumbersStayDistinct(v: Version, v': Version, place: map<nat, (nat, FileMetaData)>, nextFileNumber: nat,
                            level: nat, in0: seq<FileMetaData>, in1: seq<FileMetaData>, outputs: seq<FileMetaData>)
      returns (place': map<nat, (nat, FileMetaData)>)
    requires Placed(v, place, nextFileNumber) && Installed(v, v', level, in0, in1, outputs)
    requires NumberedFrom(outputs, nextFileNumber)
    ensures Placed(v', place', nextFileNumber + |outputs|)
  {
    place' := PlaceAll(place, outputs, level + 1);
    PlaceAllHas(place, outputs, level + 1, nextFileNumber);
    forall l, f | 0 <= l < NUM_LEVELS && f in v'.files[l] ensures PlacedAt(place', nextFileNumber + |outputs|, l, f) {
      if l == level + 1 && f in outputs {
        var i :| 0 <= i < |outputs| && outputs[i] == f;
      } else {
        assert f in v.files[l] && PlacedAt(place, nextFileNumber, l, f);
      }
    }
  }

  /** `IsTrivialMove`: one level file, nothing to merge with. It changes level and no read. */
  method MoveFile(v: Version, nextFileNumber: nat, level: nat, f: FileMetaData) returns (v': Version)
    requires Canonical(v, nextFileNumber) && ProperInputs(v, level, [f], [])
    ensures Canonical(v', nextFileNumber) && Installed(v, v', level, [f], [], [f])
    ensures v'.Entries() == v.Entries() && Follows(v.Entries(), Rearrange(0), v'.Entries())
  {
    assert f in [f] && AllValid(v.files[level]);
    ghost var place :| Placed(v, place, nextFileNumber);
    FreshMove(v, place, nextFileNumber, level, f);
    v' := Install(v, nextFileNumber, level, [f], [], [f]);
    place := MovedNumbers(v, v', place, nextFileNumber, level, f);
    MovedEntries(v, v', level, f);
    RearrangeFollows(v, v', 0);
  }

  lemma FreshMove(v: Version, place: map<nat, (nat, FileMetaData)>, nextFileNumber: nat, level: nat, f: FileMetaData)
    requires |v.files| == NUM_LEVELS && Placed(v, place, nextFileNumber) && level + 1 < NUM_LEVELS
    requires f in v.files[level]
    ensures forall l :: 0 <= l < NUM_LEVELS ==>
              FreshNumbers(v.files[l], CompactionEdit(level, [f], [], [f])[l].newFiles)
  {
    forall l | 0 <= l < NUM_LEVELS ensures FreshNumbers(v.files[l], CompactionEdit(level, [f], [], [f])[l].newFiles) {
      assert CompactionEdit(level, [f], [], [f])[l].newFiles == if l == level + 1 then [f] else [];
      forall g | g in v.files[level + 1] ensures g.number != f.number {
        assert PlacedAt(place, nextFileNumber, level + 1, g) && PlacedAt(place, nextFileNumber, level, f);
      }
    }
  }

  lemma MovedEntries(v: Version, v': Version, level: nat, f: FileMetaData)
    requires v.Valid() && ProperInputs(v, level, [f], []) && Installed(v, v', level, [f], [], [f])
    ensures v'.Entries() == v.Entries()
  {
    EntriesBefore(v, level, [f], []);
    EntriesAfter(v, v', level, [f], [], [f]);
    OneFileEntries(f);
    assert [f] + [] == [f];
  }

  lemma OneFileEntries(f: FileMetaData)
    ensures EntrySet(Contents([f])) == FileEntries([f])
  {
    assert [f][..0] == [] && Contents([f]) == [] + f.entries;
  }

  lemma MovedNumbers(v: Version, v': Version, place: map<nat, (nat, FileMetaData)>, nextFileNumber: nat, level: nat,
                     f: FileMetaData)
      returns (place': map<nat, (nat, FileMetaData)>)
    requires Placed(v, place, nextFileNumber) && Installed(v, v', level, [f], [], [f]) && f in v.files[level]
    ensures Placed(v', place', nextFileNumber)
  {
    assert f in [f] && PlacedAt(place, nextFileNumber, level, f);
    place' := place[f.number := (level + 1, f)];
    forall l, g | 0 <= l < NUM_LEVELS && g in v'.files[l] ensures PlacedAt(place', nextFileNumber, l, g) {
      if !(l == level + 1 && g in [f]) {
        assert g in v.files[l] && PlacedAt(place, nextFileNumber, l, g);
      }
    }
  }

  // ---------------------------------------------------------------------------------------------------------------
  // A flushed memtable

  /** The entries of a memtable supersede everything in the tables. */
  ghost predicate NewerThanTables(mem: seq<Entry>, v: Version) {
    forall l, f :: 0 <= l < |v.files| && f in v.files[l] ==> Newer(mem, f.entries)
  }

  /** The next version has one more file, in `level`. */
  ghost predicate Added(v: Version, v': Version, level: nat, f: FileMetaData) {
    && |v.files| == NUM_LEVELS && |v'.files| == NUM_LEVELS && level < NUM_LEVELS
    && (forall l, g :: 0 <= l < NUM_LEVELS ==> (g in v'.files[l] <==> g in v.files[l] || (l == level && g == f)))
    && forall l :: 0 <= l < NUM_LEVELS ==> InOrder(v'.files[l])
  }

  /**
   The place found for the flushed table: level 0, or a level such that nothing down to it meets the table's range.
   */
  ghost predicate RoomAt(v: Version, level: nat, f: FileMetaData) {
    level > 0 ==> forall l, g :: 0 <= l < |v.files| && l <= level && g in v.files[l] ==>
                    !Overlaps(g, Some(f.smallest.user), Some(f.largest.user))
  }

  lemma NoOverlapSides(f: FileMetaData, g: FileMetaData)
    requires !Overlaps(g, Some(f.smallest.user), Some(f.largest.user))
    ensures WhollyBefore(f, g) || WhollyBefore(g, f)
    ensures f.largest.user < g.smallest.user || g.largest.user < f.smallest.user
  {
  }

  lemma AddedApart(v: Version, v': Version, level: nat, f: FileMetaData, l: nat)
    requires v.Valid() && Added(v, v', level, f) && RoomAt(v, level, f) && ValidFile(f) && l < NUM_LEVELS
    ensures AllValid(v'.files[l]) && (l >= 1 ==> Apart(v'.files[l]))
  {
    assert AllValid(v.files[l]);
    if l >= 1 {
      assert Apart(v.files[l]);
      forall a, b | a in v'.files[l] && b in v'.files[l] && a != b ensures WhollyBefore(a, b) || WhollyBefore(b, a) {
        if a in v.files[l] && b in v.files[l] {
          FilesOrdered(v.files[l], a, b);
        } else if a in v.files[l] {
          NoOverlapSides(f, a);
        } else {
          NoOverlapSides(f, b);
        }
      }
      ApartIfOrdered(v'.files[l]);
    }
  }

  lemma AddedNewer(v: Version, v': Version, level: nat, f: FileMetaData, l: nat, a: FileMetaData, m: nat,
                   b: FileMetaData)
    requires v.Valid() && Added(v, v', level, f) && RoomAt(v, level, f) && ValidFile(f) && NewerThanTables(f.entries, v)
    requires l < m < NUM_LEVELS && a in v'.files[l] && b in v'.files[m]
    ensures Newer(a.entries, b.entries)
  {
    assert AllValid(v.files[l]);
    if a in v.files[l] && b in v.files[m] {
      assert LevelNewer(v.files[l], v.files[m]);
    } else if a in v.files[l] {
      NoOverlapSides(f, a);
      NewerByRange(a, f);
    } else if b in v.files[m] {
      assert Newer(f.entries, b.entries);
    }
  }

  lemma AddedNumbered(fs: seq<FileMetaData>, fs': seq<FileMetaData>, f: FileMetaData)
    requires NumberedNewestFirst(fs) && InOrder(fs') && forall g :: g in fs' ==> g in fs || g == f
    requires forall g :: g in fs ==> g.number < f.number && Newer(f.entries, g.entries)
    ensures NumberedNewestFirst(fs')
  {
    forall i, j | 0 <= i < j < |fs'| ensures NumberedApart(fs'[i], fs'[j]) {
      var a, b := fs'[i], fs'[j];
      assert a in fs' && b in fs' && BySmallestKey(a, b);
      if a in fs && b in fs {
        var x :| 0 <= x < |fs| && fs[x] == a;
        var y :| 0 <= y < |fs| && fs[y] == b;
        assert NumberedApart(fs[x], fs[y]) || NumberedApart(fs[y], fs[x]);
      }
    }
  }

  lemma FlushKeepsOrder(v: Version, v': Version, level: nat, f: FileMetaData)
    requires v.Valid() && Added(v, v', level, f) && RoomAt(v, level, f) && ValidFile(f) && NewerThanTables(f.entries, v)
    requires forall g :: g in v.files[0] ==> g.number < f.number
    ensures v'.Valid()
  {
    forall l | 0 <= l < NUM_LEVELS ensures AllValid(v'.files[l]) && (l >= 1 ==> Apart(v'.files[l])) {
      AddedApart(v, v', level, f, l);
    }
    forall l, m, a, b | 0 <= l < m < NUM_LEVELS && a in v'.files[l] && b in v'.files[m]
      ensures Newer(a.entries, b.entries)
    {
      AddedNewer(v, v', level, f, l, a, m, b);
    }
    assert forall l, m :: 0 <= l < m < NUM_LEVELS ==> LevelNewer(v'.files[l], v'.files[m]);
    AddedNumbered(v.files[0], v'.files[0], f);
  }

  lemma AddedEntries(v: Version, v': Version, level: nat, f: FileMetaData)
    requires Added(v, v', level, f)
    ensures v'.Entries() == v.Entries() + EntrySet(f.entries)
  {
    hide InOrder;
    forall e | e in v'.Entries() ensures e in v.Entries() + EntrySet(f.entries) {
      var l, g :| 0 <= l < |v'.files| && g in v'.files[l] && e in g.entries;
      assert g in v.files[l] || g == f;
    }
    forall e | e in v.Entries() ensures e in v'.Entries() {
      var l, g :| 0 <= l < |v.files| && g in v.files[l] && e in g.entries;
      assert g in v'.files[l];
    }
    assert f in v'.files[level];
  }

  lemma AddedPlaced(v: Version, v': Version, place: map<nat, (nat, FileMetaData)>, nextFileNumber: nat, level: nat,
                    f: FileMetaData)
    requires Placed(v, place, nextFileNumber) && Added(v, v', level, f) && f.number == nextFileNumber
    ensures Placed(v', place[f.number := (level, f)], nextFileNumber + 1)
  {
    hide InOrder;
    forall l, g | 0 <= l < NUM_LEVELS && g in v'.files[l]
      ensures PlacedAt(place[f.number := (level, f)], nextFileNumber + 1, l, g)
    {
      assert g in v.files[l] ==> PlacedAt(place, nextFileNumber, l, g);
    }
  }

  /** The edit of a flush: one `AddFile`. */
  function FlushEdit(level: nat, f: FileMetaData): (e: VersionEdit)
    requires level < NUM_LEVELS
    ensures e[level] == LevelEdit({}, [f])
    ensures forall l :: 0 <= l < NUM_LEVELS && l != level ==> e[l] == NO_EDIT
  {
    EMPTY_EDIT[level := LevelEdit({}, [f])]
  }

  lemma IsAdded(v: Version, v': Version, level: nat, f: FileMetaData)
    requires |v.files| == NUM_LEVELS && |v'.files| == NUM_LEVELS && level < NUM_LEVELS
    requires forall l :: 0 <= l < NUM_LEVELS ==> LevelApplied(v.files[l], FlushEdit(level, f)[l], v'.files[l])
    ensures Added(v, v', level, f)
  {
    forall l, g | 0 <= l < NUM_LEVELS ensures g in v'.files[l] <==> g in v.files[l] || (l == level && g == f) {
      assert LevelApplied(v.files[l], if l == level then LevelEdit({}, [f]) else NO_EDIT, v'.files[l]);
    }
  }

  lemma FreshFlush(v: Version, place: map<nat, (nat, FileMetaData)>, nextFileNumber: nat, level: nat, f: FileMetaData)
    requires |v.files| == NUM_LEVELS && Placed(v, place, nextFileNumber) && level < NUM_LEVELS
    requires f.number == nextFileNumber
    ensures forall l :: 0 <= l < NUM_LEVELS ==> FreshNumbers(v.files[l], FlushEdit(level, f)[l].newFiles)
    ensures forall l, g :: 0 <= l < NUM_LEVELS && g in v.files[l] ==> g.number < f.number
  {
    forall l | 0 <= l < NUM_LEVELS
      ensures FreshNumbers(v.files[l], FlushEdit(level, f)[l].newFiles)
      ensures forall g :: g in v.files[l] ==> g.number < f.number
    {
      assert FlushEdit(level, f)[l].newFiles == if l == level then [f] else [];
      assert forall g :: g in v.files[l] ==> PlacedAt(place, nextFileNumber, l, g);
    }
  }

  function TableOf(mem: seq<Entry>, number: nat, sizeOf: seq<Entry> -> nat): FileMetaData
    requires mem != []
  {
    FileMetaData(number, sizeOf(mem), mem[0].key, mem[|mem| - 1].key, mem)
  }

  /**
   `WriteLevel0Table` and the installation in `CompactMemTable`: the memtable becomes one table at the picked level. An
   empty memtable leaves no file.
   */
  method FlushMemTable(v: Version, nextFileNumber: nat, mem: seq<Entry>, sizeOf: seq<Entry> -> nat,
                       maxGrandparentBytes: nat)
      returns (v': Version, ghost level: nat)
    requires Canonical(v, nextFileNumber) && Sorted(mem) && NewerThanTables(mem, v)
    ensures Canonical(v', nextFileNumber + 1)
    ensures mem == [] ==> v' == v
    ensures mem != [] ==>
              PickedLevel(v, mem[0].key.user, mem[|mem| - 1].key.user, maxGrandparentBytes, level) &&
              Added(v, v', level, TableOf(mem, nextFileNumber, sizeOf))
    ensures v'.Entries() == v.Entries() + EntrySet(mem)
    ensures Follows(v.Entries(), Flush(EntrySet(mem)), v'.Entries())
  {
    ghost var place :| Placed(v, place, nextFileNumber);
    assert |v.files| == NUM_LEVELS;
    if |mem| == 0 {
      v', level := v, 0;
      StillCanonical(v, nextFileNumber);
      assert EntrySet(mem) == {};
      FlushFollows(v, v', mem);
      return;
    }
    var f := TableOf(mem, nextFileNumber, sizeOf);
    var picked := PickLevelForMemTableOutput(v, f.smallest.user, f.largest.user, maxGrandparentBytes);
    level := picked;
    assert ValidFile(f) && RoomAt(v, level, f);
    hide *;
    FreshFlush(v, place, nextFileNumber, level, f);
    v' := LogAndApply(v, FlushEdit(picked, f), nextFileNumber);
    IsAdded(v, v', level, f);
    FlushKeepsOrder(v, v', level, f);
    AddedEntries(v, v', level, f);
    AddedPlaced(v, v', place, nextFileNumber, level, f);
    CanonicalAdded(v, v', level, f, place[f.number := (level, f)], nextFileNumber + 1);
    FlushFollows(v, v', mem);
  }

  lemma StillCanonical(v: Version, nextFileNumber: nat)
    requires Canonical(v, nextFileNumber)
    ensures Canonical(v, nextFileNumber + 1)
  {
    var place :| Placed(v, place, nextFileNumber);
    forall l, f | 0 <= l < |v.files| && f in v.files[l] ensures PlacedAt(place, nextFileNumber + 1, l, f) {
      assert PlacedAt(place, nextFileNumber, l, f);
    }
    assert Placed(v, place, nextFileNumber + 1);
  }

  lemma CanonicalAdded(v: Version, v': Version, level: nat, f: FileMetaData, place: map<nat, (nat, FileMetaData)>,
                       nextFileNumber: nat)
    requires Added(v, v', level, f) && v'.Valid() && Placed(v', place, nextFileNumber)
    ensures Canonical(v', nextFileNumber)
  {
  }

  // ---------------------------------------------------------------------------------------------------------------
  // Whole runs

  /**
   A step, as a reader sees it: entries flushed on top of the rest, or a rearrangement that keeps reads from `smallest`
   on.
   */
  datatype Step = Flush(mem: set<Entry>) | Rearrange(smallest: SequenceNumber)

  ghost predicate OnTop(mem: set<Entry>, es: set<Entry>) {
    forall x, y :: x in mem && y in es && x.key.user == y.key.user ==> Tag(x.key) > Tag(y.key)
  }

  /** The entry set before and after one step. */
  ghost predicate Follows(es: set<Entry>, step: Step, es': set<Entry>) {
    && UniqueKeys(es) && UniqueKeys(es')
    && match step
       case Flush(mem) => es' == es + mem && OnTop(mem, es)
       case Rearrange(smallest) => SameReads(es, es', smallest)
  }

  /** Everything written in a run: what was there at first and all that was flushed. */
  ghost function EverWritten(first: set<Entry>, steps: seq<Step>): set<Entry> {
    if steps == [] then first else
      var s := steps[|steps| - 1];
      EverWritten(first, steps[..|steps| - 1]) + (if s.Flush? then s.mem else {})
  }

  ghost predicate Run(states: seq<set<Entry>>, steps: seq<Step>) {
    && |states| == |steps| + 1
    && forall i :: 0 <= i < |steps| ==> Follows(states[i], steps[i], states[i + 1])
  }

  /** Entries flushed on top of two sets that read alike leave sets that read alike. */
  lemma SameReadOnTop(a: set<Entry>, b: set<Entry>, mem: set<Entry>, user: UserKey, snapshot: SequenceNumber)
    requires UniqueKeys(a + mem) && UniqueKeys(b + mem) && OnTop(mem, a) && OnTop(mem, b)
    requires UniqueKeys(a) && UniqueKeys(b) && Read(a, user, snapshot) == Read(b, user, snapshot)
    ensures Read(a + mem, user, snapshot) == Read(b + mem, user, snapshot)
  {
    ReadOnTop(a, mem, user, snapshot);
    ReadOnTop(b, mem, user, snapshot);
  }

  lemma ReadOnTop(es: set<Entry>, mem: set<Entry>, user: UserKey, snapshot: SequenceNumber)
    requires UniqueKeys(es) && UniqueKeys(es + mem) && OnTop(mem, es)
    ensures Read(es + mem, user, snapshot) ==
            if exists e :: Sees(mem, user, snapshot, e) then Read(mem, user, snapshot) else Read(es, user, snapshot)
  {
    if e :| Sees(mem, user, snapshot, e) {
      NewestExists(mem, user, snapshot, e);
      var n :| Newest(mem, user, snapshot, n);
      assert UniqueKeys(mem);
      ReadIs(mem, user, snapshot, n);
      forall o | Sees(es + mem, user, snapshot, o) ensures Tag(o.key) <= Tag(n.key) {
        assert Sees(mem, user, snapshot, o) || o in es;
      }
      assert Newest(es + mem, user, snapshot, n);
      ReadIs(es + mem, user, snapshot, n);
    } else {
      forall o ensures Sees(es + mem, user, snapshot, o) <==> Sees(es, user, snapshot, o) {
        assert !Sees(mem, user, snapshot, o);
      }
      if n :| Newest(es, user, snapshot, n) {
        ReadIs(es, user, snapshot, n);
        assert Newest(es + mem, user, snapshot, n);
        ReadIs(es + mem, user, snapshot, n);
      } else {
        forall o ensures !Sees(es, user, snapshot, o) {
          if Sees(es, user, snapshot, o) { NewestExists(es, user, snapshot, o); }
        }
      }
    }
  }

  /**
   Over any run of flushes and rearrangements, a read at a snapshot no rearrangement was too late for answers as if
   nothing had ever been dropped.
   */
  lemma {:induction false} RunsPreserveReads(states: seq<set<Entry>>, steps: seq<Step>, user: UserKey,
                                             snapshot: SequenceNumber)
    requires Run(states, steps)
    requires forall i :: 0 <= i < |steps| && steps[i].Rearrange? ==> steps[i].smallest <= snapshot
    requires forall n :: 0 <= n <= |steps| ==> UniqueKeys(EverWritten(states[0], steps[..n]))
    requires forall n :: 0 <= n < |steps| && steps[n].Flush? ==> OnTop(steps[n].mem, EverWritten(states[0], steps[..n]))
    ensures Read(states[|steps|], user, snapshot) == Read(EverWritten(states[0], steps), user, snapshot)
    decreases |steps|
  {
    if steps != [] {
      var n := |steps| - 1;
      var before := steps[..n];
      assert Follows(states[n], steps[n], states[n + 1]);
      assert forall k :: 0 <= k <= n ==> before[..k] == steps[..k];
      assert forall i :: 0 <= i < n ==> Follows(states[i], steps[i], states[i + 1]);
      RunsPreserveReads(states[..n + 1], before, user, snapshot);
      assert steps[..n] == before && steps[..n + 1] == steps;
      assert UniqueKeys(EverWritten(states[0], steps[..n])) && UniqueKeys(EverWritten(states[0], steps[..n + 1]));
      LastStep(states[n], steps[n], states[n + 1], states[0], steps, user, snapshot);
    }
  }

  lemma LastStep(es: set<Entry>, step: Step, es': set<Entry>, first: set<Entry>, steps: seq<Step>, user: UserKey,
                 snapshot: SequenceNumber)
    requires steps != [] && steps[|steps| - 1] == step && Follows(es, step, es')
    requires step.Rearrange? ==> step.smallest <= snapshot
    requires UniqueKeys(EverWritten(first, steps)) && UniqueKeys(EverWritten(first, steps[..|steps| - 1]))
    requires step.Flush? ==> OnTop(step.mem, EverWritten(first, steps[..|steps| - 1]))
    requires Read(es, user, snapshot) == Read(EverWritten(first, steps[..|steps| - 1]), user, snapshot)
    ensures Read(es', user, snapshot) == Read(EverWritten(first, steps), user, snapshot)
  {
    var before := EverWritten(first, steps[..|steps| - 1]);
    if step.Flush? {
      assert EverWritten(first, steps) == before + step.mem;
      SameReadOnTop(es, before, step.mem, user, snapshot);
    } else {
      assert EverWritten(first, steps) == before + {} == before;
    }
  }

  /**
   The same for versions: after any flushes, moves and compactions at whose time no hazard was at a split key, a lookup
   in the last version finds what a lookup in everything ever flushed would.
   */
  lemma VersionRuns(vs: seq<Version>, steps: seq<Step>, user: UserKey, snapshot: SequenceNumber)
    requires |vs| == |steps| + 1
    requires forall i :: 0 <= i < |steps| ==> Follows(vs[i].Entries(), steps[i], vs[i + 1].Entries())
    requires forall i :: 0 <= i < |steps| && steps[i].Rearrange? ==> steps[i].smallest <= snapshot
    requires forall n :: 0 <= n <= |steps| ==> UniqueKeys(EverWritten(vs[0].Entries(), steps[..n]))
    requires forall n :: 0 <= n < |steps| && steps[n].Flush? ==>
               OnTop(steps[n].mem, EverWritten(vs[0].Entries(), steps[..n]))
    ensures Read(vs[|steps|].Entries(), user, snapshot) == Read(EverWritten(vs[0].Entries(), steps), user, snapshot)
  {
    var states := seq(|vs|, i requires 0 <= i < |vs| => vs[i].Entries());
    RunsPreserveReads(states, steps, user, snapshot);
  }
}
