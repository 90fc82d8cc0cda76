/**
 `SetupOtherInputs` adds boundary files to the level inputs but not to the level+1 inputs. This is a version where that
 loses a deletion: two level-2 files share user key 2, the older half stays behind, and its value comes back.
 */
module OpenBoundary {
  import opened Basics
  import opened DbFormat
  import opened Versions
  import opened CompactionInputs
  import opened Compactions
  import opened VersionBuilder
  import opened VersionSteps

  const NEW_ONE := Entry(InternalKey(1, 30, TypeValue), [1])
  const OLD_ONE := Entry(InternalKey(1, 5, TypeValue), [2])
  const DELETED_TWO := Entry(InternalKey(2, 20, TypeDeletion), [])
  const OLD_TWO := Entry(InternalKey(2, 10, TypeValue), [3])

  const UPPER := FileMetaData(3, 1, NEW_ONE.key, NEW_ONE.key, [NEW_ONE])
  const LOWER := FileMetaData(1, 1, OLD_ONE.key, DELETED_TWO.key, [OLD_ONE, DELETED_TWO])
  const LEFT_BEHIND := FileMetaData(2, 1, OLD_TWO.key, OLD_TWO.key, [OLD_TWO])

  const GAP := Version([[], [UPPER], [LOWER, LEFT_BEHIND], [], [], [], []])
  const MERGED := [NEW_ONE, OLD_ONE, DELETED_TWO]

  lemma GapFiles()
    ensures ValidFile(UPPER) && ValidFile(LOWER) && ValidFile(LEFT_BEHIND)
  {
  }

  lemma GapLevels()
    ensures Newer(UPPER.entries, LOWER.entries) && Newer(UPPER.entries, LEFT_BEHIND.entries)
    ensures Before(LOWER.largest, LEFT_BEHIND.smallest)
  {
  }

  lemma GapIsValid()
    ensures GAP.Valid()
  {
    GapFiles();
    GapLevels();
    hide Newer, ValidFile, Before;
    assert forall l :: 0 <= l < NUM_LEVELS && l != 1 && l != 2 ==> GAP.files[l] == [];
    assert AllValid([UPPER]) && AllValid([LOWER, LEFT_BEHIND]);
    assert Apart([UPPER]) && Apart([LOWER, LEFT_BEHIND]);
    assert LevelNewer([UPPER], [LOWER, LEFT_BEHIND]);
  }

  lemma GapIsPlaced()
    ensures Placed(GAP, map[1 := (2, LOWER), 2 := (2, LEFT_BEHIND), 3 := (1, UPPER)], 4)
  {
    assert forall l :: 0 <= l < NUM_LEVELS && l != 1 && l != 2 ==> GAP.files[l] == [];
    assert GAP.files[1] == [UPPER] && GAP.files[2] == [LOWER, LEFT_BEHIND];
  }

  lemma GapIsCanonical()
    ensures Canonical(GAP, 4)
  {
    hide Version.Valid, Placed;
    GapIsValid();
    GapIsPlaced();
    assert InOrder([]) && InOrder([UPPER]) && InOrder([LOWER, LEFT_BEHIND]);
  }

  /** The level inputs: the one file of level 1. */
  ghost predicate OnlyUpper(in0: seq<FileMetaData>) {
    in0 != [] && forall f :: f in in0 ==> f == UPPER
  }

  /** Whatever proper inputs a compaction of level 1 has, the level-2 file with the old half of key 2 is not one. */
  lemma GapInputs(in0: seq<FileMetaData>, in1: seq<FileMetaData>)
    requires ProperInputs(GAP, 1, in0, in1)
    ensures OnlyUpper(in0) && in1 == [LOWER] && !BoundaryClosed(GAP.files[2], in1)
  {
    assert in0[0] in in0 && GAP.files[1] == [UPPER];
    var fs := [LOWER, LEFT_BEHIND];
    assert fs[..1] == [LOWER] && [LOWER][..0] == [];
    assert Select([LOWER][..0], Some(1), Some(1)) == [];
    assert Select(fs[..1], Some(1), Some(1)) == [LOWER];
    assert Select(fs, Some(1), Some(1)) == [LOWER];
    assert LOWER in [LOWER] && LEFT_BEHIND in GAP.files[2] && IsBoundaryFile(LEFT_BEHIND, LOWER.largest);
  }

  lemma MergedEntries(in0: seq<FileMetaData>)
    requires OnlyUpper(in0)
    ensures IsMerge(MERGED, in0, [LOWER])
  {
    assert in0[0] in in0 && in0[0] == UPPER;
    assert UPPER in in0 + [LOWER] && LOWER in in0 + [LOWER];
    forall e | e in MERGED ensures e in FileEntries(in0 + [LOWER]) {
      assert e in UPPER.entries || e in LOWER.entries;
    }
    forall e | e in FileEntries(in0 + [LOWER]) ensures e in MERGED {
      assert e in [NEW_ONE] || e in [OLD_ONE, DELETED_TWO];
    }
  }

  lemma GapHazard(in0: seq<FileMetaData>)
    requires OnlyUpper(in0)
    ensures Hazard(GAP, 1, EntrySet(MERGED), RestEntries(GAP, 1, in0, [LOWER]), 30, 2, DELETED_TWO, OLD_TWO)
  {
    var rest := RestEntries(GAP, 1, in0, [LOWER]);
    assert in0[0] in in0;
    assert LEFT_BEHIND in GAP.files[2] && LEFT_BEHIND !in [LOWER] && OLD_TWO in LEFT_BEHIND.entries;
    assert forall l :: 3 <= l < NUM_LEVELS ==> GAP.files[l] == [];
    forall e | e in rest ensures e == OLD_TWO {
      var l, f :| 0 <= l < |GAP.files| && f in GAP.files[l] && !(l == 1 && f in in0) && !(l == 2 && f in [LOWER]) &&
                  e in f.entries;
    }
    assert Sees(rest, 2, 30, OLD_TWO) && Sees(EntrySet(MERGED), 2, 30, DELETED_TWO);
  }

  lemma GapReads(in0: seq<FileMetaData>)
    requires ProperInputs(GAP, 1, in0, [LOWER]) && OnlyUpper(in0)
    ensures Read(GAP.Entries(), 2, 30) == None
    ensures Read(EntrySet(Survivors(GAP, 1, MERGED, 30, |MERGED|)) + RestEntries(GAP, 1, in0, [LOWER]), 2, 30) ==
            Some(OLD_TWO.value)
  {
    GapIsValid();
    MergedEntries(in0);
    GapHazard(in0);
    EntriesBefore(GAP, 1, in0, [LOWER]);
    GAP.EntriesUnique();
    HazardShows(GAP, 1, MERGED, RestEntries(GAP, 1, in0, [LOWER]), 30, 2, DELETED_TWO, OLD_TWO);
  }

  /**
   The run itself: the file of level 1 is picked, its inputs are set up, and the compaction runs, however it cuts its
   outputs. Key 2 reads as deleted before it and as its old value after it.
   */
  method DeletedKeyComesBack(expandedLimit: nat, maxOverlap: nat, sizeOf: seq<Entry> -> nat, maxOutputFileSize: nat)
      returns (v': Version, nextFileNumber: nat)
    ensures Canonical(GAP, 4) && Canonical(v', nextFileNumber)
    ensures Read(GAP.Entries(), 2, 30) == None
    ensures Read(v'.Entries(), 2, 30) == Some(OLD_TWO.value)
  {
    GapIsCanonical();
    assert UPPER in GAP.files[1];
    hide Canonical, ProperInputs, OnlyUpper, IsMerge, SameReads, HazardFree, HazardAtSplit, Follows;
    assert GAP.Valid() by { GapIsValid(); }
    var in0, in1 := PickCompaction(GAP, 1, UPPER, expandedLimit);
    GapInputs(in0, in1);
    MergedEntries(in0);
    GapReads(in0);
    ghost var outputs;
    v', nextFileNumber, outputs :=
      RunCompaction(GAP, 4, 1, in0, in1, MERGED, 30, maxOverlap, sizeOf, maxOutputFileSize);
  }
}
