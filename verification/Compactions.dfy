/**
 The compaction loop (`DBImpl::DoCompactionWork`): which entries survive, how they are cut into files, and exactly when
 dropping the others leaves every read alone.
 */
module Compactions {
  import opened Basics
  import opened DbFormat
  import opened Versions
  import opened CompactionInputs
  import opened Grandparents

  /** No file below level+1 covers the user key. */
  ghost predicate BaseLevel(v: Version, level: nat, user: UserKey)
    requires |v.files| == NUM_LEVELS
  {
    forall l, f :: level + 2 <= l < NUM_LEVELS && f in v.files[l] ==> !Covers(f, user)
  }

  /**
   Is entry `i` of the merged input dropped? Rule (A): the entry before it has the same user key and is already visible
   to the oldest snapshot. (For the first entry of a key the loop compares the largest sequence number instead.)
   Otherwise a deletion visible to the oldest snapshot goes if nothing below level+1 can hold its key.
   */
  ghost predicate Dropped(v: Version, level: nat, input: seq<Entry>, smallest: SequenceNumber, i: nat)
    requires |v.files| == NUM_LEVELS && i < |input|
  {
    || (if i > 0 && input[i - 1].key.user == input[i].key.user then input[i - 1].key.seqno else MAX_SEQUENCE) <=
        smallest
    || (input[i].key.kind.TypeDeletion? && input[i].key.seqno <= smallest && BaseLevel(v, level, input[i].key.user))
  }

  ghost function Survivors(v: Version, level: nat, input: seq<Entry>, smallest: SequenceNumber, n: nat): (r: seq<Entry>)
    requires |v.files| == NUM_LEVELS && n <= |input|
    ensures forall e :: e in r <==> exists i :: 0 <= i < n && input[i] == e && !Dropped(v, level, input, smallest, i)
  {
    if n == 0 then [] else
      var r := Survivors(v, level, input, smallest, n - 1);
      if Dropped(v, level, input, smallest, n - 1) then r else r + [input[n - 1]]
  }

  lemma {:induction false} SurvivorsSorted(v: Version, level: nat, input: seq<Entry>, smallest: SequenceNumber, n: nat)
    requires |v.files| == NUM_LEVELS && n <= |input| && Sorted(input)
    ensures Sorted(Survivors(v, level, input, smallest, n))
  {
    if n > 0 {
      var r := Survivors(v, level, input, smallest, n - 1);
      SurvivorsSorted(v, level, input, smallest, n - 1);
      forall j | 0 <= j < |r| ensures Before(r[j].key, input[n - 1].key) {
        assert r[j] in r;
      }
    }
  }

  /** The entries of a list of files, one file after the other. */
  ghost function Contents(fs: seq<FileMetaData>): seq<Entry> {
    if fs == [] then [] else Contents(fs[..|fs| - 1]) + fs[|fs| - 1].entries
  }

  lemma {:induction false} ContentsHas(fs: seq<FileMetaData>)
    ensures forall e :: e in Contents(fs) <==> exists f :: f in fs && e in f.entries
  {
    if fs != [] {
      var n := |fs| - 1;
      ContentsHas(fs[..n]);
      assert fs == fs[..n] + [fs[n]];
    }
  }

  // ---------------------------------------------------------------------------------------------------------------
  // Where the outputs are cut

  /** When an output is closed: in front of input entries that `stopBefore` names, and at `maxSize` by `sizeOf`. */
  datatype Cutting = Cutting(stopBefore: nat -> bool, sizeOf: seq<Entry> -> nat, maxSize: nat)

  /** Nothing was added to a file that had reached the maximum. */
  ghost predicate NotTooLarge(es: seq<Entry>, c: Cutting) {
    forall k :: 0 < k < |es| ==> c.sizeOf(es[..k]) < c.maxSize
  }

  /** No file has entries on both sides of a place to stop. */
  ghost predicate NotAcross(es: seq<Entry>, input: seq<Entry>, c: Cutting) {
    forall j :: 0 <= j < |input| && c.stopBefore(j) ==>
      (forall e :: e in es ==> Before(e.key, input[j].key)) || (forall e :: e in es ==> !Before(e.key, input[j].key))
  }

  /** Between the last of `es` and `next` there is a reason to begin another file. */
  ghost predicate CutBetween(es: seq<Entry>, next: Entry, input: seq<Entry>, c: Cutting) {
    c.sizeOf(es) >= c.maxSize || exists j :: StopsBetween(es, next, input, c, j)
  }

  ghost predicate StopsBetween(es: seq<Entry>, next: Entry, input: seq<Entry>, c: Cutting, j: int) {
    0 <= j < |input| && c.stopBefore(j) && (forall e :: e in es ==> Before(e.key, input[j].key)) &&
    !Before(next.key, input[j].key)
  }

  /** The outputs are cut where they have to be, and nowhere else. */
  ghost predicate CutAsAsked(outputs: seq<FileMetaData>, input: seq<Entry>, c: Cutting) {
    && (forall t :: 0 <= t < |outputs| ==>
          outputs[t].entries != [] && NotTooLarge(outputs[t].entries, c) && NotAcross(outputs[t].entries, input, c))
    && forall t :: 0 <= t < |outputs| - 1 ==> CutBetween(outputs[t].entries, outputs[t + 1].entries[0], input, c)
  }

  /** The same for the file being built, with places to stop looked at up to `i`. */
  ghost predicate Growing(builder: seq<Entry>, input: seq<Entry>, i: nat, c: Cutting)
    requires i <= |input|
  {
    && (forall e :: e in builder ==> e in input[..i])
    && (forall k :: 0 < k <= |builder| ==> c.sizeOf(builder[..k]) < c.maxSize)
    && forall j, e :: 0 <= j < i && c.stopBefore(j) && e in builder ==> !Before(e.key, input[j].key)
  }

  /** The last file was closed for a reason that the entries since then have not passed over. */
  ghost predicate ClosedFor(es: seq<Entry>, builder: seq<Entry>, input: seq<Entry>, i: nat, c: Cutting)
    requires i <= |input|
  {
    c.sizeOf(es) >= c.maxSize || exists j :: ClosedAt(es, builder, input, i, c, j)
  }

  ghost predicate ClosedAt(es: seq<Entry>, builder: seq<Entry>, input: seq<Entry>, i: nat, c: Cutting, j: int)
    requires i <= |input|
  {
    0 <= j < i && c.stopBefore(j) && (forall e :: e in es ==> Before(e.key, input[j].key)) &&
    (builder != [] ==> !Before(builder[0].key, input[j].key))
  }

  ghost predicate CutSoFar(outputs: seq<FileMetaData>, builder: seq<Entry>, input: seq<Entry>, i: nat, c: Cutting)
    requires i <= |input|
  {
    CutAsAsked(outputs, input, c) && Growing(builder, input, i, c) &&
    (outputs != [] ==> ClosedFor(outputs[|outputs| - 1].entries, builder, input, i, c))
  }

  lemma NothingCut(input: seq<Entry>, c: Cutting)
    ensures CutSoFar([], [], input, 0, c)
  {
  }

  lemma BeforeLater(input: seq<Entry>, i: nat, j: nat, e: Entry)
    requires Sorted(input) && i <= j < |input| && e in input[..i]
    ensures Before(e.key, input[j].key)
  {
    var k :| 0 <= k < i && input[..i][k] == e;
    assert input[k] == e;
  }

  /** The place to stop at entry `i` is passed: there is none, or nothing is being built. */
  lemma PassStop(outputs: seq<FileMetaData>, builder: seq<Entry>, input: seq<Entry>, i: nat, c: Cutting)
    requires Sorted(input) && i < |input| && CutSoFar(outputs, builder, input, i, c)
    requires c.stopBefore(i) ==> builder == []
    ensures CutSoFar(outputs, builder, input, i + 1, c)
  {
    assert Growing(builder, input, i + 1, c) by {
      forall e | e in builder ensures e in input[..i + 1] { assert e in input[..i]; }
    }
    if outputs != [] {
      var es := outputs[|outputs| - 1].entries;
      if j :| ClosedAt(es, builder, input, i, c, j) { assert ClosedAt(es, builder, input, i + 1, c, j); }
    }
  }

  /** A file closed is cut as asked, and so is the one before it. */
  lemma OneMoreFile(outputs: seq<FileMetaData>, f: FileMetaData, input: seq<Entry>, i: nat, c: Cutting)
    requires Sorted(input) && i <= |input| && CutAsAsked(outputs, input, c) && f.entries != []
    requires NotTooLarge(f.entries, c) && forall e :: e in f.entries ==> e in input[..i]
    requires forall j, e :: 0 <= j < i && c.stopBefore(j) && e in f.entries ==> !Before(e.key, input[j].key)
    requires outputs != [] ==> ClosedFor(outputs[|outputs| - 1].entries, f.entries, input, i, c)
    ensures CutAsAsked(outputs + [f], input, c)
  {
    var all := outputs + [f];
    assert NotAcross(f.entries, input, c) by {
      forall j, e | i <= j < |input| && e in f.entries ensures Before(e.key, input[j].key) {
        BeforeLater(input, i, j, e);
      }
    }
    if outputs != [] {
      var es := outputs[|outputs| - 1].entries;
      if j :| ClosedAt(es, f.entries, input, i, c, j) { assert StopsBetween(es, f.entries[0], input, c, j); }
    }
    forall t | 0 <= t < |all| - 1 ensures CutBetween(all[t].entries, all[t + 1].entries[0], input, c) {
      assert t < |outputs| - 1 ==> CutBetween(outputs[t].entries, outputs[t + 1].entries[0], input, c);
    }
  }

  /** In front of entry `i` the file being built is closed. */
  lemma CloseAtStop(outputs: seq<FileMetaData>, f: FileMetaData, input: seq<Entry>, i: nat, c: Cutting)
    requires Sorted(input) && i < |input| && CutSoFar(outputs, f.entries, input, i, c)
    requires f.entries != [] && c.stopBefore(i)
    ensures CutSoFar(outputs + [f], [], input, i + 1, c)
  {
    OneMoreFile(outputs, f, input, i, c);
    forall e | e in f.entries ensures Before(e.key, input[i].key) { BeforeLater(input, i, i, e); }
    assert ClosedAt(f.entries, [], input, i + 1, c, i);
    assert (outputs + [f])[|outputs|] == f;
  }

  /** Entry `i` itself is behind all places to stop so far. */
  lemma BehindStops(builder: seq<Entry>, input: seq<Entry>, i: nat, c: Cutting)
    requires Sorted(input) && i < |input| && Growing(builder, input, i + 1, c)
    ensures forall e :: e in builder + [input[i]] ==> e in input[..i + 1]
    ensures forall j, e :: 0 <= j < i + 1 && c.stopBefore(j) && e in builder + [input[i]] ==>
              !Before(e.key, input[j].key)
  {
    assert input[..i + 1][i] == input[i];
  }

  lemma StaysClosed(es: seq<Entry>, builder: seq<Entry>, input: seq<Entry>, i: nat, c: Cutting)
    requires Sorted(input) && i < |input| && ClosedFor(es, builder, input, i + 1, c)
    ensures ClosedFor(es, builder + [input[i]], input, i + 1, c)
  {
    var n := i + 1;
    if j :| ClosedAt(es, builder, input, n, c, j) {
      assert ClosedAt(es, builder + [input[i]], input, n, c, j);
    }
  }

  /** A surviving entry goes to the file being built, which stays below the maximum. */
  lemma KeepBuilding(outputs: seq<FileMetaData>, builder: seq<Entry>, input: seq<Entry>, i: nat, c: Cutting)
    requires Sorted(input) && i < |input| && CutSoFar(outputs, builder, input, i + 1, c)
    requires c.sizeOf(builder + [input[i]]) < c.maxSize
    ensures CutSoFar(outputs, builder + [input[i]], input, i + 1, c)
  {
    var grown := builder + [input[i]];
    BehindStops(builder, input, i, c);
    forall k | 0 < k <= |grown| ensures c.sizeOf(grown[..k]) < c.maxSize {
      assert grown[..k] == if k <= |builder| then builder[..k] else grown;
    }
    if outputs != [] { StaysClosed(outputs[|outputs| - 1].entries, builder, input, i, c); }
  }

  /** Or it brings that file to the maximum. */
  lemma CloseFull(outputs: seq<FileMetaData>, builder: seq<Entry>, f: FileMetaData, input: seq<Entry>, i: nat,
                  c: Cutting)
    requires Sorted(input) && i < |input| && CutSoFar(outputs, builder, input, i + 1, c)
    requires f.entries == builder + [input[i]] && c.sizeOf(f.entries) >= c.maxSize
    ensures CutSoFar(outputs + [f], [], input, i + 1, c)
  {
    BehindStops(builder, input, i, c);
    forall k | 0 < k < |f.entries| ensures c.sizeOf(f.entries[..k]) < c.maxSize {
      assert f.entries[..k] == builder[..k];
    }
    if outputs != [] { StaysClosed(outputs[|outputs| - 1].entries, builder, input, i, c); }
    OneMoreFile(outputs, f, input, i + 1, c);
    assert (outputs + [f])[|outputs|] == f;
  }

  lemma CloseLast(outputs: seq<FileMetaData>, f: FileMetaData, input: seq<Entry>, c: Cutting)
    requires Sorted(input) && CutSoFar(outputs, f.entries, input, |input|, c) && f.entries != []
    ensures CutAsAsked(outputs + [f], input, c)
  {
    OneMoreFile(outputs, f, input, |input|, c);
  }

  lemma NoneOpen(outputs: seq<FileMetaData>, input: seq<Entry>, c: Cutting)
    requires CutSoFar(outputs, [], input, |input|, c)
    ensures CutAsAsked(outputs, input, c)
  {
  }

  /** No output overlaps more than the limit allows, since none has a place to stop inside. */
  lemma OutputsOverlapLittle(outputs: seq<FileMetaData>, input: seq<Entry>, gs: seq<FileMetaData>, limit: nat,
                             sizeOf: seq<Entry> -> nat, maxSize: nat, o: FileMetaData)
    requires CutAsAsked(outputs, input, Cutting(Stops(gs, limit, input), sizeOf, maxSize)) && o in outputs
    requires Apart(gs) && AllValid(gs) && Sorted(input) && Sorted(o.entries)
    requires forall e :: e in o.entries ==> e in input
    ensures LittleOverlap(o.entries, gs, limit)
  {
    var c, es := Cutting(Stops(gs, limit, input), sizeOf, maxSize), o.entries;
    var t :| 0 <= t < |outputs| && outputs[t] == o;
    assert es != [] && NotAcross(es, input, c);
    var a, b := Ends(es, input);
    hide CutAsAsked, StopsAt, LittleOverlap, Apart, AllValid;
    forall j | a < j <= b ensures !StopsAt(gs, limit, input, j) {
      assert c.stopBefore(j) == StopsAt(gs, limit, input, j);
      if c.stopBefore(j) { NoStopInside(es, input, c, a, b, j); }
    }
    WithoutStopLittle(gs, limit, input, a, b, es);
  }

  /** Where in the input the first and the last entry are. */
  lemma Ends(es: seq<Entry>, input: seq<Entry>) returns (a: nat, b: nat)
    requires Sorted(input) && Sorted(es) && es != [] && forall e :: e in es ==> e in input
    ensures a <= b < |input| && input[a] == es[0] && input[b] == es[|es| - 1]
  {
    assert es[0] in es && es[|es| - 1] in es;
    a :| 0 <= a < |input| && input[a] == es[0];
    b :| 0 <= b < |input| && input[b] == es[|es| - 1];
    assert |es| > 1 ==> Before(es[0].key, es[|es| - 1].key);
  }

  lemma NoStopInside(es: seq<Entry>, input: seq<Entry>, c: Cutting, a: nat, b: nat, j: nat)
    requires Sorted(input) && es != [] && a < j <= b < |input| && input[a] == es[0] && input[b] == es[|es| - 1]
    requires NotAcross(es, input, c)
    ensures !c.stopBefore(j)
  {
    assert es[0] in es && es[|es| - 1] in es;
    assert Before(input[a].key, input[j].key) && (j == b || Before(input[j].key, input[b].key));
  }

  class Compaction {
    const level: nat
    const inputVersion: Version
    const grandparents: seq<FileMetaData>
    const maxGrandParentOverlap: nat
    var levelPtrs: seq<nat>
    var grandparentIndex: nat
    var seenKey: bool
    var overlappedBytes: nat

    ghost predicate Valid()
      reads this`levelPtrs
    {
      && level + 1 < NUM_LEVELS
      && inputVersion.Valid()
      && |levelPtrs| == NUM_LEVELS
      && forall l :: 0 <= l < NUM_LEVELS ==> levelPtrs[l] <= |inputVersion.files[l]|
    }

    /** The cursors have passed only files that end before the last user key asked about. */
    ghost predicate PassedOnlyBefore(asked: Option<UserKey>)
      requires Valid()
      reads this`levelPtrs
    {
      forall l, j :: 0 <= l < NUM_LEVELS && 0 <= j < levelPtrs[l] ==>
                       asked.Some? && inputVersion.files[l][j].largest.user < asked.value
    }

    /** The grandparents have been asked about the first `i` keys. */
    ghost predicate HasAsked(input: seq<Entry>, i: nat)
      requires i <= |input|
      reads this`grandparentIndex, this`seenKey, this`overlappedBytes
    {
      Asked(grandparents, maxGrandParentOverlap, input, i) == Overlap(grandparentIndex, seenKey, overlappedBytes)
    }

    constructor (level: nat, inputVersion: Version, grandparents: seq<FileMetaData>, maxGrandParentOverlap: nat)
      requires level + 1 < NUM_LEVELS && inputVersion.Valid()
      ensures Valid() && this.level == level && this.inputVersion == inputVersion
      ensures this.grandparents == grandparents && this.maxGrandParentOverlap == maxGrandParentOverlap
      ensures PassedOnlyBefore(None) && forall input :: HasAsked(input, 0)
    {
      this.level, this.inputVersion := level, inputVersion;
      this.grandparents, this.maxGrandParentOverlap := grandparents, maxGrandParentOverlap;
      levelPtrs := [0, 0, 0, 0, 0, 0, 0];
      grandparentIndex, seenKey, overlappedBytes := 0, false, 0;
    }

    /** Whether the output being built would overlap too many bytes of level+2 with this key. */
    method ShouldStopBefore(key: InternalKey, ghost input: seq<Entry>, ghost i: nat) returns (stop: bool)
      requires i < |input| && key == input[i].key && HasAsked(input, i)
      modifies this`grandparentIndex, this`seenKey, this`overlappedBytes
      ensures HasAsked(input, i + 1) && stop == StopsAt(grandparents, maxGrandParentOverlap, input, i)
    {
      ghost var from, before := grandparentIndex, overlappedBytes;
      PassNone(grandparents, from);
      NextAsked(grandparents, maxGrandParentOverlap, input, i);
      hide BytesOf, Asked, Overlapped, Reached, Before;
      while grandparentIndex < |grandparents| && Before(grandparents[grandparentIndex].largest, key)
        invariant from <= grandparentIndex <= |grandparents| && seenKey == (i > 0)
        invariant Reached(grandparents, from, key) == Reached(grandparents, grandparentIndex, key)
        invariant overlappedBytes == before + if seenKey then BytesOf(grandparents, from, grandparentIndex) else 0
        decreases |grandparents| - grandparentIndex
      {
        ReachedFurther(grandparents, grandparentIndex, key);
        if seenKey {
          PassOne(grandparents, from, grandparentIndex);
          overlappedBytes := overlappedBytes + grandparents[grandparentIndex].fileSize;
        }
        grandparentIndex := grandparentIndex + 1;
      }
      ReachedFurther(grandparents, grandparentIndex, key);
      seenKey := true;
      if overlappedBytes > maxGrandParentOverlap {
        overlappedBytes := 0;
        return true;
      }
      return false;
    }

    /**
     `IsBaseLevelForKey`: the cursors only move forward, which is enough because the keys asked about never go back.
     */
    method IsBaseLevelForKey(user: UserKey, ghost asked: Option<UserKey>) returns (r: bool)
      requires Valid() && PassedOnlyBefore(asked) && (asked.Some? ==> asked.value <= user)
      modifies this`levelPtrs
      ensures Valid() && PassedOnlyBefore(Some(user))
      ensures r <==> BaseLevel(inputVersion, level, user)
    {
      for lvl := level + 2 to NUM_LEVELS
        invariant Valid() && PassedOnlyBefore(Some(user))
        invariant forall l, f :: level + 2 <= l < lvl && f in inputVersion.files[l] ==> !Covers(f, user)
      {
        var files := inputVersion.files[lvl];
        while levelPtrs[lvl] < |files|
          invariant Valid() && PassedOnlyBefore(Some(user))
          decreases |files| - levelPtrs[lvl]
        {
          var f := files[levelPtrs[lvl]];
          if user <= f.largest.user {
            if user >= f.smallest.user {
              assert f in files && Covers(f, user);
              return false;
            }
            break;
          }
          levelPtrs := levelPtrs[lvl := levelPtrs[lvl] + 1];
        }
        NotCovered(files, levelPtrs[lvl], user);
      }
      return true;
    }

    lemma NotCovered(files: seq<FileMetaData>, at: nat, user: UserKey)
      requires Apart(files) && AllValid(files) && at <= |files|
      requires forall j :: 0 <= j < at ==> files[j].largest.user < user
      requires at < |files| ==> user < files[at].smallest.user
      ensures forall f :: f in files ==> !Covers(f, user)
    {
      forall f | f in files ensures !Covers(f, user) {
        var j :| 0 <= j < |files| && files[j] == f;
        if at < j {
          ValidFileOrdered(files[at]);
        }
      }
    }

    /**
     The loop of `DoCompactionWork` over the merged input. The output files are cut wherever the overlap with level+2 or
     the size limit says, and nowhere else; the table builder sizes a file by `sizeOf`.
     */
    method DoCompactionWork(input: seq<Entry>, smallestSnapshot: SequenceNumber, sizeOf: seq<Entry> -> nat,
                            maxOutputFileSize: nat, nextFileNumber: nat)
        returns (outputs: seq<FileMetaData>)
      requires Valid() && PassedOnlyBefore(None) && HasAsked(input, 0) && Sorted(input)
      modifies this
      ensures Contents(outputs) == Survivors(inputVersion, level, input, smallestSnapshot, |input|)
      ensures Written(outputs, sizeOf, nextFileNumber)
      ensures CutAsAsked(outputs, input, Cutting(Stops(grandparents, maxGrandParentOverlap, input), sizeOf,
                                                 maxOutputFileSize))
    {
      ghost var cutting := Cutting(Stops(grandparents, maxGrandParentOverlap, input), sizeOf, maxOutputFileSize);
      WrittenNothing(sizeOf, nextFileNumber);
      NothingCut(input, cutting);
      hide Dropped, BaseLevel, Written, Sorted, CutSoFar, CutAsAsked, HasAsked, StopsAt;
      outputs := [];
      var builder: seq<Entry> := [];
      var currentUserKey: Option<UserKey> := None;
      var lastSequenceForKey: SequenceNumber := MAX_SEQUENCE;
      for i := 0 to |input|
        invariant Valid() && PassedOnlyBefore(currentUserKey)
        invariant KeyState(input, i, currentUserKey, lastSequenceForKey)
        invariant Contents(outputs) + builder == Survivors(inputVersion, level, input, smallestSnapshot, i)
        invariant Written(outputs, sizeOf, nextFileNumber) && CutSoFar(outputs, builder, input, i, cutting)
        invariant HasAsked(input, i)
      {
        var stop := ShouldStopBefore(input[i].key, input, i);
        assert stop == cutting.stopBefore(i);
        SurvivorsSorted(inputVersion, level, input, smallestSnapshot, i);
        outputs, builder := CloseIfAsked(stop, outputs, builder, input, i, sizeOf, nextFileNumber, cutting);
        var drop;
        drop, currentUserKey, lastSequenceForKey :=
            Decide(input, i, currentUserKey, lastSequenceForKey, smallestSnapshot);
        if !drop {
          OneMoreSurvivor(inputVersion, level, input, smallestSnapshot, i, Contents(outputs), builder);
          outputs, builder :=
              AddSurvivor(outputs, builder, input, i, sizeOf, maxOutputFileSize, nextFileNumber, cutting);
        }
      }
      if builder != [] {
        SurvivorsSorted(inputVersion, level, input, smallestSnapshot, |input|);
        ghost var f;
        outputs, f := FinishCompactionOutputFile(outputs, builder, sizeOf, nextFileNumber);
        CloseLast(outputs[..|outputs| - 1], f, input, cutting);
      } else {
        NoneOpen(outputs, input, cutting);
      }
    }

    /** In front of entry `i` closes the file being built, if there is one and it has to stop here. */
    static method CloseIfAsked(stop: bool, outputs: seq<FileMetaData>, builder: seq<Entry>, ghost input: seq<Entry>,
                               ghost i: nat, sizeOf: seq<Entry> -> nat, nextFileNumber: nat, ghost cutting: Cutting)
        returns (outputs': seq<FileMetaData>, builder': seq<Entry>)
      requires Sorted(input) && i < |input| && Written(outputs, sizeOf, nextFileNumber)
      requires stop == cutting.stopBefore(i) && CutSoFar(outputs, builder, input, i, cutting)
      requires Sorted(Contents(outputs) + builder)
      ensures Contents(outputs') + builder' == Contents(outputs) + builder
      ensures Written(outputs', sizeOf, nextFileNumber) && CutSoFar(outputs', builder', input, i + 1, cutting)
    {
      hide Written, Sorted, CutSoFar;
      outputs', builder' := outputs, builder;
      if stop && builder != [] {
        ghost var f;
        outputs', f := FinishCompactionOutputFile(outputs, builder, sizeOf, nextFileNumber);
        CloseAtStop(outputs, f, input, i, cutting);
        builder' := [];
      } else {
        PassStop(outputs, builder, input, i, cutting);
      }
    }

    /** Adds entry `i` to the file being built, and closes that once it is large enough. */
    static method AddSurvivor(outputs: seq<FileMetaData>, builder: seq<Entry>, input: seq<Entry>, i: nat,
                              sizeOf: seq<Entry> -> nat, maxOutputFileSize: nat, nextFileNumber: nat,
                              ghost cutting: Cutting)
        returns (outputs': seq<FileMetaData>, builder': seq<Entry>)
      requires Sorted(input) && i < |input| && Written(outputs, sizeOf, nextFileNumber)
      requires cutting.sizeOf == sizeOf && cutting.maxSize == maxOutputFileSize
      requires CutSoFar(outputs, builder, input, i + 1, cutting) && Sorted(Contents(outputs) + (builder + [input[i]]))
      ensures Contents(outputs') + builder' == Contents(outputs) + (builder + [input[i]])
      ensures Written(outputs', sizeOf, nextFileNumber) && CutSoFar(outputs', builder', input, i + 1, cutting)
    {
      hide Written, Sorted, CutSoFar;
      outputs', builder' := outputs, builder + [input[i]];
      if sizeOf(builder') >= maxOutputFileSize {
        ghost var f;
        outputs', f := FinishCompactionOutputFile(outputs, builder', sizeOf, nextFileNumber);
        CloseFull(outputs, builder, f, input, i, cutting);
        builder' := [];
      } else {
        KeepBuilding(outputs, builder, input, i, cutting);
      }
    }

    static lemma OneMoreSurvivor(v: Version, level: nat, input: seq<Entry>, smallest: SequenceNumber, i: nat,
                                 written: seq<Entry>, builder: seq<Entry>)
      requires |v.files| == NUM_LEVELS && i < |input| && Sorted(input) && !Dropped(v, level, input, smallest, i)
      requires written + builder == Survivors(v, level, input, smallest, i)
      ensures written + (builder + [input[i]]) == Survivors(v, level, input, smallest, i + 1)
      ensures Sorted(written + (builder + [input[i]]))
    {
      SurvivorsSorted(v, level, input, smallest, i + 1);
      assert written + (builder + [input[i]]) == written + builder + [input[i]];
    }

    /** One round of the loop's key bookkeeping and its drop rules. */
    method Decide(input: seq<Entry>, i: nat, currentUserKey: Option<UserKey>, lastSequenceForKey: SequenceNumber,
                  smallestSnapshot: SequenceNumber)
        returns (drop: bool, currentUserKey': Option<UserKey>, lastSequenceForKey': SequenceNumber)
      requires Valid() && PassedOnlyBefore(currentUserKey)
      requires i < |input| && Sorted(input) && KeyState(input, i, currentUserKey, lastSequenceForKey)
      modifies this`levelPtrs
      ensures Valid() && PassedOnlyBefore(currentUserKey')
      ensures KeyState(input, i + 1, currentUserKey', lastSequenceForKey')
      ensures drop <==> Dropped(inputVersion, level, input, smallestSnapshot, i)
    {
      var e := input[i];
      currentUserKey', lastSequenceForKey' := currentUserKey, lastSequenceForKey;
      if currentUserKey.None? || e.key.user != currentUserKey.value {
        currentUserKey' := Some(e.key.user);
        lastSequenceForKey' := MAX_SEQUENCE;
      }
      drop := false;
      if lastSequenceForKey' <= smallestSnapshot {
        drop := true;
      } else if e.key.kind.TypeDeletion? && e.key.seqno <= smallestSnapshot {
        drop := IsBaseLevelForKey(e.key.user, currentUserKey);
      }
      lastSequenceForKey' := e.key.seqno;
    }
  }

  /** What the loop remembers after `i` entries: the last user key and the last sequence number. */
  ghost predicate KeyState(input: seq<Entry>, i: nat, currentUserKey: Option<UserKey>,
                           lastSequenceForKey: SequenceNumber)
    requires i <= |input|
  {
    && currentUserKey == (if i > 0 then Some(input[i - 1].key.user) else None)
    && (i > 0 ==> lastSequenceForKey == input[i - 1].key.seqno)
  }

  /** Finished outputs: valid files in key order, numbered in the order they were opened. */
  ghost predicate Written(outputs: seq<FileMetaData>, sizeOf: seq<Entry> -> nat, nextFileNumber: nat) {
    && AllValid(outputs) && Apart(outputs)
    && forall i :: 0 <= i < |outputs| ==>
         outputs[i].number == nextFileNumber + i && outputs[i].fileSize == sizeOf(outputs[i].entries)
  }

  lemma WrittenNothing(sizeOf: seq<Entry> -> nat, nextFileNumber: nat)
    ensures Written([], sizeOf, nextFileNumber)
  {
  }

  method FinishCompactionOutputFile(outputs: seq<FileMetaData>, builder: seq<Entry>, sizeOf: seq<Entry> -> nat,
                                    nextFileNumber: nat)
      returns (r: seq<FileMetaData>, ghost f: FileMetaData)
    requires Written(outputs, sizeOf, nextFileNumber)
    requires builder != [] && Sorted(Contents(outputs) + builder)
    ensures Written(r, sizeOf, nextFileNumber)
    ensures Contents(r) == Contents(outputs) + builder
    ensures r == outputs + [f] && f.entries == builder
  {
    var file := FileMetaData(nextFileNumber + |outputs|, sizeOf(builder), builder[0].key, builder[|builder| - 1].key,
                             builder);
    r, f := outputs + [file], file;
    assert r[..|r| - 1] == outputs;
    SortedParts(Contents(outputs), builder);
    AppendedApart(outputs, f);
  }

  lemma AppendedApart(outputs: seq<FileMetaData>, f: FileMetaData)
    requires AllValid(outputs) && Apart(outputs) && ValidFile(f) && Sorted(Contents(outputs) + f.entries)
    ensures AllValid(outputs + [f]) && Apart(outputs + [f])
  {
    ContentsHas(outputs);
    forall i | 0 <= i < |outputs| ensures Before(outputs[i].largest, f.smallest) {
      var g := outputs[i];
      assert g in outputs && ValidFile(g);
      var last := g.entries[|g.entries| - 1];
      assert last in g.entries && last in Contents(outputs);
      SortedAcross(Contents(outputs), f.entries, last);
    }
  }

  lemma SortedAcross(a: seq<Entry>, b: seq<Entry>, e: Entry)
    requires Sorted(a + b) && e in a && b != []
    ensures Before(e.key, b[0].key)
  {
    var k :| 0 <= k < |a| && a[k] == e;
    assert (a + b)[k] == e && (a + b)[|a|] == b[0];
  }

  lemma SortedParts(a: seq<Entry>, b: seq<Entry>)
    requires Sorted(a + b)
    ensures Sorted(b)
  {
    assert forall i :: 0 <= i < |b| ==> b[i] == (a + b)[|a| + i];
  }

  // ---------------------------------------------------------------------------------------------------------------
  // What the drop rules do to reads

  /** Reads at every snapshot a client may still hold are the same. */
  ghost predicate SameReads(before: set<Entry>, after: set<Entry>, smallest: SequenceNumber) {
    forall user, snapshot: SequenceNumber :: smallest <= snapshot ==>
      Read(after, user, snapshot) == Read(before, user, snapshot)
  }

  /**
   The hazard: the newest input entry for `user` that the oldest snapshot sees is a deletion `t` due to be dropped, and
   the newest entry `r` that snapshot sees outside the inputs is a value older than `t`.
   */
  ghost predicate Hazard(v: Version, level: nat, inputs: set<Entry>, rest: set<Entry>, smallest: SequenceNumber,
                         user: UserKey, t: Entry, r: Entry)
    requires |v.files| == NUM_LEVELS
  {
    && Newest(inputs, user, smallest, t) && t.key.kind.TypeDeletion? && BaseLevel(v, level, user)
    && Newest(rest, user, smallest, r) && r.key.kind.TypeValue? && Tag(r.key) < Tag(t.key)
  }

  ghost predicate HazardFree(v: Version, level: nat, inputs: set<Entry>, rest: set<Entry>, smallest: SequenceNumber)
    requires |v.files| == NUM_LEVELS
  {
    forall user, t, r :: !Hazard(v, level, inputs, rest, smallest, user, t, r)
  }

  lemma DroppedIsHidden(v: Version, level: nat, input: seq<Entry>, smallest: SequenceNumber, i: nat, user: UserKey,
                        snapshot: SequenceNumber)
    requires |v.files| == NUM_LEVELS && Sorted(input) && i < |input| && smallest <= snapshot && smallest < MAX_SEQUENCE
    requires Dropped(v, level, input, smallest, i) && Sees(EntrySet(input), user, snapshot, input[i])
    requires forall o :: Sees(EntrySet(input), user, snapshot, o) ==> Tag(o.key) <= Tag(input[i].key)
    ensures Newest(EntrySet(input), user, smallest, input[i])
    ensures input[i].key.kind.TypeDeletion? && BaseLevel(v, level, user)
  {
    if i > 0 && input[i - 1].key.user == user && input[i - 1].key.seqno <= smallest {
      assert Sees(EntrySet(input), user, snapshot, input[i - 1]);
    }
    forall o | Sees(EntrySet(input), user, smallest, o) ensures Tag(o.key) <= Tag(input[i].key) {
      assert Sees(EntrySet(input), user, snapshot, o);
    }
  }

  /** An entry older than another visible input entry for its key never survives. */
  lemma OlderIsDropped(v: Version, level: nat, input: seq<Entry>, smallest: SequenceNumber, t: Entry, o: Entry)
    requires |v.files| == NUM_LEVELS && Sorted(input) && t in input && o in input
    requires t.key.user == o.key.user && t.key.seqno <= smallest && Tag(o.key) < Tag(t.key)
    ensures o !in Survivors(v, level, input, smallest, |input|)
  {
    var j :| 0 <= j < |input| && input[j] == t;
    forall i | 0 <= i < |input| && input[i] == o ensures Dropped(v, level, input, smallest, i) {
      assert j < i;
      assert input[i - 1] == t || Before(t.key, input[i - 1].key);
    }
  }

  lemma TombstoneIsDropped(v: Version, level: nat, input: seq<Entry>, smallest: SequenceNumber, t: Entry)
    requires |v.files| == NUM_LEVELS && Sorted(input) && t in input
    requires t.key.seqno <= smallest && t.key.kind.TypeDeletion? && BaseLevel(v, level, t.key.user)
    ensures t !in Survivors(v, level, input, smallest, |input|)
  {
  }

  lemma SurvivorsAmongInputs(v: Version, level: nat, input: seq<Entry>, smallest: SequenceNumber)
    requires |v.files| == NUM_LEVELS
    ensures EntrySet(Survivors(v, level, input, smallest, |input|)) <= EntrySet(input)
  {
  }

  lemma NewestDropped(v: Version, level: nat, input: seq<Entry>, rest: set<Entry>, smallest: SequenceNumber,
                      user: UserKey, snapshot: SequenceNumber, e: Entry)
    requires |v.files| == NUM_LEVELS && Sorted(input) && UniqueKeys(EntrySet(input) + rest)
    requires smallest <= snapshot && smallest < MAX_SEQUENCE
    requires forall t, r :: !Hazard(v, level, EntrySet(input), rest, smallest, user, t, r)
    requires Newest(EntrySet(input) + rest, user, snapshot, e)
    requires e !in EntrySet(Survivors(v, level, input, smallest, |input|)) + rest
    ensures Shown(e) == None
    ensures Read(EntrySet(Survivors(v, level, input, smallest, |input|)) + rest, user, snapshot) == None
  {
    var inputs := EntrySet(input);
    var after := EntrySet(Survivors(v, level, input, smallest, |input|)) + rest;
    SurvivorsAmongInputs(v, level, input, smallest);
    var i :| 0 <= i < |input| && input[i] == e;
    forall o | Sees(inputs, user, snapshot, o) ensures Tag(o.key) <= Tag(e.key) {
      assert Sees(inputs + rest, user, snapshot, o);
    }
    DroppedIsHidden(v, level, input, smallest, i, user, snapshot);
    if r :| Newest(after, user, snapshot, r) {
      ReadIs(after, user, snapshot, r);
      NothingUnderTombstone(v, level, input, rest, smallest, user, snapshot, e, r);
    }
  }

  lemma ReadUnchanged(v: Version, level: nat, input: seq<Entry>, rest: set<Entry>, smallest: SequenceNumber,
                      user: UserKey, snapshot: SequenceNumber)
    requires |v.files| == NUM_LEVELS && Sorted(input) && UniqueKeys(EntrySet(input) + rest)
    requires smallest <= snapshot && smallest < MAX_SEQUENCE
    requires forall t, r :: !Hazard(v, level, EntrySet(input), rest, smallest, user, t, r)
    ensures Read(EntrySet(Survivors(v, level, input, smallest, |input|)) + rest, user, snapshot) ==
            Read(EntrySet(input) + rest, user, snapshot)
  {
    var inputs := EntrySet(input);
    var kept := EntrySet(Survivors(v, level, input, smallest, |input|));
    SurvivorsAmongInputs(v, level, input, smallest);
    if e :| Newest(inputs + rest, user, snapshot, e) {
      ReadIs(inputs + rest, user, snapshot, e);
      if e in kept + rest {
        assert Newest(kept + rest, user, snapshot, e);
        ReadIs(kept + rest, user, snapshot, e);
      } else {
        NewestDropped(v, level, input, rest, smallest, user, snapshot, e);
      }
    } else {
      forall o ensures !Sees(inputs + rest, user, snapshot, o) {
        if Sees(inputs + rest, user, snapshot, o) { NewestExists(inputs + rest, user, snapshot, o); }
      }
      assert forall o :: Sees(kept + rest, user, snapshot, o) ==> Sees(inputs + rest, user, snapshot, o);
      ReadNothing(kept + rest, user, snapshot);
    }
  }

  /** What shows once the tombstone `t` is gone is no value, as long as there is no hazard. */
  lemma NothingUnderTombstone(v: Version, level: nat, input: seq<Entry>, rest: set<Entry>, smallest: SequenceNumber,
                              user: UserKey, snapshot: SequenceNumber, t: Entry, r: Entry)
    requires |v.files| == NUM_LEVELS && Sorted(input) && UniqueKeys(EntrySet(input) + rest) && smallest <= snapshot
    requires forall t, r :: !Hazard(v, level, EntrySet(input), rest, smallest, user, t, r)
    requires t in input && Newest(EntrySet(input), user, smallest, t)
    requires Newest(EntrySet(input) + rest, user, snapshot, t)
    requires t.key.kind.TypeDeletion? && BaseLevel(v, level, user)
    requires Newest(EntrySet(Survivors(v, level, input, smallest, |input|)) + rest, user, snapshot, r)
    ensures Shown(r) == None
  {
    var inputs := EntrySet(input);
    var kept := EntrySet(Survivors(v, level, input, smallest, |input|));
    SurvivorsAmongInputs(v, level, input, smallest);
    assert Sees(inputs + rest, user, snapshot, r);
    if r in kept {
      TombstoneIsDropped(v, level, input, smallest, t);
      if Tag(r.key) == Tag(t.key) { TagInjective(r.key, t.key); }
      OlderIsDropped(v, level, input, smallest, t, r);
    } else if Tag(r.key) < Tag(t.key) {
      assert Newest(rest, user, smallest, r) by {
        forall o | Sees(rest, user, smallest, o) ensures Tag(o.key) <= Tag(r.key) {
          assert Sees(kept + rest, user, snapshot, o);
        }
      }
      assert !Hazard(v, level, inputs, rest, smallest, user, t, r);
    } else {
      TagInjective(r.key, t.key);
    }
  }

  lemma HazardShows(v: Version, level: nat, input: seq<Entry>, rest: set<Entry>, smallest: SequenceNumber,
                    user: UserKey, t: Entry, r: Entry)
    requires |v.files| == NUM_LEVELS && Sorted(input) && UniqueKeys(EntrySet(input) + rest)
    requires Hazard(v, level, EntrySet(input), rest, smallest, user, t, r)
    ensures Read(EntrySet(input) + rest, user, smallest) == None
    ensures Read(EntrySet(Survivors(v, level, input, smallest, |input|)) + rest, user, smallest) == Some(r.value)
  {
    var inputs := EntrySet(input);
    var kept := EntrySet(Survivors(v, level, input, smallest, |input|));
    SurvivorsAmongInputs(v, level, input, smallest);
    forall o | Sees(inputs + rest, user, smallest, o) ensures Tag(o.key) <= Tag(t.key) {
      assert Sees(inputs, user, smallest, o) || Sees(rest, user, smallest, o);
    }
    assert Newest(inputs + rest, user, smallest, t);
    ReadIs(inputs + rest, user, smallest, t);
    TombstoneIsDropped(v, level, input, smallest, t);
    forall o | Sees(kept + rest, user, smallest, o) ensures Tag(o.key) <= Tag(r.key) {
      if o in kept {
        assert Sees(inputs, user, smallest, o);
        if Tag(o.key) == Tag(t.key) { TagInjective(o.key, t.key); }
        OlderIsDropped(v, level, input, smallest, t, o);
      } else {
        assert Sees(rest, user, smallest, o);
      }
    }
    assert Newest(kept + rest, user, smallest, r);
    ReadIs(kept + rest, user, smallest, r);
  }

  /**
   Exactly when the drop rules are sound: every read at every snapshot from the oldest one on keeps its answer if and
   only if no user key has a tombstone due to be dropped above an older value outside the inputs.
   */
  lemma DropsAreSound(v: Version, level: nat, input: seq<Entry>, rest: set<Entry>, smallest: SequenceNumber)
    requires |v.files| == NUM_LEVELS && Sorted(input) && UniqueKeys(EntrySet(input) + rest)
    requires smallest < MAX_SEQUENCE
    ensures SameReads(EntrySet(input) + rest, EntrySet(Survivors(v, level, input, smallest, |input|)) + rest, smallest)
       <==> HazardFree(v, level, EntrySet(input), rest, smallest)
  {
    var before := EntrySet(input) + rest;
    var after := EntrySet(Survivors(v, level, input, smallest, |input|)) + rest;
    if user, t, r :| Hazard(v, level, EntrySet(input), rest, smallest, user, t, r) {
      HazardShows(v, level, input, rest, smallest, user, t, r);
      assert Read(after, user, smallest) != Read(before, user, smallest);
    } else {
      forall user, snapshot: SequenceNumber | smallest <= snapshot
        ensures Read(after, user, snapshot) == Read(before, user, snapshot)
      {
        ReadUnchanged(v, level, input, rest, smallest, user, snapshot);
      }
    }
  }

  /** The bound on `smallest` is needed: at the largest sequence number rule (A) takes every entry. */
  lemma LargestSnapshotDropsAll(v: Version, level: nat, input: seq<Entry>)
    requires |v.files| == NUM_LEVELS
    ensures forall e :: e !in Survivors(v, level, input, MAX_SEQUENCE, |input|)
  {
    assert forall i :: 0 <= i < |input| ==> Dropped(v, level, input, MAX_SEQUENCE, i);
  }
}
