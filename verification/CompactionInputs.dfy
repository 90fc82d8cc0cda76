/**
 Which files a compaction takes: range overlap, the level-0 closure, boundary files and the level+1 inputs. A null range
 end of the source is `None` here.
 */
module CompactionInputs {
  import opened Basics
  import opened DbFormat
  import opened Versions

  predicate AfterFile(user: Option<UserKey>, f: FileMetaData) {
    user.Some? && user.value > f.largest.user
  }

  predicate BeforeFile(user: Option<UserKey>, f: FileMetaData) {
    user.Some? && user.value < f.smallest.user
  }

  predicate Overlaps(f: FileMetaData, lo: Option<UserKey>, hi: Option<UserKey>) {
    !AfterFile(lo, f) && !BeforeFile(hi, f)
  }

  /** Binary search on sorted disjoint files, a scan otherwise: both say whether any file meets the range. */
  method SomeFileOverlapsRange(disjointSortedFiles: bool, files: seq<FileMetaData>, smallestUser: Option<UserKey>,
                               largestUser: Option<UserKey>) returns (r: bool)
    requires AllValid(files)
    requires disjointSortedFiles ==> Apart(files)
    ensures r <==> exists f :: f in files && Overlaps(f, smallestUser, largestUser)
  {
    if !disjointSortedFiles {
      for i := 0 to |files|
        invariant forall j :: 0 <= j < i ==> !Overlaps(files[j], smallestUser, largestUser)
      {
        if AfterFile(smallestUser, files[i]) || BeforeFile(largestUser, files[i]) {
        } else {
          assert Overlaps(files[i], smallestUser, largestUser);
          return true;
        }
      }
      return false;
    }
    var index := 0;
    if smallestUser.Some? {
      ApartLargestSorted(files);
      index := FindFile(files, InternalKey(smallestUser.value, MAX_SEQUENCE, TypeValue));
    }
    assert forall i :: 0 <= i < index ==> AfterFile(smallestUser, files[i]);
    if index >= |files| {
      return false;
    }
    forall i | 0 <= i < |files|
      ensures files[i].smallest.user <= files[i].largest.user
    {
      assert files[i] in files;
      ValidFileBounds(files[i], files[i].entries[0]);
    }
    assert files[index] in files;
    return !BeforeFile(largestUser, files[index]);
  }

  // ---------------------------------------------------------------------------------------------------------------
  // GetOverlappingInputs

  /** The files that meet a user-key range, in list order. */
  function Select(fs: seq<FileMetaData>, lo: Option<UserKey>, hi: Option<UserKey>): (r: seq<FileMetaData>)
    ensures forall f :: f in r <==> f in fs && Overlaps(f, lo, hi)
  {
    if fs == [] then [] else
      var n := |fs| - 1;
      var r := Select(fs[..n], lo, hi);
      if Overlaps(fs[n], lo, hi) then r + [fs[n]] else r
  }

  lemma SelectStep(fs: seq<FileMetaData>, n: nat, lo: Option<UserKey>, hi: Option<UserKey>)
    requires n < |fs|
    ensures Select(fs[..n + 1], lo, hi) == Select(fs[..n], lo, hi) + (if Overlaps(fs[n], lo, hi) then [fs[n]] else [])
  {
    assert fs[..n + 1][..n] == fs[..n];
  }

  /** Does the range reach at least as far as the file does, on the sides where it is bounded? */
  predicate Encloses(lo: Option<UserKey>, hi: Option<UserKey>, f: FileMetaData) {
    (lo.Some? ==> lo.value <= f.smallest.user) && (hi.Some? ==> f.largest.user <= hi.value)
  }

  /** Every file that meets the range lies inside it. */
  ghost predicate ClosedRange(fs: seq<FileMetaData>, lo: Option<UserKey>, hi: Option<UserKey>) {
    forall f :: f in fs && Overlaps(f, lo, hi) ==> Encloses(lo, hi, f)
  }

  predicate RangeWithin(lo: Option<UserKey>, hi: Option<UserKey>, lo': Option<UserKey>, hi': Option<UserKey>) {
    (lo.Some? <==> lo'.Some?) && (hi.Some? <==> hi'.Some?) &&
    (lo.Some? ==> lo'.value <= lo.value) && (hi.Some? ==> hi.value <= hi'.value)
  }

  /** Every closed range around [begin, end] reaches as far as [lo, hi]. */
  ghost predicate InsideAllClosed(fs: seq<FileMetaData>, begin: Option<UserKey>, end: Option<UserKey>,
                                  lo: Option<UserKey>, hi: Option<UserKey>) {
    forall lo', hi' :: RangeWithin(begin, end, lo', hi') && ClosedRange(fs, lo', hi') ==> RangeWithin(lo, hi, lo', hi')
  }

  /** The least closed range around [begin, end]. */
  ghost predicate LeastClosedRange(fs: seq<FileMetaData>, begin: Option<UserKey>, end: Option<UserKey>,
                                   lo: Option<UserKey>, hi: Option<UserKey>) {
    && RangeWithin(begin, end, lo, hi)
    && ClosedRange(fs, lo, hi)
    && InsideAllClosed(fs, begin, end, lo, hi)
  }

  /** A range that must reach [lo, hi] must also reach the ends of a file that meets [lo, hi]. */
  lemma WidenedInside(fs: seq<FileMetaData>, begin: Option<UserKey>, end: Option<UserKey>, lo: Option<UserKey>,
                      hi: Option<UserKey>, f: FileMetaData)
    requires InsideAllClosed(fs, begin, end, lo, hi) && f in fs && Overlaps(f, lo, hi)
    ensures lo.Some? && f.smallest.user < lo.value ==> InsideAllClosed(fs, begin, end, Some(f.smallest.user), hi)
    ensures hi.Some? && f.largest.user > hi.value ==> InsideAllClosed(fs, begin, end, lo, Some(f.largest.user))
  {
    forall lo', hi' | RangeWithin(begin, end, lo', hi') && ClosedRange(fs, lo', hi')
      ensures RangeWithin(lo, hi, lo', hi') && Encloses(lo', hi', f)
    {
      assert Overlaps(f, lo', hi');
    }
  }

  /** How many files stick out of the range: what each restart of the level-0 loop lowers. */
  function Outside(fs: seq<FileMetaData>, lo: Option<UserKey>, hi: Option<UserKey>): (n: nat) {
    if fs == [] then 0 else
      (if lo.Some? && fs[0].smallest.user < lo.value then 1 else 0) +
      (if hi.Some? && fs[0].largest.user > hi.value then 1 else 0) + Outside(fs[1..], lo, hi)
  }

  lemma {:induction false} OutsideShrinks(fs: seq<FileMetaData>, lo: Option<UserKey>, hi: Option<UserKey>,
                                          lo': Option<UserKey>, hi': Option<UserKey>, f: FileMetaData)
    requires RangeWithin(lo, hi, lo', hi')
    ensures Outside(fs, lo', hi') <= Outside(fs, lo, hi)
    ensures f in fs && lo.Some? && f.smallest.user < lo.value && lo'.value <= f.smallest.user ==>
              Outside(fs, lo', hi') < Outside(fs, lo, hi)
    ensures f in fs && hi.Some? && f.largest.user > hi.value && hi'.value >= f.largest.user ==>
              Outside(fs, lo', hi') < Outside(fs, lo, hi)
  {
    if fs != [] {
      OutsideShrinks(fs[1..], lo, hi, lo', hi', f);
      assert f in fs <==> f == fs[0] || f in fs[1..];
    }
  }

  /**
   The files of a level that overlap [begin, end]. On level 0, where files overlap one another, the scan restarts with a
   wider range whenever a file sticks out, and so ends at the least closed range; `lo` and `hi` are that range.
   */
  method GetOverlappingInputs(level: nat, files: seq<FileMetaData>, begin: Option<UserKey>, end: Option<UserKey>)
      returns (inputs: seq<FileMetaData>, ghost lo: Option<UserKey>, ghost hi: Option<UserKey>)
    ensures inputs == Select(files, lo, hi)
    ensures level > 0 ==> lo == begin && hi == end
    ensures level == 0 ==> LeastClosedRange(files, begin, end, lo, hi)
  {
    inputs := [];
    var userBegin, userEnd := begin, end;
    var i := 0;
    while i < |files|
      invariant 0 <= i <= |files|
      invariant RangeWithin(begin, end, userBegin, userEnd)
      invariant level > 0 ==> userBegin == begin && userEnd == end
      invariant inputs == Select(files[..i], userBegin, userEnd)
      invariant level == 0 ==> ClosedRange(files[..i], userBegin, userEnd)
      invariant InsideAllClosed(files, begin, end, userBegin, userEnd)
      decreases Outside(files, userBegin, userEnd), |files| - i
    {
      var f := files[i];
      SelectStep(files, i, userBegin, userEnd);
      i := i + 1;
      if userBegin.Some? && f.largest.user < userBegin.value {
      } else if userEnd.Some? && f.smallest.user > userEnd.value {
      } else {
        inputs := inputs + [f];
        if level == 0 {
          if userBegin.Some? && f.smallest.user < userBegin.value {
            OutsideShrinks(files, userBegin, userEnd, Some(f.smallest.user), userEnd, f);
            WidenedInside(files, begin, end, userBegin, userEnd, f);
            userBegin := Some(f.smallest.user);
            inputs := [];
            i := 0;
          } else if userEnd.Some? && f.largest.user > userEnd.value {
            OutsideShrinks(files, userBegin, userEnd, userBegin, Some(f.largest.user), f);
            WidenedInside(files, begin, end, userBegin, userEnd, f);
            userEnd := Some(f.largest.user);
            inputs := [];
            i := 0;
          }
        }
      }
    }
    assert files[..|files|] == files;
    lo, hi := userBegin, userEnd;
  }

  // ---------------------------------------------------------------------------------------------------------------
  // AddBoundaryInputs

  method FindLargestKey(files: seq<FileMetaData>) returns (largest: Option<InternalKey>)
    ensures files == [] <==> largest.None?
    ensures files != [] ==> IsLargestKey(files, largest.value)
  {
    if |files| == 0 {
      return None;
    }
    var key := files[0].largest;
    for i := 1 to |files|
      invariant exists f :: f in files && f.largest == key
      invariant forall j :: 0 <= j < i ==> AtOrBefore(files[j].largest, key)
    {
      if Before(key, files[i].largest) {
        key := files[i].largest;
      } else {
        NotBefore(key, files[i].largest);
      }
    }
    return Some(key);
  }

  lemma NotBefore(a: InternalKey, b: InternalKey)
    ensures !Before(a, b) <==> AtOrBefore(b, a)
  {
    if !Before(a, b) && a.user == b.user && Tag(a) == Tag(b) { TagInjective(a, b); }
  }

  ghost predicate IsLargestKey(files: seq<FileMetaData>, key: InternalKey) {
    (exists f :: f in files && f.largest == key) && forall f :: f in files ==> AtOrBefore(f.largest, key)
  }

  /** A file that starts after `key` but on the same user key. */
  predicate IsBoundaryFile(f: FileMetaData, key: InternalKey) {
    Before(key, f.smallest) && f.smallest.user == key.user
  }

  method FindSmallestBoundaryFile(levelFiles: seq<FileMetaData>, key: InternalKey) returns (r: Option<FileMetaData>)
    ensures r.None? ==> forall f :: f in levelFiles ==> !IsBoundaryFile(f, key)
    ensures r.Some? ==> r.value in levelFiles && IsBoundaryFile(r.value, key)
    ensures r.Some? ==> forall f :: f in levelFiles && IsBoundaryFile(f, key) ==> !Before(f.smallest, r.value.smallest)
  {
    r := None;
    for i := 0 to |levelFiles|
      invariant r.None? ==> forall j :: 0 <= j < i ==> !IsBoundaryFile(levelFiles[j], key)
      invariant r.Some? ==> r.value in levelFiles && IsBoundaryFile(r.value, key)
      invariant r.Some? ==> forall j :: 0 <= j < i && IsBoundaryFile(levelFiles[j], key) ==>
                                          !Before(levelFiles[j].smallest, r.value.smallest)
    {
      var f := levelFiles[i];
      if Before(key, f.smallest) && f.smallest.user == key.user {
        if r.None? || Before(f.smallest, r.value.smallest) {
          r := Some(f);
        }
      }
    }
  }

  /** The run of boundary files that follows `key`: each the nearest one after the file before it, to the very end. */
  ghost predicate BoundaryChain(levelFiles: seq<FileMetaData>, key: InternalKey, chain: seq<FileMetaData>)
    decreases |chain|
  {
    if chain == [] then
      forall f :: f in levelFiles ==> !IsBoundaryFile(f, key)
    else
      && chain[0] in levelFiles
      && IsBoundaryFile(chain[0], key)
      && (forall f :: f in levelFiles && IsBoundaryFile(f, key) ==> !Before(f.smallest, chain[0].smallest))
      && BoundaryChain(levelFiles, chain[0].largest, chain[1..])
  }

  /** As `BoundaryChain`, but still open at its end. */
  ghost predicate BoundaryLink(levelFiles: seq<FileMetaData>, key: InternalKey, chain: seq<FileMetaData>,
                               last: InternalKey)
    decreases |chain|
  {
    if chain == [] then
      last == key
    else
      && chain[0] in levelFiles
      && IsBoundaryFile(chain[0], key)
      && (forall f :: f in levelFiles && IsBoundaryFile(f, key) ==> !Before(f.smallest, chain[0].smallest))
      && BoundaryLink(levelFiles, chain[0].largest, chain[1..], last)
  }

  lemma {:induction false} ExtendLink(levelFiles: seq<FileMetaData>, key: InternalKey, chain: seq<FileMetaData>,
                                      last: InternalKey, f: FileMetaData)
    requires BoundaryLink(levelFiles, key, chain, last)
    requires f in levelFiles && IsBoundaryFile(f, last)
    requires forall g :: g in levelFiles && IsBoundaryFile(g, last) ==> !Before(g.smallest, f.smallest)
    ensures BoundaryLink(levelFiles, key, chain + [f], f.largest)
    decreases |chain|
  {
    if chain != [] {
      ExtendLink(levelFiles, chain[0].largest, chain[1..], last, f);
      assert (chain + [f])[1..] == chain[1..] + [f];
    } else {
      assert (chain + [f])[1..] == [];
    }
  }

  lemma {:induction false} CloseLink(levelFiles: seq<FileMetaData>, key: InternalKey, chain: seq<FileMetaData>,
                                     last: InternalKey)
    requires BoundaryLink(levelFiles, key, chain, last)
    requires forall g :: g in levelFiles ==> !IsBoundaryFile(g, last)
    ensures BoundaryChain(levelFiles, key, chain)
    decreases |chain|
  {
    if chain != [] {
      CloseLink(levelFiles, chain[0].largest, chain[1..], last);
    }
  }

  /** How many files of the level start after `key`: what each boundary file found lowers. */
  function StartsAfter(fs: seq<FileMetaData>, key: InternalKey): (n: nat) {
    if fs == [] then 0 else (if Before(key, fs[0].smallest) then 1 else 0) + StartsAfter(fs[1..], key)
  }

  lemma {:induction false} StartsAfterFalls(fs: seq<FileMetaData>, key: InternalKey, key': InternalKey, f: FileMetaData)
    requires Before(key, key')
    ensures StartsAfter(fs, key') <= StartsAfter(fs, key)
    ensures f in fs && Before(key, f.smallest) && !Before(key', f.smallest) ==>
              StartsAfter(fs, key') < StartsAfter(fs, key)
  {
    if fs != [] {
      StartsAfterFalls(fs[1..], key, key', f);
      assert f in fs <==> f == fs[0] || f in fs[1..];
    }
  }

  /** Appends the boundary files of the inputs' largest key; nothing of the level is left starting on its user key. */
  method AddBoundaryInputs(levelFiles: seq<FileMetaData>, compactionFiles: seq<FileMetaData>)
      returns (r: seq<FileMetaData>, ghost chain: seq<FileMetaData>)
    requires AllValid(levelFiles)
    ensures r == compactionFiles + chain
    ensures compactionFiles == [] ==> chain == []
    ensures compactionFiles != [] ==>
              exists key :: IsLargestKey(compactionFiles, key) && BoundaryChain(levelFiles, key, chain)
  {
    r, chain := compactionFiles, [];
    var largest := FindLargestKey(compactionFiles);
    if largest.None? {
      return;
    }
    ghost var start := largest.value;
    var largestKey := largest.value;
    var continueSearching := true;
    while continueSearching
      invariant r == compactionFiles + chain
      invariant BoundaryLink(levelFiles, start, chain, largestKey)
      invariant !continueSearching ==> forall f :: f in levelFiles ==> !IsBoundaryFile(f, largestKey)
      decreases continueSearching, StartsAfter(levelFiles, largestKey)
    {
      var found := FindSmallestBoundaryFile(levelFiles, largestKey);
      if found.Some? {
        var f := found.value;
        ExtendLink(levelFiles, start, chain, largestKey, f);
        ValidFileBounds(f, f.entries[0]);
        StartsAfterFalls(levelFiles, largestKey, f.largest, f);
        r := r + [f];
        chain := chain + [f];
        largestKey := f.largest;
      } else {
        continueSearching := false;
      }
    }
    CloseLink(levelFiles, start, chain, largestKey);
  }

  // ---------------------------------------------------------------------------------------------------------------
  // What the chosen inputs guarantee

  /** No file of the level is left starting right after an input, on the input's last user key. */
  ghost predicate BoundaryClosed(fs: seq<FileMetaData>, ins: seq<FileMetaData>) {
    forall f, g :: f in ins && g in fs && IsBoundaryFile(g, f.largest) ==> g in ins
  }

  /** No file of the level is left that shares part of its user-key range with an input. */
  ghost predicate OverlapClosed(fs: seq<FileMetaData>, ins: seq<FileMetaData>) {
    forall f, g :: f in ins && g in fs && Overlaps(g, Some(f.smallest.user), Some(f.largest.user)) ==> g in ins
  }

  /** No file of a sorted level is skipped between two inputs. */
  ghost predicate Convex(fs: seq<FileMetaData>, ins: seq<FileMetaData>) {
    forall f, g, h ::
      f in ins && g in fs && h in ins && Before(f.largest, g.smallest) && Before(g.largest, h.smallest) ==> g in ins
  }

  ghost predicate From(ins: seq<FileMetaData>, fs: seq<FileMetaData>) {
    forall f :: f in ins ==> f in fs
  }

  /** The user keys from the first to the last of the inputs. */
  ghost predicate IsHull(ins: seq<FileMetaData>, lo: UserKey, hi: UserKey) {
    && (forall f :: f in ins ==> lo <= f.smallest.user && f.largest.user <= hi)
    && (exists f :: f in ins && f.smallest.user == lo)
    && (exists f :: f in ins && f.largest.user == hi)
  }

  /** The files of the next level in the range of the inputs. */
  ghost predicate NextLevelOf(fs: seq<FileMetaData>, in0: seq<FileMetaData>, in1: seq<FileMetaData>) {
    exists lo, hi :: IsHull(in0, lo, hi) && in1 == Select(fs, Some(lo), Some(hi))
  }

  /** The inputs of a compaction of `level` into `level + 1`, as `SetupOtherInputs` leaves them. */
  ghost predicate ProperInputs(v: Version, level: nat, in0: seq<FileMetaData>, in1: seq<FileMetaData>) {
    && |v.files| == NUM_LEVELS && level + 1 < NUM_LEVELS
    && in0 != []
    && From(in0, v.files[level])
    && BoundaryClosed(v.files[level], in0)
    && (level == 0 ==> OverlapClosed(v.files[0], in0))
    && NextLevelOf(v.files[level + 1], in0, in1)
  }

  /** What `PickCompaction` and `CompactRange` hand to `SetupOtherInputs`. */
  ghost predicate SeedInputs(v: Version, level: nat, in0: seq<FileMetaData>) {
    && |v.files| == NUM_LEVELS && level + 1 < NUM_LEVELS
    && in0 != []
    && From(in0, v.files[level])
    && (if level == 0 then OverlapClosed(v.files[0], in0) else Convex(v.files[level], in0))
  }

  /** In a sorted level two different files are one before the other. */
  lemma FilesOrdered(fs: seq<FileMetaData>, f: FileMetaData, g: FileMetaData)
    requires AllValid(fs) && Apart(fs) && f in fs && g in fs && f != g
    ensures Before(f.largest, g.smallest) || Before(g.largest, f.smallest)
  {
    var i :| 0 <= i < |fs| && fs[i] == f;
    var j :| 0 <= j < |fs| && fs[j] == g;
  }

  lemma ValidFileOrdered(f: FileMetaData)
    requires ValidFile(f)
    ensures AtOrBefore(f.smallest, f.largest)
  {
  }

  /** Between a file `f` and a file `h` of the grown input, a file that is not an input lies before the old last one. */
  lemma BetweenInputs(z: FileMetaData, b: FileMetaData, f: FileMetaData, g: FileMetaData, h: FileMetaData)
    requires forall x :: x in {z, b, f, g, h} ==> AtOrBefore(x.smallest, x.largest)
    requires IsBoundaryFile(b, z.largest)
    requires f == b || AtOrBefore(f.largest, z.largest)
    requires h == b || AtOrBefore(h.largest, z.largest)
    requires Before(f.largest, g.smallest) && Before(g.largest, h.smallest)
    requires IsBoundaryFile(g, z.largest) ==> !Before(g.smallest, b.smallest)
    requires Before(z.largest, g.smallest) || Before(g.largest, z.smallest)
    ensures f != b && Before(g.largest, z.smallest)
  {
    assert z in {z, b, f, g, h} && b in {z, b, f, g, h} && g in {z, b, f, g, h} && h in {z, b, f, g, h};
  }

  lemma ConvexAfterLargest(fs: seq<FileMetaData>, ins: seq<FileMetaData>, key: InternalKey, b: FileMetaData,
                           grown: seq<FileMetaData>)
    requires AllValid(fs) && Apart(fs) && From(ins, fs) && Convex(fs, ins) && IsLargestKey(ins, key)
    requires b in fs && IsBoundaryFile(b, key) && grown == ins + [b]
    requires forall g :: g in fs && IsBoundaryFile(g, key) ==> !Before(g.smallest, b.smallest)
    ensures Convex(fs, grown)
  {
    var z :| z in ins && z.largest == key;
    forall f, g, h | f in grown && g in fs && h in grown && Before(f.largest, g.smallest) &&
        Before(g.largest, h.smallest)
      ensures g in grown
    {
      if g != z && g != b {
        FilesOrdered(fs, g, z);
        ValidFileOrdered(z);
        ValidFileOrdered(b);
        ValidFileOrdered(f);
        ValidFileOrdered(g);
        ValidFileOrdered(h);
        BetweenInputs(z, b, f, g, h);
      }
    }
  }

  lemma GrownByBoundary(fs: seq<FileMetaData>, ins: seq<FileMetaData>, key: InternalKey, b: FileMetaData,
                        grown: seq<FileMetaData>)
    requires AllValid(fs) && From(ins, fs) && IsLargestKey(ins, key) && b in fs && IsBoundaryFile(b, key)
    requires grown == ins + [b]
    ensures From(grown, fs) && IsLargestKey(grown, b.largest)
  {
    ValidFileOrdered(b);
    assert grown[|ins|] == b;
    assert b in grown;
  }

  lemma EndOfChain(fs: seq<FileMetaData>, ins: seq<FileMetaData>, key: InternalKey)
    requires AllValid(fs) && Apart(fs) && From(ins, fs) && Convex(fs, ins) && IsLargestKey(ins, key)
    requires forall f :: f in fs ==> !IsBoundaryFile(f, key)
    ensures BoundaryClosed(fs, ins)
  {
    var z :| z in ins && z.largest == key;
    forall f, g | f in ins && g in fs && IsBoundaryFile(g, f.largest) ensures g in ins {
      assert !IsBoundaryFile(g, key);
      if g != z {
        FilesOrdered(fs, g, z);
        ValidFileOrdered(g);
        assert AtOrBefore(f.largest, key);
      }
    }
  }

  lemma ChainHead(fs: seq<FileMetaData>, ins: seq<FileMetaData>, key: InternalKey, chain: seq<FileMetaData>,
                  grown: seq<FileMetaData>)
    requires AllValid(fs) && Apart(fs) && From(ins, fs) && Convex(fs, ins) && IsLargestKey(ins, key)
    requires chain != [] && BoundaryChain(fs, key, chain) && grown == ins + [chain[0]]
    ensures From(grown, fs) && Convex(fs, grown) && IsLargestKey(grown, chain[0].largest)
    ensures BoundaryChain(fs, chain[0].largest, chain[1..])
  {
    ConvexAfterLargest(fs, ins, key, chain[0], grown);
    GrownByBoundary(fs, ins, key, chain[0], grown);
  }

  lemma {:induction false} ChainCloses(fs: seq<FileMetaData>, ins: seq<FileMetaData>, key: InternalKey,
                                       chain: seq<FileMetaData>, all: seq<FileMetaData>)
    requires AllValid(fs) && Apart(fs) && From(ins, fs) && Convex(fs, ins) && IsLargestKey(ins, key)
    requires BoundaryChain(fs, key, chain) && all == ins + chain
    ensures From(all, fs) && BoundaryClosed(fs, all)
    decreases |chain|
  {
    if chain == [] {
      assert all == ins;
      EndOfChain(fs, ins, key);
    } else {
      var grown := ins + [chain[0]];
      assert all == grown + chain[1..];
      ChainHead(fs, ins, key, chain, grown);
      ChainCloses(fs, grown, chain[0].largest, chain[1..], all);
    }
  }

  lemma ClosedLevel0HasNoBoundary(fs: seq<FileMetaData>, ins: seq<FileMetaData>, key: InternalKey,
                                  chain: seq<FileMetaData>)
    requires AllValid(fs) && From(ins, fs) && OverlapClosed(fs, ins) && IsLargestKey(ins, key)
    requires BoundaryChain(fs, key, chain)
    ensures chain == [] && BoundaryClosed(fs, ins)
  {
    forall f, g | f in ins && g in fs && IsBoundaryFile(g, f.largest) ensures g in ins {
      ValidFileBounds(f, f.entries[0]);
      ValidFileBounds(g, g.entries[0]);
      assert Overlaps(g, Some(f.smallest.user), Some(f.largest.user));
    }
    var z :| z in ins && z.largest == key;
    forall b | b in fs ensures !IsBoundaryFile(b, key) {
      ValidFileBounds(b, b.entries[0]);
      assert IsBoundaryFile(b, z.largest) ==> b in ins;
    }
  }

  lemma NothingToWiden(fs: seq<FileMetaData>, begin: Option<UserKey>, end: Option<UserKey>, lo: Option<UserKey>,
                       hi: Option<UserKey>)
    requires LeastClosedRange(fs, begin, end, lo, hi)
    requires forall f :: f in fs ==> !Overlaps(f, begin, end)
    ensures lo == begin && hi == end
  {
    assert ClosedRange(fs, begin, end) && RangeWithin(begin, end, begin, end);
    assert RangeWithin(lo, hi, begin, end);
  }

  lemma SelectConvex(fs: seq<FileMetaData>, lo: Option<UserKey>, hi: Option<UserKey>)
    requires AllValid(fs)
    ensures Convex(fs, Select(fs, lo, hi))
  {
    forall f, g, h | f in Select(fs, lo, hi) && g in fs && h in Select(fs, lo, hi) &&
        Before(f.largest, g.smallest) && Before(g.largest, h.smallest)
      ensures g in Select(fs, lo, hi)
    {
      ValidFileBounds(g, g.entries[0]);
    }
  }

  lemma ClosedRangeOverlapClosed(fs: seq<FileMetaData>, lo: Option<UserKey>, hi: Option<UserKey>)
    requires ClosedRange(fs, lo, hi)
    ensures OverlapClosed(fs, Select(fs, lo, hi))
  {
  }

  /** `GetRange`: the least and the largest key over the inputs. */
  method GetRange(ins: seq<FileMetaData>) returns (smallest: InternalKey, largest: InternalKey)
    requires ins != [] && AllValid(ins)
    ensures IsHull(ins, smallest.user, largest.user)
  {
    smallest, largest := ins[0].smallest, ins[0].largest;
    for i := 1 to |ins|
      invariant exists f :: f in ins && f.smallest == smallest
      invariant exists f :: f in ins && f.largest == largest
      invariant forall j :: 0 <= j < i ==> !Before(ins[j].smallest, smallest) && !Before(largest, ins[j].largest)
    {
      if Before(ins[i].smallest, smallest) {
        smallest := ins[i].smallest;
      }
      if Before(largest, ins[i].largest) {
        largest := ins[i].largest;
      }
    }
  }

  function Bytes(fs: seq<FileMetaData>): nat {
    if fs == [] then 0 else Bytes(fs[..|fs| - 1]) + fs[|fs| - 1].fileSize
  }

  lemma OneMoreFile(fs: seq<FileMetaData>, i: nat)
    requires i < |fs|
    ensures Bytes(fs[..i + 1]) == Bytes(fs[..i]) + fs[i].fileSize
  {
    assert fs[..i + 1][..i] == fs[..i];
  }

  method TotalFileSize(fs: seq<FileMetaData>) returns (sum: nat)
    ensures sum == Bytes(fs)
  {
    sum := 0;
    for i := 0 to |fs|
      invariant sum == Bytes(fs[..i])
    {
      OneMoreFile(fs, i);
      sum := sum + fs[i].fileSize;
    }
    assert fs[..|fs|] == fs;
  }

  // ---------------------------------------------------------------------------------------------------------------
  // Which inputs exactly

  /** The inputs with the boundary files of their largest key, and no others. */
  ghost predicate ClosedOff(fs: seq<FileMetaData>, seed: seq<FileMetaData>, r: seq<FileMetaData>) {
    exists key, chain :: IsLargestKey(seed, key) && BoundaryChain(fs, key, chain) && r == seed + chain
  }

  /** What `GetOverlappingInputs` gives. */
  ghost predicate Overlapping(level: nat, fs: seq<FileMetaData>, begin: Option<UserKey>, end: Option<UserKey>,
                              r: seq<FileMetaData>) {
    if level > 0 then r == Select(fs, begin, end)
    else exists lo, hi :: LeastClosedRange(fs, begin, end, lo, hi) && r == Select(fs, lo, hi)
  }

  /** The level inputs that the whole range of a compaction would take. */
  ghost predicate Widened(v: Version, level: nat, in0: seq<FileMetaData>, in1: seq<FileMetaData>,
                          wide0: seq<FileMetaData>)
    requires level < |v.files|
  {
    exists lo, hi, seed ::
      IsHull(in0 + in1, lo, hi) && Overlapping(level, v.files[level], Some(lo), Some(hi), seed) &&
      ClosedOff(v.files[level], seed, wide0)
  }

  /** More level inputs are taken if they stay small enough and add nothing to the next level, and only then. */
  ghost predicate Expanded(v: Version, level: nat, in0: seq<FileMetaData>, in1: seq<FileMetaData>, expandedLimit: nat,
                           out0: seq<FileMetaData>, out1: seq<FileMetaData>)
    requires level + 1 < |v.files|
  {
    exists wide0 ::
      Widened(v, level, in0, in1, wide0) &&
      if |wide0| > |in0| && Bytes(in1) + Bytes(wide0) < expandedLimit then
        exists wide1 ::
          NextLevelOf(v.files[level + 1], wide0, wide1) &&
          if |wide1| == |in1| then out0 == wide0 && out1 == wide1 else out0 == in0 && out1 == in1
      else
        out0 == in0 && out1 == in1
  }

  /** What `SetupOtherInputs` makes of the files picked. */
  ghost predicate SetUp(v: Version, level: nat, seed: seq<FileMetaData>, expandedLimit: nat,
                        out0: seq<FileMetaData>, out1: seq<FileMetaData>)
    requires level + 1 < |v.files|
  {
    exists in0, in1 :: SetUpFrom(v, level, seed, expandedLimit, in0, in1, out0, out1)
  }

  ghost predicate SetUpFrom(v: Version, level: nat, seed: seq<FileMetaData>, expandedLimit: nat,
                            in0: seq<FileMetaData>, in1: seq<FileMetaData>,
                            out0: seq<FileMetaData>, out1: seq<FileMetaData>)
    requires level + 1 < |v.files|
  {
    ClosedOff(v.files[level], seed, in0) && NextLevelOf(v.files[level + 1], in0, in1) &&
    if in1 == [] then out0 == in0 && out1 == in1 else Expanded(v, level, in0, in1, expandedLimit, out0, out1)
  }

  /** The level inputs closed off at their end. */
  method CloseInputs(v: Version, level: nat, seed: seq<FileMetaData>) returns (r: seq<FileMetaData>)
    requires v.Valid() && SeedInputs(v, level, seed)
    ensures |r| >= |seed| && seed == r[..|seed|]
    ensures From(r, v.files[level]) && BoundaryClosed(v.files[level], r)
    ensures level == 0 ==> OverlapClosed(v.files[0], r)
    ensures ClosedOff(v.files[level], seed, r)
  {
    var fs := v.files[level];
    ghost var chain;
    r, chain := AddBoundaryInputs(fs, seed);
    ghost var key :| IsLargestKey(seed, key) && BoundaryChain(fs, key, chain);
    if level == 0 {
      ClosedLevel0HasNoBoundary(fs, seed, key, chain);
      assert r == seed;
    } else {
      assert Apart(fs);
      ChainCloses(fs, seed, key, chain, r);
    }
  }

  /**
   `SetupOtherInputs`: boundary files for the level inputs, the overlapping files of the next level, and a larger level
   input when that costs no further file of the next level. The next level gets no boundary files.
   */
  method SetupOtherInputs(v: Version, level: nat, seed: seq<FileMetaData>, expandedLimit: nat)
      returns (in0: seq<FileMetaData>, in1: seq<FileMetaData>)
    requires v.Valid() && SeedInputs(v, level, seed)
    ensures ProperInputs(v, level, in0, in1) && SetUp(v, level, seed, expandedLimit, in0, in1)
    ensures forall f :: f in seed ==> f in in0
  {
    assert seed != [] && |v.files| == NUM_LEVELS && level + 1 < NUM_LEVELS;
    hide ProperInputs, ClosedOff, NextLevelOf, Expanded, SetUp, Version.Valid, SeedInputs, From, BoundaryClosed,
         OverlapClosed;
    in0 := CloseInputs(v, level, seed);
    assert forall f :: f in seed ==> f in in0[..|seed|];
    in1 := InputsBelow(v, level, in0);
    ghost var closed0, closed1 := in0, in1;
    if in1 != [] {
      in0, in1 := Expand(v, level, in0, in1, expandedLimit);
    }
    IsSetUp(v, level, seed, expandedLimit, closed0, closed1, in0, in1);
  }

  lemma IsSetUp(v: Version, level: nat, seed: seq<FileMetaData>, expandedLimit: nat, in0: seq<FileMetaData>,
                in1: seq<FileMetaData>, out0: seq<FileMetaData>, out1: seq<FileMetaData>)
    requires level + 1 < |v.files| && ClosedOff(v.files[level], seed, in0) && NextLevelOf(v.files[level + 1], in0, in1)
    requires if in1 == [] then out0 == in0 && out1 == in1
             else Expanded(v, level, in0, in1, expandedLimit, out0, out1)
    ensures SetUp(v, level, seed, expandedLimit, out0, out1)
  {
    hide ClosedOff, NextLevelOf, Expanded;
    assert SetUpFrom(v, level, seed, expandedLimit, in0, in1, out0, out1);
  }

  /** The inputs of the next level, for level inputs that are closed off. */
  method InputsBelow(v: Version, level: nat, in0: seq<FileMetaData>)
      returns (in1: seq<FileMetaData>)
    requires v.Valid() && level + 1 < NUM_LEVELS && in0 != []
    requires From(in0, v.files[level]) && BoundaryClosed(v.files[level], in0)
    requires level == 0 ==> OverlapClosed(v.files[0], in0)
    ensures NextLevelOf(v.files[level + 1], in0, in1) && ProperInputs(v, level, in0, in1)
  {
    assert AllValid(in0) by { assert AllValid(v.files[level]); }
    hide Version.Valid, BoundaryClosed, OverlapClosed, From, AllValid;
    var smallest, largest := GetRange(in0);
    ghost var lo, hi;
    in1, lo, hi := GetOverlappingInputs(level + 1, v.files[level + 1], Some(smallest.user), Some(largest.user));
  }

  method Expand(v: Version, level: nat, in0: seq<FileMetaData>, in1: seq<FileMetaData>, expandedLimit: nat)
      returns (out0: seq<FileMetaData>, out1: seq<FileMetaData>)
    requires v.Valid() && ProperInputs(v, level, in0, in1)
    ensures ProperInputs(v, level, out0, out1) && Expanded(v, level, in0, in1, expandedLimit, out0, out1)
    ensures forall f :: f in in0 ==> f in out0
    ensures |out1| == |in1|
  {
    assert AllValid(in0 + in1) && |v.files| == NUM_LEVELS && level + 1 < NUM_LEVELS by {
      InputsValid(v, level, in0, in1);
    }
    hide ProperInputs, Widened, NextLevelOf, Expanded, Version.Valid, From, BoundaryClosed, OverlapClosed, AllValid,
         IsHull, Bytes;
    out0, out1 := in0, in1;
    var allStart, allLimit := GetRange(in0 + in1);
    var expanded0 := LevelInputsIn(v, level, in0, in1, allStart.user, allLimit.user);
    var inputs1Size := TotalFileSize(in1);
    var expanded0Size := TotalFileSize(expanded0);
    if |expanded0| > |in0| && inputs1Size + expanded0Size < expandedLimit {
      var expanded1 := InputsBelow(v, level, expanded0);
      IsExpanded(v, level, in0, in1, expandedLimit, expanded0, expanded1);
      if |expanded1| == |in1| {
        out0, out1 := expanded0, expanded1;
      }
    } else {
      IsNotExpanded(v, level, in0, in1, expandedLimit, expanded0);
    }
  }

  lemma IsExpanded(v: Version, level: nat, in0: seq<FileMetaData>, in1: seq<FileMetaData>, expandedLimit: nat,
                   wide0: seq<FileMetaData>, wide1: seq<FileMetaData>)
    requires level + 1 < |v.files| && Widened(v, level, in0, in1, wide0)
    requires NextLevelOf(v.files[level + 1], wide0, wide1)
    requires |wide0| > |in0| && Bytes(in1) + Bytes(wide0) < expandedLimit
    ensures if |wide1| == |in1| then Expanded(v, level, in0, in1, expandedLimit, wide0, wide1)
            else Expanded(v, level, in0, in1, expandedLimit, in0, in1)
  {
    hide Widened, NextLevelOf, Bytes;
  }

  lemma IsNotExpanded(v: Version, level: nat, in0: seq<FileMetaData>, in1: seq<FileMetaData>, expandedLimit: nat,
                      wide0: seq<FileMetaData>)
    requires level + 1 < |v.files| && Widened(v, level, in0, in1, wide0)
    requires !(|wide0| > |in0| && Bytes(in1) + Bytes(wide0) < expandedLimit)
    ensures Expanded(v, level, in0, in1, expandedLimit, in0, in1)
  {
    hide Widened, NextLevelOf, Bytes;
  }

  lemma InputsValid(v: Version, level: nat, in0: seq<FileMetaData>, in1: seq<FileMetaData>)
    requires v.Valid() && ProperInputs(v, level, in0, in1)
    ensures AllValid(in0 + in1) && |v.files| == NUM_LEVELS && level + 1 < NUM_LEVELS
  {
    assert AllValid(v.files[level]) && AllValid(v.files[level + 1]);
  }

  /** The level inputs that the whole range of the compaction would take. */
  method LevelInputsIn(v: Version, level: nat, ghost in0: seq<FileMetaData>, ghost in1: seq<FileMetaData>,
                       begin: UserKey, end: UserKey)
      returns (r: seq<FileMetaData>)
    requires v.Valid() && ProperInputs(v, level, in0, in1) && IsHull(in0 + in1, begin, end)
    ensures From(r, v.files[level]) && BoundaryClosed(v.files[level], r)
    ensures level == 0 ==> OverlapClosed(v.files[0], r)
    ensures forall f :: f in in0 ==> f in r
    ensures Widened(v, level, in0, in1, r)
  {
    var seed, lo, hi := GetOverlappingInputs(level, v.files[level], Some(begin), Some(end));
    SelectSeeds(v, level, in0, in1, Some(begin), Some(end), lo, hi);
    r := CloseInputs(v, level, seed);
    assert Overlapping(level, v.files[level], Some(begin), Some(end), seed);
    assert forall f :: f in seed ==> f in r[..|seed|];
  }

  lemma SelectSeeds(v: Version, level: nat, in0: seq<FileMetaData>, in1: seq<FileMetaData>, begin: Option<UserKey>,
                    end: Option<UserKey>, lo: Option<UserKey>, hi: Option<UserKey>)
    requires v.Valid() && level + 1 < NUM_LEVELS && in0 != [] && From(in0, v.files[level])
    requires begin.Some? && end.Some? && IsHull(in0 + in1, begin.value, end.value)
    requires level > 0 ==> lo == begin && hi == end
    requires level == 0 ==> LeastClosedRange(v.files[0], begin, end, lo, hi)
    ensures SeedInputs(v, level, Select(v.files[level], lo, hi))
    ensures forall f :: f in in0 ==> f in Select(v.files[level], lo, hi)
  {
    forall f | f in in0 ensures f in Select(v.files[level], lo, hi) {
      assert f in in0 + in1;
      assert ValidFile(f);
      ValidFileOrdered(f);
    }
    assert in0[0] in in0;
    if level == 0 {
      ClosedRangeOverlapClosed(v.files[0], lo, hi);
    } else {
      SelectConvex(v.files[level], lo, hi);
    }
  }

  lemma SingletonConvex(fs: seq<FileMetaData>, f: FileMetaData)
    requires AllValid(fs) && f in fs
    ensures Convex(fs, [f])
  {
    forall g | g in fs && Before(f.largest, g.smallest) && Before(g.largest, f.smallest) ensures false {
      ValidFileOrdered(f);
      ValidFileOrdered(g);
    }
  }

  /** The picked file, on level 0 with all that it overlaps. */
  ghost predicate IsPicked(level: nat, fs: seq<FileMetaData>, picked: FileMetaData, seed: seq<FileMetaData>) {
    if level > 0 then seed == [picked]
    else Overlapping(0, fs, Some(picked.smallest.user), Some(picked.largest.user), seed)
  }

  /** `PickCompaction`, for whichever file the score or the seek statistics name. */
  method PickCompaction(v: Version, level: nat, picked: FileMetaData, expandedLimit: nat)
      returns (in0: seq<FileMetaData>, in1: seq<FileMetaData>)
    requires v.Valid() && level + 1 < NUM_LEVELS && picked in v.files[level]
    ensures ProperInputs(v, level, in0, in1)
    ensures picked in in0
    ensures exists seed ::
              IsPicked(level, v.files[level], picked, seed) && SetUp(v, level, seed, expandedLimit, in0, in1)
  {
    var inputs := [picked];
    if level == 0 {
      var smallest, largest := GetRange(inputs);
      ghost var lo, hi;
      inputs, lo, hi := GetOverlappingInputs(0, v.files[0], Some(smallest.user), Some(largest.user));
      ClosedRangeOverlapClosed(v.files[0], lo, hi);
      ValidFileBounds(picked, picked.entries[0]);
      assert picked in inputs;
      assert smallest.user == picked.smallest.user && largest.user == picked.largest.user;
    } else {
      SingletonConvex(v.files[level], picked);
    }
    assert IsPicked(level, v.files[level], picked, inputs);
    in0, in1 := SetupOtherInputs(v, level, inputs, expandedLimit);
  }

  lemma {:induction false} SelectApart(fs: seq<FileMetaData>, lo: Option<UserKey>, hi: Option<UserKey>)
    requires Apart(fs)
    ensures Apart(Select(fs, lo, hi))
  {
    if fs != [] {
      var n := |fs| - 1;
      SelectApart(fs[..n], lo, hi);
      forall f | f in Select(fs[..n], lo, hi) ensures Before(f.largest, fs[n].smallest) {
        assert f in fs[..n];
        var i :| 0 <= i < n && fs[i] == f;
      }
    }
  }

  /** As many of the files as it takes to reach the limit, and at least one. */
  ghost predicate IsCutAt(inputs: seq<FileMetaData>, sizeLimit: nat, r: seq<FileMetaData>) {
    && r != [] && r <= inputs
    && (forall k :: 0 < k < |r| ==> Bytes(inputs[..k]) < sizeLimit)
    && (|r| < |inputs| ==> Bytes(r) >= sizeLimit)
  }

  method CutAtSize(inputs: seq<FileMetaData>, sizeLimit: nat) returns (r: seq<FileMetaData>)
    requires inputs != []
    ensures IsCutAt(inputs, sizeLimit, r)
  {
    var total := 0;
    for i := 0 to |inputs|
      invariant total == Bytes(inputs[..i])
      invariant forall k :: 0 < k <= i ==> Bytes(inputs[..k]) < sizeLimit
    {
      OneMoreFile(inputs, i);
      total := total + inputs[i].fileSize;
      if total >= sizeLimit {
        return inputs[..i + 1];
      }
    }
    return inputs;
  }

  /** The files of a range, above level 0 cut short at the size limit. */
  ghost predicate IsRangeSeed(level: nat, fs: seq<FileMetaData>, begin: Option<UserKey>, end: Option<UserKey>,
                              sizeLimit: nat, seed: seq<FileMetaData>) {
    if level > 0 then IsCutAt(Select(fs, begin, end), sizeLimit, seed) else Overlapping(0, fs, begin, end, seed)
  }

  /** `CompactRange`: above level 0 the overlapping files are cut short once they reach the file-size limit. */
  method CompactRange(v: Version, level: nat, begin: Option<UserKey>, end: Option<UserKey>, sizeLimit: nat,
                      expandedLimit: nat)
      returns (r: Option<(seq<FileMetaData>, seq<FileMetaData>)>)
    requires v.Valid() && level + 1 < NUM_LEVELS
    ensures r.None? <==> forall f :: f in v.files[level] ==> !Overlaps(f, begin, end)
    ensures r.Some? ==> ProperInputs(v, level, r.value.0, r.value.1)
    ensures r.Some? ==> exists seed ::
              IsRangeSeed(level, v.files[level], begin, end, sizeLimit, seed) &&
              SetUp(v, level, seed, expandedLimit, r.value.0, r.value.1)
  {
    hide ProperInputs, Convex, NumberedNewestFirst, LevelNewer, OverlapClosed, InsideAllClosed, ClosedRange,
         BoundaryClosed, SetUp;
    var fs := v.files[level];
    var inputs, lo, hi := GetOverlappingInputs(level, fs, begin, end);
    assert forall f :: f in fs && Overlaps(f, begin, end) ==> f in inputs;
    if |inputs| == 0 {
      return None;
    }
    assert inputs[0] in inputs;
    if level == 0 && forall f :: f in fs ==> !Overlaps(f, begin, end) {
      NothingToWiden(fs, begin, end, lo, hi);
    }
    if level > 0 {
      SelectConvex(fs, begin, end);
      assert Apart(fs);
      SelectApart(fs, begin, end);
      ghost var all := inputs;
      inputs := CutAtSize(inputs, sizeLimit);
      PrefixConvex(fs, all, inputs);
    } else {
      ClosedRangeOverlapClosed(fs, lo, hi);
    }
    assert IsRangeSeed(level, fs, begin, end, sizeLimit, inputs);
    var in0, in1 := SetupOtherInputs(v, level, inputs, expandedLimit);
    return Some((in0, in1));
  }

  lemma PrefixConvex(fs: seq<FileMetaData>, all: seq<FileMetaData>, ins: seq<FileMetaData>)
    requires AllValid(fs) && From(all, fs) && Apart(all) && Convex(fs, all)
    requires ins != [] && ins <= all
    ensures Convex(fs, ins) && From(ins, fs)
  {
    forall f | f in ins ensures f in fs { assert f in all; }
    forall f, g, h | f in ins && g in fs && h in ins && Before(f.largest, g.smallest) && Before(g.largest, h.smallest)
      ensures g in ins
    {
      assert f in all && h in all;
      assert g in all;
      var i :| 0 <= i < |all| && all[i] == g;
      ValidFileOrdered(g);
      ValidFileOrdered(h);
      LaterIsAfter(all, ins, h, i);
    }
  }

  lemma LaterIsAfter(all: seq<FileMetaData>, ins: seq<FileMetaData>, h: FileMetaData, i: nat)
    requires Apart(all) && ins <= all && h in ins && i < |all|
    ensures i < |ins| || Before(h.largest, all[i].smallest)
  {
    var j :| 0 <= j < |ins| && ins[j] == h;
    assert all[j] == h;
  }

  // ---------------------------------------------------------------------------------------------------------------
  // Where a flushed memtable goes

  const MAX_MEM_COMPACT_LEVEL := 2

  ghost predicate MeetsLevel(v: Version, l: nat, smallest: UserKey, largest: UserKey)
    requires l < |v.files|
  {
    exists f :: f in v.files[l] && Overlaps(f, Some(smallest), Some(largest))
  }

  /** From level `l` a table may go one further down: it meets nothing there, and not too much below that. */
  ghost predicate MayGoDown(v: Version, l: nat, smallest: UserKey, largest: UserKey, maxGrandparentBytes: nat)
    requires l + 1 < |v.files|
  {
    !MeetsLevel(v, l + 1, smallest, largest) &&
    (l + 2 < |v.files| ==> Bytes(Select(v.files[l + 2], Some(smallest), Some(largest))) <= maxGrandparentBytes)
  }

  /** Level 0 if the table meets that, else the first from which it may not go down, but no deeper than two. */
  ghost predicate PickedLevel(v: Version, smallest: UserKey, largest: UserKey, maxGrandparentBytes: nat, level: nat) {
    |v.files| == NUM_LEVELS &&
    if MeetsLevel(v, 0, smallest, largest) then level == 0
    else
      level <= MAX_MEM_COMPACT_LEVEL &&
      (forall l :: 0 <= l < level ==> MayGoDown(v, l, smallest, largest, maxGrandparentBytes)) &&
      (level < MAX_MEM_COMPACT_LEVEL ==> !MayGoDown(v, level, smallest, largest, maxGrandparentBytes))
  }

  /** The tests of one round of the loop below. */
  method RoomBelow(v: Version, level: nat, smallest: UserKey, largest: UserKey, maxGrandparentBytes: nat)
      returns (down: bool)
    requires v.Valid() && level + 1 < NUM_LEVELS
    ensures down <==> MayGoDown(v, level, smallest, largest, maxGrandparentBytes)
  {
    assert AllValid(v.files[level + 1]) && Apart(v.files[level + 1]) && |v.files| == NUM_LEVELS;
    hide Version.Valid, Overlaps, AllValid, Apart, Select, Bytes;
    var overlap := SomeFileOverlapsRange(true, v.files[level + 1], Some(smallest), Some(largest));
    if overlap {
      return false;
    }
    if level + 2 < NUM_LEVELS {
      var overlaps, lo, hi := GetOverlappingInputs(level + 2, v.files[level + 2], Some(smallest), Some(largest));
      var sum := TotalFileSize(overlaps);
      if sum > maxGrandparentBytes {
        return false;
      }
    }
    down := true;
  }

  /** `PickLevelForMemTableOutput`: as deep as two levels down, past levels the range does not touch. */
  method PickLevelForMemTableOutput(v: Version, smallest: UserKey, largest: UserKey, maxGrandparentBytes: nat)
      returns (level: nat)
    requires v.Valid()
    ensures PickedLevel(v, smallest, largest, maxGrandparentBytes, level)
    ensures level > 0 ==> forall l, f :: 0 <= l <= level && f in v.files[l] ==>
              !Overlaps(f, Some(smallest), Some(largest))
  {
    assert AllValid(v.files[0]) && |v.files| == NUM_LEVELS;
    hide Version.Valid, Overlaps, AllValid;
    level := 0;
    var overlap := SomeFileOverlapsRange(false, v.files[0], Some(smallest), Some(largest));
    if !overlap {
      while level < MAX_MEM_COMPACT_LEVEL
        invariant level <= MAX_MEM_COMPACT_LEVEL
        invariant forall l, f :: 0 <= l <= level && f in v.files[l] ==> !Overlaps(f, Some(smallest), Some(largest))
        invariant forall l :: 0 <= l < level ==> MayGoDown(v, l, smallest, largest, maxGrandparentBytes)
      {
        var down := RoomBelow(v, level, smallest, largest, maxGrandparentBytes);
        if !down {
          break;
        }
        level := level + 1;
      }
    }
  }
}
