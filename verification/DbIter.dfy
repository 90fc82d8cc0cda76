/**
 `DBIter`: the iterator a client sees. It walks all entries of the database through an inner iterator and shows, per
 user key, what the read at its sequence number shows.
 */
module DbIter {
  import opened Basics
  import opened DbFormat
  import opened Cursor = SortedCursor

  /** The inner iterator: a position in the sorted entries, or none. There is one invalid position only. */
  class InternalIterator {
    const entries: seq<Entry>
    var pos: int

    ghost predicate Valid()
      reads this
    {
      Sorted(entries) && -1 <= pos < |entries|
    }

    constructor (entries: seq<Entry>)
      requires Sorted(entries)
      ensures Valid() && this.entries == entries && pos == -1
    {
      this.entries, pos := entries, -1;
    }

    method SeekToFirst()
      requires Valid()
      modifies this
      ensures Valid() && pos == if |entries| > 0 then 0 else -1
    {
      pos := if |entries| > 0 then 0 else -1;
    }

    method SeekToLast()
      requires Valid()
      modifies this
      ensures Valid() && pos == |entries| - 1
    {
      pos := |entries| - 1;
    }

    method Seek(target: InternalKey)
      requires Valid()
      modifies this
      ensures Valid()
      ensures pos == -1 ==> forall j :: 0 <= j < |entries| ==> Before(entries[j].key, target)
      ensures pos >= 0 ==> !Before(entries[pos].key, target) && forall j :: 0 <= j < pos ==>
                Before(entries[j].key, target)
    {
      var i := 0;
      while i < |entries| && Before(entries[i].key, target)
        invariant 0 <= i <= |entries|
        invariant forall j :: 0 <= j < i ==> Before(entries[j].key, target)
      {
        i := i + 1;
      }
      pos := if i < |entries| then i else -1;
    }

    method Next()
      requires Valid() && pos >= 0
      modifies this
      ensures Valid() && pos == if old(pos) + 1 < |entries| then old(pos) + 1 else -1
    {
      pos := if pos + 1 < |entries| then pos + 1 else -1;
    }

    method Prev()
      requires Valid() && pos >= 0
      modifies this
      ensures Valid() && pos == old(pos) - 1
    {
      pos := pos - 1;
    }
  }

  // ---------------------------------------------------------------------------------------------------------------
  // Positions that show something

  /** The entry at `i` is visible at the sequence number. */
  ghost predicate Vis(es: seq<Entry>, s: SequenceNumber, i: int)
    requires 0 <= i < |es|
  {
    es[i].key.seqno <= s
  }

  /** The entry at `i` is the newest visible one of its user key, and it is a value. */
  ghost predicate Yields(es: seq<Entry>, s: SequenceNumber, i: int)
    requires 0 <= i < |es|
  {
    && Vis(es, s, i) && es[i].key.kind.TypeValue?
    && forall j :: 0 <= j < i && Vis(es, s, j) ==> es[j].key.user != es[i].key.user
  }

  /** The user keys a read at `s` finds: the map the client iterates over. */
  ghost function LiveKeys(es: seq<Entry>, s: SequenceNumber): set<UserKey> {
    set e | e in es && Read(EntrySet(es), e.key.user, s).Some? :: e.key.user
  }

  lemma SortedUnique(es: seq<Entry>)
    requires Sorted(es)
    ensures UniqueKeys(EntrySet(es))
  {
  }

  /** A position that yields is what the read at its user key answers. */
  lemma YieldIsRead(es: seq<Entry>, s: SequenceNumber, i: int)
    requires Sorted(es) && 0 <= i < |es| && Yields(es, s, i)
    ensures Read(EntrySet(es), es[i].key.user, s) == Some(es[i].value)
    ensures es[i].key.user in LiveKeys(es, s)
  {
    SortedUnique(es);
    var u := es[i].key.user;
    forall o | Sees(EntrySet(es), u, s, o) ensures Tag(o.key) <= Tag(es[i].key) {
      var j :| 0 <= j < |es| && es[j] == o;
      assert Vis(es, s, j);
    }
    assert Newest(EntrySet(es), u, s, es[i]);
    ReadIs(EntrySet(es), u, s, es[i]);
  }

  /** Every live key is yielded somewhere. */
  lemma LiveYields(es: seq<Entry>, s: SequenceNumber, u: UserKey) returns (i: int)
    requires Sorted(es) && u in LiveKeys(es, s)
    ensures 0 <= i < |es| && Yields(es, s, i) && es[i].key.user == u
  {
    SortedUnique(es);
    var e :| Newest(EntrySet(es), u, s, e);
    ReadIs(EntrySet(es), u, s, e);
    assert Sees(EntrySet(es), u, s, e);
    i :| 0 <= i < |es| && es[i] == e;
    forall j | 0 <= j < i && Vis(es, s, j) ensures es[j].key.user != u {
      if es[j].key.user == u { assert Sees(EntrySet(es), u, s, es[j]); }
    }
  }

  /** No position up to `p` (or from `p`) yields a key of the given kind: then no such key is live there. */
  lemma UsersSorted(es: seq<Entry>, i: int, j: int)
    requires Sorted(es) && 0 <= i <= j < |es|
    ensures es[i].key.user <= es[j].key.user
  {
  }

  datatype Direction = Forward | Reverse

  class DBIter {
    const iter: InternalIterator
    const sequence: SequenceNumber
    var direction: Direction
    var valid: bool
    var savedKey: Option<UserKey>
    var savedValue: Slice

    /**
     Forward: the inner iterator is at the entry shown. Reverse: the entry shown is in the saved key and value, and the
     inner iterator is at the last visible entry of a smaller user key, or at none if there is none.
     */
    ghost predicate Valid()
      reads this, iter
    {
      && iter.Valid()
      && (valid ==> match direction
                    case Forward => iter.pos >= 0 && Yields(iter.entries, sequence, iter.pos)
                    case Reverse =>
                      savedKey.Some? && Parked(iter.entries, sequence, iter.pos, savedKey.value, savedValue))
    }

    constructor (iter: InternalIterator, sequence: SequenceNumber)
      requires iter.Valid()
      ensures Valid() && !valid && this.iter == iter && this.sequence == sequence
    {
      this.iter, this.sequence := iter, sequence;
      direction, valid, savedKey, savedValue := Forward, false, None, [];
    }

    function Key(): UserKey
      requires Valid() && valid
      reads this, iter
    {
      if direction.Forward? then iter.entries[iter.pos].key.user else savedKey.value
    }

    function Value(): Slice
      requires Valid() && valid
      reads this, iter
    {
      if direction.Forward? then iter.entries[iter.pos].value else savedValue
    }

    /** What a client sees of the position. */
    ghost function At(): Option<UserKey>
      requires Valid()
      reads this, iter
    {
      if valid then Some(Key()) else None
    }

    ghost function Keys(): set<UserKey> {
      LiveKeys(iter.entries, sequence)
    }

    /** Whatever is shown is live, with the value a read gives. */
    lemma ShowsRead()
      requires Valid() && valid
      ensures Key() in Keys() && Read(EntrySet(iter.entries), Key(), sequence) == Some(Value())
    {
      if direction.Forward? {
        YieldIsRead(iter.entries, sequence, iter.pos);
      } else {
        var j :| 0 <= j < |iter.entries| && Yields(iter.entries, sequence, j) &&
                 iter.entries[j].key.user == savedKey.value && iter.entries[j].value == savedValue;
        YieldIsRead(iter.entries, sequence, j);
      }
    }

    method Next()
      requires Valid() && valid
      modifies this, iter
      ensures Valid() && At() == Step(Keys(), old(At()), Cursor.Next)
    {
      ghost var es, k, before := iter.entries, Key(), iter.pos;
      if direction.Forward? {
        ShownLast(es, sequence, iter.pos);
      } else {
        ParkedBelow(es, sequence, iter.pos, k, savedValue);
      }
      hide Yields, Parked, Skipping, NoneYielded, LiveKeys;
      if direction.Reverse? {
        direction := Forward;
        if iter.pos == -1 {
          iter.SeekToFirst();
        } else {
          iter.Next();
        }
      } else {
        savedKey := Some(iter.entries[iter.pos].key.user);
        iter.Next();
      }
      SplitStarts(es, sequence, before, k);
      if iter.pos == -1 {
        valid := false;
        savedKey := None;
        NothingAbove(es, sequence, k);
        return;
      }
      FindNextUserEntry(true, savedKey);
      NextFound(es, sequence, k, before + 1, valid, iter.pos);
    }

    /** Scans forward from the inner position for the first entry that yields a key above `skip`, if skipping. */
    method FindNextUserEntry(skipping0: bool, skip0: Option<UserKey>)
      requires iter.Valid() && iter.pos >= 0 && direction.Forward?
      requires Skipping(iter.entries, sequence, iter.pos, iter.pos, skipping0, skip0, skipping0, skip0)
      modifies this, iter
      ensures Valid() && direction.Forward?
      ensures valid ==> old(iter.pos) <= iter.pos && PastFloor(iter.entries, iter.pos, skipping0, skip0)
      ensures NoneYielded(iter.entries, sequence, old(iter.pos), if valid then iter.pos
                          else |iter.entries|, skipping0, skip0)
    {
      var skipping, skip := skipping0, skip0;
      ghost var es, start := iter.entries, iter.pos;
      while true
        invariant iter.Valid() && start <= iter.pos && direction.Forward?
        invariant NoneYielded(es, sequence, start, iter.pos, skipping0, skip0)
        invariant Skipping(es, sequence, start, iter.pos, skipping0, skip0, skipping, skip)
        decreases |es| - iter.pos
      {
        hide Skipping, NoneYielded, Yields;
        var e := iter.entries[iter.pos];
        ghost var wasSkipping, wasSkip := skipping, skip;
        if e.key.seqno <= sequence {
          match e.key.kind
          case TypeDeletion =>
            skip := Some(e.key.user);
            skipping := true;
          case TypeValue =>
            if skipping && e.key.user <= skip.value {
            } else {
              FirstShown(es, sequence, start, iter.pos, skipping0, skip0, skipping, skip);
              valid := true;
              savedKey := None;
              return;
            }
        }
        SkipOne(es, sequence, start, iter.pos, skipping0, skip0, wasSkipping, wasSkip, skipping, skip);
        iter.Next();
        if iter.pos == -1 {
          break;
        }
      }
      savedKey := None;
      valid := false;
    }

    method Prev()
      requires Valid() && valid
      modifies this, iter
      ensures Valid() && At() == Step(Keys(), old(At()), Cursor.Prev)
    {
      ghost var es, k := iter.entries, Key();
      if direction.Reverse? { ParkedStarts(es, sequence, iter.pos, k, savedValue); }
      hide Yields, Parked, Separated, LiveKeys;
      if direction.Forward? {
        savedKey := Some(iter.entries[iter.pos].key.user);
        while true
          invariant iter.Valid() && 0 <= iter.pos && savedKey == Some(k)
          invariant forall q :: iter.pos <= q < |es| ==> es[q].key.user >= k
          decreases iter.pos
        {
          iter.Prev();
          if iter.pos == -1 {
            valid := false;
            savedKey := None;
            savedValue := [];
            NothingBelow(es, sequence, k);
            return;
          }
          if iter.entries[iter.pos].key.user < savedKey.value {
            break;
          }
        }
        direction := Reverse;
        DroppedBelow(es, sequence, iter.pos, k);
      }
      ghost var p := iter.pos;
      FindPrevUserEntry();
      PrevFound(es, sequence, k, p, At());
    }

    /** Scans backward from the inner position for the greatest user key that is yielded up to there. */
    method FindPrevUserEntry()
      requires iter.Valid() && direction.Reverse?
      requires Separated(iter.entries, sequence, iter.pos)
      modifies this, iter
      ensures Valid()
      ensures forall q :: 0 <= q <= old(iter.pos) && Yields(iter.entries, sequence, q) ==>
                At().Some? && iter.entries[q].key.user <= At().value
      ensures At().Some? ==> exists q :: 0 <= q <= old(iter.pos) && Yields(iter.entries, sequence, q) &&
                                         iter.entries[q].key.user == At().value
    {
      ghost var es, top := iter.entries, iter.pos;
      var valueType, last := ScanBack();
      if valueType.TypeDeletion? {
        valid := false;
        savedKey := None;
        savedValue := [];
        direction := Forward;
      } else {
        valid := true;
        ScanParks(es, sequence, iter.pos, top, last, savedKey, savedValue);
      }
    }

    /** The backward loop: it stops at the first visible entry below a value it has saved, or at the front. */
    method ScanBack() returns (valueType: ValueType, ghost last: int)
      requires iter.Valid()
      modifies this, iter
      ensures iter.Valid() && iter.pos <= old(iter.pos)
      ensures Scanned(iter.entries, sequence, iter.pos, old(iter.pos), last, valueType, savedKey, savedValue)
      ensures iter.pos >= 0 ==> valueType.TypeValue? && Vis(iter.entries, sequence, iter.pos) &&
                                savedKey.Some? && iter.entries[iter.pos].key.user < savedKey.value
      ensures valid == old(valid) && direction == old(direction)
    {
      ghost var es, top := iter.entries, iter.pos;
      last := -1;
      valueType := TypeDeletion;
      while iter.pos >= 0
        invariant iter.Valid() && iter.pos <= top
        invariant Scanned(es, sequence, iter.pos, top, last, valueType, savedKey, savedValue)
        invariant valid == old(valid) && direction == old(direction)
        decreases iter.pos
      {
        SavedWhenValue(es, sequence, iter.pos, top, last, valueType, savedKey, savedValue);
        hide Scanned;
        ghost var last0, kind0, key0, value0 := last, valueType, savedKey, savedValue;
        var e := iter.entries[iter.pos];
        if e.key.seqno <= sequence {
          if valueType.TypeValue? && e.key.user < savedKey.value {
            return;
          }
          last := iter.pos;
          valueType := e.key.kind;
          if valueType.TypeDeletion? {
            savedKey := None;
            savedValue := [];
          } else {
            savedKey := Some(e.key.user);
            savedValue := e.value;
          }
        }
        ScanOne(es, sequence, iter.pos, top, last0, kind0, key0, value0, last, valueType, savedKey, savedValue);
        iter.Prev();
      }
    }

    method Seek(target: UserKey)
      requires Valid()
      modifies this, iter
      ensures Valid() && At() == Step(Keys(), old(At()), Cursor.Seek(target))
    {
      ghost var es := iter.entries;
      direction := Forward;
      savedValue := [];
      savedKey := None;
      iter.Seek(SeekKey(target, sequence));
      if iter.pos >= 0 {
        ghost var p := iter.pos;
        FindNextUserEntry(false, savedKey);
        SeekFound(es, sequence, target, p, valid, iter.pos);
      } else {
        valid := false;
        NothingFrom(es, sequence, target);
      }
    }

    method SeekToFirst()
      requires Valid()
      modifies this, iter
      ensures Valid() && At() == Step(Keys(), old(At()), Cursor.SeekToFirst)
    {
      ghost var es := iter.entries;
      direction := Forward;
      savedValue := [];
      iter.SeekToFirst();
      if iter.pos >= 0 {
        FindNextUserEntry(false, savedKey);
        FirstFound(es, sequence, valid, iter.pos);
      } else {
        valid := false;
        assert Keys() == {};
      }
    }

    method SeekToLast()
      requires Valid()
      modifies this, iter
      ensures Valid() && At() == Step(Keys(), old(At()), Cursor.SeekToLast)
    {
      ghost var es := iter.entries;
      direction := Reverse;
      savedValue := [];
      iter.SeekToLast();
      FindPrevUserEntry();
      LastFound(es, sequence, At());
    }

    /** Any legal run of operations, direction switches included, plays as on the cursor over the live keys. */
    method Run(ops: seq<Op>)
      requires Valid() && Legal(Keys(), At(), ops)
      modifies this, iter
      ensures Valid() && At() == Play(Keys(), old(At()), ops)
      ensures valid ==> Key() in Keys() && Read(EntrySet(iter.entries), Key(), sequence) == Some(Value())
    {
      var i := 0;
      while i < |ops|
        invariant 0 <= i <= |ops| && Valid()
        invariant Legal(Keys(), At(), ops[i..])
        invariant Play(Keys(), At(), ops[i..]) == Play(Keys(), old(At()), ops)
        decreases |ops| - i
      {
        assert ops[i..][1..] == ops[i + 1..];
        match ops[i] {
          case SeekToFirst => SeekToFirst();
          case SeekToLast => SeekToLast();
          case Seek(target) => Seek(target);
          case Next => Next();
          case Prev => Prev();
        }
        i := i + 1;
      }
      if valid { ShowsRead(); }
    }
  }

  // ---------------------------------------------------------------------------------------------------------------
  // Loop states and their steps

  ghost predicate Parked(es: seq<Entry>, s: SequenceNumber, pos: int, key: UserKey, value: Slice)
    requires -1 <= pos < |es|
  {
    && (pos >= 0 ==> Vis(es, s, pos) && es[pos].key.user < key)
    && (forall q :: pos < q < |es| && Vis(es, s, q) ==> es[q].key.user >= key)
    && exists j :: 0 <= j < |es| && Yields(es, s, j) && es[j].key.user == key && es[j].value == value
  }

  ghost predicate PastFloor(es: seq<Entry>, q: int, skipping: bool, skip: Option<UserKey>)
    requires 0 <= q < |es|
  {
    skipping && skip.Some? ==> es[q].key.user > skip.value
  }

  /** Up to and including `p` nothing above `k` is visible, and after it nothing below `k` is. */
  ghost predicate SplitAt(es: seq<Entry>, s: SequenceNumber, p: int, k: UserKey)
    requires -1 <= p < |es|
  {
    && (forall q :: 0 <= q <= p && Vis(es, s, q) ==> es[q].key.user <= k)
    && (forall q :: p < q < |es| && Vis(es, s, q) ==> es[q].key.user >= k)
  }

  lemma ShownLast(es: seq<Entry>, s: SequenceNumber, p: int)
    requires Sorted(es) && 0 <= p < |es|
    ensures SplitAt(es, s, p, es[p].key.user)
  {
  }

  lemma ParkedBelow(es: seq<Entry>, s: SequenceNumber, p: int, key: UserKey, value: Slice)
    requires Sorted(es) && -1 <= p < |es| && Parked(es, s, p, key, value)
    ensures SplitAt(es, s, p, key)
    ensures |es| > 0
  {
    if p >= 0 {
      forall q | 0 <= q <= p ensures es[q].key.user <= es[p].key.user { UsersSorted(es, q, p); }
    }
  }

  lemma SplitStarts(es: seq<Entry>, s: SequenceNumber, p: int, k: UserKey)
    requires -1 <= p < |es| && SplitAt(es, s, p, k)
    ensures p + 1 < |es| ==> Skipping(es, s, p + 1, p + 1, true, Some(k), true, Some(k))
    ensures forall q :: 0 <= q <= p && Yields(es, s, q) ==> es[q].key.user <= k
  {
  }

  ghost predicate NoneYielded(es: seq<Entry>, s: SequenceNumber, from: int, to: int, skipping: bool,
                              skip: Option<UserKey>)
    requires 0 <= from <= to <= |es|
  {
    forall q :: from <= q < to && PastFloor(es, q, skipping, skip) ==> !Yields(es, s, q)
  }

  /** Forward scan: what has been skipped so far, and why. */
  ghost predicate Skipping(es: seq<Entry>, s: SequenceNumber, start: int, pos: int, skipping0: bool,
                           skip0: Option<UserKey>, skipping: bool, skip: Option<UserKey>)
    requires 0 <= start <= pos < |es|
  {
    && (skipping0 ==> skipping && skip0.Some? &&
                      forall q :: start <= q < |es| && Vis(es, s, q) ==> es[q].key.user >= skip0.value)
    && (if skipping then
          && skip.Some?
          && (forall q :: 0 <= q < pos && Vis(es, s, q) ==> es[q].key.user <= skip.value)
          && ((skipping0 && skip.value == skip0.value) ||
              ((skipping0 ==> skip0.value <= skip.value) &&
               exists q :: 0 <= q < pos && Vis(es, s, q) && es[q].key.user == skip.value))
        else
          forall q :: 0 <= q < pos && Vis(es, s, q) ==> es[q].key.user < es[start].key.user)
  }

  /** The entry passed yields nothing past the floor, and the scan state moves on. */
  lemma SkipOne(es: seq<Entry>, s: SequenceNumber, start: int, pos: int, skipping0: bool, skip0: Option<UserKey>,
                skipping: bool, skip: Option<UserKey>, skipping': bool, skip': Option<UserKey>)
    requires Sorted(es) && 0 <= start <= pos < |es| && Skipping(es, s, start, pos, skipping0, skip0, skipping, skip)
    requires NoneYielded(es, s, start, pos, skipping0, skip0)
    requires if Vis(es, s, pos) && es[pos].key.kind.TypeDeletion? then skipping' && skip' == Some(es[pos].key.user)
             else skipping' == skipping && skip' == skip
    requires Vis(es, s, pos) && es[pos].key.kind.TypeValue? ==> skipping && es[pos].key.user <= skip.value
    ensures NoneYielded(es, s, start, pos + 1, skipping0, skip0)
    ensures pos + 1 < |es| ==> Skipping(es, s, start, pos + 1, skipping0, skip0, skipping', skip')
  {
    forall q | 0 <= q <= pos ensures es[q].key.user <= es[pos].key.user { UsersSorted(es, q, pos); }
  }

  lemma FirstShown(es: seq<Entry>, s: SequenceNumber, start: int, pos: int, skipping0: bool, skip0: Option<UserKey>,
                   skipping: bool, skip: Option<UserKey>)
    requires Sorted(es) && 0 <= start <= pos < |es| && Skipping(es, s, start, pos, skipping0, skip0, skipping, skip)
    requires Vis(es, s, pos) && es[pos].key.kind.TypeValue? && (skipping ==> es[pos].key.user > skip.value)
    ensures Yields(es, s, pos) && PastFloor(es, pos, skipping0, skip0)
  {
    UsersSorted(es, start, pos);
  }

  /** Backward scan from `top`: `last` is the lowest visible position passed, and above it nothing is yielded. */
  ghost predicate Scanned(es: seq<Entry>, s: SequenceNumber, pos: int, top: int, last: int, kind: ValueType,
                          savedKey: Option<UserKey>, savedValue: Slice)
    requires -1 <= pos <= top < |es|
  {
    if last == -1 then
      kind.TypeDeletion? && forall q :: pos < q <= top ==> !Vis(es, s, q)
    else
      && pos < last <= top && Vis(es, s, last)
      && (forall q :: pos < q < last ==> !Vis(es, s, q))
      && (forall q :: last < q <= top ==> !Yields(es, s, q))
      && kind == es[last].key.kind
      && (kind.TypeValue? ==> savedKey == Some(es[last].key.user) && savedValue == es[last].value)
  }

  /** The visible user keys up to `top` are all smaller than those after it. */
  ghost predicate Separated(es: seq<Entry>, s: SequenceNumber, top: int)
    requires -1 <= top < |es|
  {
    forall q, r :: 0 <= q <= top < r < |es| && Vis(es, s, q) && Vis(es, s, r) ==> es[q].key.user < es[r].key.user
  }

  /** The positions up to `p` are below `k` and the visible ones after it are not: a backward scan may start. */
  ghost predicate ReadyBack(es: seq<Entry>, s: SequenceNumber, p: int, k: UserKey)
    requires -1 <= p < |es|
  {
    && (forall q :: 0 <= q <= p ==> es[q].key.user < k)
    && (forall q :: p < q < |es| && Vis(es, s, q) ==> es[q].key.user >= k)
  }

  lemma ParkedStarts(es: seq<Entry>, s: SequenceNumber, p: int, key: UserKey, value: Slice)
    requires Sorted(es) && -1 <= p < |es| && Parked(es, s, p, key, value)
    ensures ReadyBack(es, s, p, key) && Separated(es, s, p)
  {
    forall q | 0 <= q <= p ensures es[q].key.user < key { UsersSorted(es, q, p); }
  }

  lemma DroppedBelow(es: seq<Entry>, s: SequenceNumber, p: int, k: UserKey)
    requires Sorted(es) && 0 <= p < |es| && es[p].key.user < k
    requires forall q :: p < q < |es| ==> es[q].key.user >= k
    ensures ReadyBack(es, s, p, k) && Separated(es, s, p)
  {
    forall q | 0 <= q <= p ensures es[q].key.user < k { UsersSorted(es, q, p); }
  }

  lemma SavedWhenValue(es: seq<Entry>, s: SequenceNumber, pos: int, top: int, last: int, kind: ValueType,
                       savedKey: Option<UserKey>, savedValue: Slice)
    requires -1 <= pos <= top < |es| && Scanned(es, s, pos, top, last, kind, savedKey, savedValue)
    ensures kind.TypeValue? ==> savedKey.Some?
  {
  }

  lemma ScanOne(es: seq<Entry>, s: SequenceNumber, pos: int, top: int, last: int, kind: ValueType, key: Option<UserKey>,
                value: Slice, last': int, kind': ValueType, key': Option<UserKey>, value': Slice)
    requires Sorted(es) && 0 <= pos <= top < |es| && Scanned(es, s, pos, top, last, kind, key, value)
    requires if Vis(es, s, pos) then
               && (kind.TypeValue? ==> es[pos].key.user >= key.value)
               && last' == pos && kind' == es[pos].key.kind
               && (kind'.TypeValue? ==> key' == Some(es[pos].key.user) && value' == es[pos].value)
             else
               last' == last && kind' == kind && key' == key && value' == value
    ensures Scanned(es, s, pos - 1, top, last', kind', key', value')
  {
    if Vis(es, s, pos) && last >= 0 {
      UsersSorted(es, pos, last);
      assert !Yields(es, s, last);
    }
  }

  lemma ScanParks(es: seq<Entry>, s: SequenceNumber, pos: int, top: int, last: int, savedKey: Option<UserKey>,
                  savedValue: Slice)
    requires Sorted(es) && -1 <= pos <= top < |es| && Scanned(es, s, pos, top, last, TypeValue, savedKey, savedValue)
    requires Separated(es, s, top)
    requires pos >= 0 ==> Vis(es, s, pos) && es[pos].key.user < savedKey.value
    ensures Parked(es, s, pos, savedKey.value, savedValue)
    ensures Yields(es, s, last)
    ensures forall q :: 0 <= q <= top && Yields(es, s, q) ==> es[q].key.user <= savedKey.value
  {
    forall j | 0 <= j < last && Vis(es, s, j) ensures es[j].key.user < es[last].key.user {
      UsersSorted(es, j, pos);
    }
    forall q | last <= q < |es| ensures es[q].key.user >= es[last].key.user { UsersSorted(es, last, q); }
  }

  // ---------------------------------------------------------------------------------------------------------------
  // Where a scan ends is where the cursor goes

  lemma LiveWhereYielded(es: seq<Entry>, s: SequenceNumber)
    requires Sorted(es)
    ensures forall q :: 0 <= q < |es| && Yields(es, s, q) ==> es[q].key.user in LiveKeys(es, s)
    ensures forall u :: u in LiveKeys(es, s) ==> exists q :: 0 <= q < |es| && Yields(es, s, q) && es[q].key.user == u
  {
    forall q | 0 <= q < |es| && Yields(es, s, q) ensures es[q].key.user in LiveKeys(es, s) { YieldIsRead(es, s, q); }
    forall u | u in LiveKeys(es, s) ensures exists q :: 0 <= q < |es| && Yields(es, s, q) && es[q].key.user == u {
      var q := LiveYields(es, s, u);
    }
  }

  lemma NothingAbove(es: seq<Entry>, s: SequenceNumber, k: UserKey)
    requires Sorted(es) && forall q :: 0 <= q < |es| && Yields(es, s, q) ==> es[q].key.user <= k
    ensures Least(Above(LiveKeys(es, s), k)) == None
  {
    LiveWhereYielded(es, s);
    assert Above(LiveKeys(es, s), k) == {};
  }

  lemma NothingBelow(es: seq<Entry>, s: SequenceNumber, k: UserKey)
    requires Sorted(es) && forall q :: 0 <= q < |es| && Yields(es, s, q) ==> es[q].key.user >= k
    ensures Greatest(Below(LiveKeys(es, s), k)) == None
  {
    LiveWhereYielded(es, s);
    assert Below(LiveKeys(es, s), k) == {};
  }

  lemma NothingFrom(es: seq<Entry>, s: SequenceNumber, k: UserKey)
    requires Sorted(es) && forall q :: 0 <= q < |es| && Yields(es, s, q) ==> es[q].key.user < k
    ensures Least(From(LiveKeys(es, s), k)) == None
  {
    LiveWhereYielded(es, s);
    assert From(LiveKeys(es, s), k) == {};
  }

  lemma NextFound(es: seq<Entry>, s: SequenceNumber, k: UserKey, p: int, found: bool, pos: int)
    requires Sorted(es) && 0 <= p < |es|
    requires forall q :: 0 <= q < p && Yields(es, s, q) ==> es[q].key.user <= k
    requires found ==> p <= pos < |es| && Yields(es, s, pos) && es[pos].key.user > k
    requires NoneYielded(es, s, p, if found then pos else |es|, true, Some(k))
    ensures Least(Above(LiveKeys(es, s), k)) == if found then Some(es[pos].key.user) else None
  {
    if !found {
      NothingAbove(es, s, k);
    } else {
      LiveWhereYielded(es, s);
      forall u | u in Above(LiveKeys(es, s), k) ensures es[pos].key.user <= u {
        var q := LiveYields(es, s, u);
        UsersSorted(es, pos, q);
      }
      LeastIs(Above(LiveKeys(es, s), k), es[pos].key.user);
    }
  }

  lemma SeekFound(es: seq<Entry>, s: SequenceNumber, k: UserKey, p: int, found: bool, pos: int)
    requires Sorted(es) && 0 <= p < |es|
    requires forall q :: 0 <= q < p && Yields(es, s, q) ==> es[q].key.user < k
    requires es[p].key.user >= k
    requires found ==> p <= pos < |es| && Yields(es, s, pos)
    requires NoneYielded(es, s, p, if found then pos else |es|, false, None)
    ensures Least(From(LiveKeys(es, s), k)) == if found then Some(es[pos].key.user) else None
  {
    if !found {
      NothingFrom(es, s, k);
    } else {
      LiveWhereYielded(es, s);
      UsersSorted(es, p, pos);
      forall u | u in From(LiveKeys(es, s), k) ensures es[pos].key.user <= u {
        var q := LiveYields(es, s, u);
        UsersSorted(es, pos, q);
      }
      LeastIs(From(LiveKeys(es, s), k), es[pos].key.user);
    }
  }

  lemma FirstFound(es: seq<Entry>, s: SequenceNumber, found: bool, pos: int)
    requires Sorted(es)
    requires found ==> 0 <= pos < |es| && Yields(es, s, pos)
    requires NoneYielded(es, s, 0, if found then pos else |es|, false, None)
    ensures Least(LiveKeys(es, s)) == if found then Some(es[pos].key.user) else None
  {
    LiveWhereYielded(es, s);
    if !found {
      assert LiveKeys(es, s) == {};
    } else {
      forall u | u in LiveKeys(es, s) ensures es[pos].key.user <= u {
        var q := LiveYields(es, s, u);
        UsersSorted(es, pos, q);
      }
      LeastIs(LiveKeys(es, s), es[pos].key.user);
    }
  }

  lemma PrevFound(es: seq<Entry>, s: SequenceNumber, k: UserKey, p: int, at: Option<UserKey>)
    requires Sorted(es) && -1 <= p < |es|
    requires ReadyBack(es, s, p, k)
    requires forall q :: 0 <= q <= p && Yields(es, s, q) ==> at.Some? && es[q].key.user <= at.value
    requires at.Some? ==> exists q :: 0 <= q <= p && Yields(es, s, q) && es[q].key.user == at.value
    ensures Greatest(Below(LiveKeys(es, s), k)) == at
  {
    LiveWhereYielded(es, s);
    if at.None? {
      NothingBelow(es, s, k);
    } else {
      forall u | u in Below(LiveKeys(es, s), k) ensures u <= at.value {
        var q := LiveYields(es, s, u);
      }
      GreatestIs(Below(LiveKeys(es, s), k), at.value);
    }
  }

  lemma LastFound(es: seq<Entry>, s: SequenceNumber, at: Option<UserKey>)
    requires Sorted(es)
    requires forall q :: 0 <= q < |es| && Yields(es, s, q) ==> at.Some? && es[q].key.user <= at.value
    requires at.Some? ==> exists q :: 0 <= q < |es| && Yields(es, s, q) && es[q].key.user == at.value
    ensures Greatest(LiveKeys(es, s)) == at
  {
    LiveWhereYielded(es, s);
    if at.None? {
      assert LiveKeys(es, s) == {};
    } else {
      forall u | u in LiveKeys(es, s) ensures u <= at.value { var q := LiveYields(es, s, u); }
      GreatestIs(LiveKeys(es, s), at.value);
    }
  }
}
