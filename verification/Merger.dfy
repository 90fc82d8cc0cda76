/**
 `MergingIterator`: one iterator over several children, for any mix of directions. Keys are ranks in the comparator's
 order, and no key occurs in two children.
 */
module Merger {
  import opened Basics
  import opened Cursor = SortedCursor

  datatype Pair = Pair(key: int, value: Slice)

  ghost predicate Increasing(ps: seq<Pair>) {
    forall i, j :: 0 <= i < j < |ps| ==> ps[i].key < ps[j].key
  }

  class ChildIterator {
    const pairs: seq<Pair>
    var pos: int

    ghost predicate Valid()
      reads this
    {
      Increasing(pairs) && -1 <= pos < |pairs|
    }

    constructor (pairs: seq<Pair>)
      requires Increasing(pairs)
      ensures Valid() && this.pairs == pairs && pos == -1
    {
      this.pairs, pos := pairs, -1;
    }

    method SeekToFirst()
      requires Valid()
      modifies this
      ensures Valid() && pos == if |pairs| > 0 then 0 else -1
    {
      pos := if |pairs| > 0 then 0 else -1;
    }

    method SeekToLast()
      requires Valid()
      modifies this
      ensures Valid() && pos == |pairs| - 1
    {
      pos := |pairs| - 1;
    }

    method Seek(target: int)
      requires Valid()
      modifies this
      ensures Valid() && FirstIn(pairs, pos, Some(target), false)
    {
      var i := 0;
      while i < |pairs| && pairs[i].key < target
        invariant 0 <= i <= |pairs|
        invariant forall j :: 0 <= j < i ==> pairs[j].key < target
      {
        i := i + 1;
      }
      pos := if i < |pairs| then i else -1;
    }

    method Next()
      requires Valid() && pos >= 0
      modifies this
      ensures Valid() && pos == if old(pos) + 1 < |pairs| then old(pos) + 1 else -1
    {
      pos := if pos + 1 < |pairs| then pos + 1 else -1;
    }

    method Prev()
      requires Valid() && pos >= 0
      modifies this
      ensures Valid() && pos == old(pos) - 1
    {
      pos := pos - 1;
    }
  }

  /** Is `x` above the bound, or on it when the bound is not strict? No bound admits every key. */
  predicate AboveBound(x: int, lo: Option<int>, strict: bool) {
    lo.Some? ==> (if strict then x > lo.value else x >= lo.value)
  }

  predicate BelowBound(x: int, hi: Option<int>) {
    hi.Some? ==> x < hi.value
  }

  /** At the first key above the bound, or past the end if there is none. */
  ghost predicate FirstIn(ps: seq<Pair>, pos: int, lo: Option<int>, strict: bool)
    requires -1 <= pos < |ps|
  {
    && (pos >= 0 ==> AboveBound(ps[pos].key, lo, strict))
    && forall j :: 0 <= j < (if pos >= 0 then pos else |ps|) ==> !AboveBound(ps[j].key, lo, strict)
  }

  /** At the last key below the bound, or before the start if there is none. */
  ghost predicate LastIn(ps: seq<Pair>, pos: int, hi: Option<int>)
    requires -1 <= pos < |ps|
  {
    && (pos >= 0 ==> BelowBound(ps[pos].key, hi))
    && forall j :: (if pos >= 0 then pos + 1 else 0) <= j < |ps| ==> !BelowBound(ps[j].key, hi)
  }

  datatype Direction = Forward | Reverse

  class MergingIterator {
    const children: seq<ChildIterator>
    var current: int
    var direction: Direction

    ghost predicate Shape()
      reads this, children
    {
      && -1 <= current < |children|
      && (forall i, j :: 0 <= i < j < |children| ==> children[i] != children[j])
      && forall i :: 0 <= i < |children| ==> children[i].Valid()
    }

    /** No key occurs in two children. */
    ghost predicate Distinct() {
      forall i, j :: 0 <= i < |children| && 0 <= j < |children| && i != j ==>
          Disjoint(children[i].pairs, children[j].pairs)
    }

    /**
     Forward: every other child is at its first key above the current one. Reverse: every other child is at its last key
     below it. Both are claimed for distinct keys only.
     */
    ghost predicate Valid()
      reads this, children
    {
      && Shape()
      && (current >= 0 ==> children[current].pos >= 0)
      && (current >= 0 && Distinct() ==> OthersBeside())
    }

    ghost predicate OthersBeside()
      requires Shape() && current >= 0 && children[current].pos >= 0
      reads this, children
    {
      forall i :: 0 <= i < |children| && i != current ==>
        if direction.Forward? then FirstIn(children[i].pairs, children[i].pos, Some(Key()), true)
        else LastIn(children[i].pairs, children[i].pos, Some(Key()))
    }

    constructor (children: seq<ChildIterator>)
      requires forall i, j :: 0 <= i < j < |children| ==> children[i] != children[j]
      requires forall i :: 0 <= i < |children| ==> children[i].Valid()
      ensures Valid() && current == -1 && this.children == children
    {
      this.children, current, direction := children, -1, Forward;
    }

    function Key(): int
      requires 0 <= current < |children| && 0 <= children[current].pos < |children[current].pairs|
      reads this, children
    {
      children[current].pairs[children[current].pos].key
    }

    function Value(): Slice
      requires 0 <= current < |children| && 0 <= children[current].pos < |children[current].pairs|
      reads this, children
    {
      children[current].pairs[children[current].pos].value
    }

    ghost function At(): Option<int>
      requires Valid()
      reads this, children
    {
      if current >= 0 then Some(Key()) else None
    }

    /** The keys of all children: what the merged iterator ranges over. */
    ghost function Keys(): set<int> {
      set i, j | 0 <= i < |children| && 0 <= j < |children[i].pairs| :: children[i].pairs[j].key
    }

    /** The value shown is the one its key has, in whichever child that is. */
    lemma ShowsPair()
      requires Valid() && Distinct() && current >= 0
      ensures Key() in Keys()
      ensures forall i, j ::
                0 <= i < |children| && 0 <= j < |children[i].pairs| && children[i].pairs[j].key == Key() ==>
                  children[i].pairs[j].value == Value()
    {
      forall i | 0 <= i < |children| && i != current ensures Disjoint(children[i].pairs, children[current].pairs) {
      }
    }

    function ChildKey(i: nat): int
      requires i < |children| && 0 <= children[i].pos < |children[i].pairs|
      reads this, children
    {
      children[i].pairs[children[i].pos].key
    }

    ghost predicate AllFirst(lo: Option<int>, strict: bool)
      requires Shape()
      reads this, children
    {
      forall i :: 0 <= i < |children| ==> FirstIn(children[i].pairs, children[i].pos, lo, strict)
    }

    ghost predicate AllLast(hi: Option<int>)
      requires Shape()
      reads this, children
    {
      forall i :: 0 <= i < |children| ==> LastIn(children[i].pairs, children[i].pos, hi)
    }

    /** The valid child with the smallest key, the first of them if several. */
    method FindSmallest(ghost lo: Option<int>, ghost strict: bool)
      requires Shape() && direction.Forward?
      requires Distinct() ==> AllFirst(lo, strict)
      modifies this`current
      ensures Valid()
      ensures Distinct() ==> At() == Least(KeysAbove(Keys(), lo, strict))
    {
      var smallest := -1;
      for i := 0 to |children|
        invariant -1 <= smallest < i
        invariant smallest == -1 ==> forall j :: 0 <= j < i ==> children[j].pos == -1
        invariant smallest >= 0 ==> children[smallest].pos >= 0
        invariant smallest >= 0 ==> forall j :: 0 <= j < i && children[j].pos >= 0 ==> ChildKey(smallest) <= ChildKey(j)
      {
        if children[i].pos >= 0 {
          if smallest == -1 {
            smallest := i;
          } else if ChildKey(i) < ChildKey(smallest) {
            smallest := i;
          }
        }
      }
      current := smallest;
      if Distinct() {
        if current == -1 { NoneAbove(lo, strict); } else { SmallestIsLeast(lo, strict); }
      }
    }

    lemma NoneAbove(lo: Option<int>, strict: bool)
      requires Shape() && AllFirst(lo, strict) && forall j :: 0 <= j < |children| ==> children[j].pos == -1
      ensures KeysAbove(Keys(), lo, strict) == {}
    {
      forall k | k in Keys() ensures !AboveBound(k, lo, strict) {
        var i, j :| 0 <= i < |children| && 0 <= j < |children[i].pairs| && children[i].pairs[j].key == k;
        assert FirstIn(children[i].pairs, children[i].pos, lo, strict);
      }
    }

    lemma SmallestIsLeast(lo: Option<int>, strict: bool)
      requires Shape() && direction.Forward? && Distinct() && AllFirst(lo, strict)
      requires current >= 0 && children[current].pos >= 0
      requires forall j :: 0 <= j < |children| && children[j].pos >= 0 ==> Key() <= ChildKey(j)
      ensures OthersBeside() && Some(Key()) == Least(KeysAbove(Keys(), lo, strict))
    {
      assert FirstIn(children[current].pairs, children[current].pos, lo, strict);
      forall i | 0 <= i < |children| && i != current
        ensures FirstIn(children[i].pairs, children[i].pos, Some(Key()), true)
      {
        assert children[i].Valid() && Disjoint(children[i].pairs, children[current].pairs);
        FirstMoves(children[i].pairs, children[i].pos, lo, strict, Key());
      }
      KeyIsLeast(lo, strict);
    }

    lemma KeyIsLeast(lo: Option<int>, strict: bool)
      requires Shape() && AllFirst(lo, strict)
      requires current >= 0 && children[current].pos >= 0
      requires forall j :: 0 <= j < |children| && children[j].pos >= 0 ==> Key() <= ChildKey(j)
      ensures Some(Key()) == Least(KeysAbove(Keys(), lo, strict))
    {
      assert FirstIn(children[current].pairs, children[current].pos, lo, strict);
      assert Key() in Keys();
      forall k | k in KeysAbove(Keys(), lo, strict) ensures Key() <= k {
        var i, j :| 0 <= i < |children| && 0 <= j < |children[i].pairs| && children[i].pairs[j].key == k;
        assert FirstIn(children[i].pairs, children[i].pos, lo, strict);
        assert children[i].Valid();
      }
      LeastIs(KeysAbove(Keys(), lo, strict), Key());
    }

    /** The valid child with the largest key, the last of them if several. */
    method FindLargest(ghost hi: Option<int>)
      requires Shape() && direction.Reverse?
      requires Distinct() ==> AllLast(hi)
      modifies this`current
      ensures Valid()
      ensures Distinct() ==> At() == Greatest(KeysBelow(Keys(), hi))
    {
      var largest := -1;
      for i := |children| downto 0
        invariant largest == -1 || i <= largest < |children|
        invariant largest == -1 ==> forall j :: i <= j < |children| ==> children[j].pos == -1
        invariant largest >= 0 ==> children[largest].pos >= 0
        invariant largest >= 0 ==> forall j :: i <= j < |children| && children[j].pos >= 0 ==>
                    ChildKey(j) <= ChildKey(largest)
      {
        if children[i].pos >= 0 {
          if largest == -1 {
            largest := i;
          } else if ChildKey(i) > ChildKey(largest) {
            largest := i;
          }
        }
      }
      current := largest;
      if Distinct() {
        if current == -1 { NoneBelow(hi); } else { LargestIsGreatest(hi); }
      }
    }

    lemma NoneBelow(hi: Option<int>)
      requires Shape() && AllLast(hi) && forall j :: 0 <= j < |children| ==> children[j].pos == -1
      ensures KeysBelow(Keys(), hi) == {}
    {
      forall k | k in Keys() ensures !BelowBound(k, hi) {
        var i, j :| 0 <= i < |children| && 0 <= j < |children[i].pairs| && children[i].pairs[j].key == k;
        assert LastIn(children[i].pairs, children[i].pos, hi);
      }
    }

    lemma LargestIsGreatest(hi: Option<int>)
      requires Shape() && direction.Reverse? && Distinct() && AllLast(hi)
      requires current >= 0 && children[current].pos >= 0
      requires forall j :: 0 <= j < |children| && children[j].pos >= 0 ==> ChildKey(j) <= Key()
      ensures OthersBeside() && Some(Key()) == Greatest(KeysBelow(Keys(), hi))
    {
      assert LastIn(children[current].pairs, children[current].pos, hi);
      forall i | 0 <= i < |children| && i != current ensures LastIn(children[i].pairs, children[i].pos, Some(Key())) {
        assert children[i].Valid() && Disjoint(children[i].pairs, children[current].pairs);
        LastMoves(children[i].pairs, children[i].pos, hi, Key());
      }
      KeyIsGreatest(hi);
    }

    lemma KeyIsGreatest(hi: Option<int>)
      requires Shape() && AllLast(hi)
      requires current >= 0 && children[current].pos >= 0
      requires forall j :: 0 <= j < |children| && children[j].pos >= 0 ==> ChildKey(j) <= Key()
      ensures Some(Key()) == Greatest(KeysBelow(Keys(), hi))
    {
      assert LastIn(children[current].pairs, children[current].pos, hi);
      assert Key() in Keys();
      forall k | k in KeysBelow(Keys(), hi) ensures k <= Key() {
        var i, j :| 0 <= i < |children| && 0 <= j < |children[i].pairs| && children[i].pairs[j].key == k;
        assert LastIn(children[i].pairs, children[i].pos, hi);
        assert children[i].Valid();
      }
      GreatestIs(KeysBelow(Keys(), hi), Key());
    }

    method SeekToFirst()
      requires Valid()
      modifies this, children
      ensures Valid() && (Distinct() ==> At() == Step(Keys(), old(At()), Cursor.SeekToFirst))
    {
      for i := 0 to |children|
        invariant Shape()
        invariant forall j :: 0 <= j < i ==> FirstIn(children[j].pairs, children[j].pos, None, false)
      {
        children[i].SeekToFirst();
      }
      direction := Forward;
      FindSmallest(None, false);
      assert KeysAbove(Keys(), None, false) == Keys();
    }

    method SeekToLast()
      requires Valid()
      modifies this, children
      ensures Valid() && (Distinct() ==> At() == Step(Keys(), old(At()), Cursor.SeekToLast))
    {
      for i := 0 to |children|
        invariant Shape()
        invariant forall j :: 0 <= j < i ==> LastIn(children[j].pairs, children[j].pos, None)
      {
        children[i].SeekToLast();
      }
      direction := Reverse;
      FindLargest(None);
      assert KeysBelow(Keys(), None) == Keys();
    }

    method Seek(target: int)
      requires Valid()
      modifies this, children
      ensures Valid() && (Distinct() ==> At() == Step(Keys(), old(At()), Cursor.Seek(target)))
    {
      for i := 0 to |children|
        invariant Shape()
        invariant forall j :: 0 <= j < i ==> FirstIn(children[j].pairs, children[j].pos, Some(target), false)
      {
        children[i].Seek(target);
      }
      direction := Forward;
      FindSmallest(Some(target), false);
      assert KeysAbove(Keys(), Some(target), false) == From(Keys(), target);
    }

    /** Switching to forward: every other child goes to its first key after the current one. */
    method MoveOthersAfter()
      requires Shape() && current >= 0 && children[current].pos >= 0
      modifies this`direction, set i | 0 <= i < |children| && i != current :: children[i]
      ensures Shape() && current >= 0 && children[current].pos >= 0
      ensures direction.Forward? && OthersBeside()
      ensures children[current].pos == old(children[current].pos)
    {
      for i := 0 to |children|
        invariant Shape() && children[current].pos == old(children[current].pos)
        invariant forall j :: 0 <= j < i && j != current ==>
                    FirstIn(children[j].pairs, children[j].pos, Some(Key()), true)
      {
        if i != current {
          MoveAfter(children[i], Key());
        }
      }
      direction := Forward;
    }

    /** Switching to reverse: every other child goes to its last key before the current one. */
    method MoveOthersBefore()
      requires Shape() && current >= 0 && children[current].pos >= 0
      modifies this`direction, set i | 0 <= i < |children| && i != current :: children[i]
      ensures Shape() && current >= 0 && children[current].pos >= 0
      ensures direction.Reverse? && OthersBeside()
      ensures children[current].pos == old(children[current].pos)
    {
      for i := 0 to |children|
        invariant Shape() && children[current].pos == old(children[current].pos)
        invariant forall j :: 0 <= j < i && j != current ==> LastIn(children[j].pairs, children[j].pos, Some(Key()))
      {
        if i != current {
          MoveBefore(children[i], Key());
        }
      }
      direction := Reverse;
    }

    method Next()
      requires Valid() && current >= 0
      modifies this, children
      ensures Valid() && (Distinct() ==> At() == Step(Keys(), old(At()), Cursor.Next))
    {
      Neighbours(children[current].pairs, children[current].pos);
      hide Disjoint, Distinct, Increasing;
      ghost var k := Key();
      if direction.Reverse? {
        MoveOthersAfter();
      }
      children[current].Next();
      FindSmallest(Some(k), true);
      assert KeysAbove(Keys(), Some(k), true) == Above(Keys(), k);
    }

    method Prev()
      requires Valid() && current >= 0
      modifies this, children
      ensures Valid() && (Distinct() ==> At() == Step(Keys(), old(At()), Cursor.Prev))
    {
      Neighbours(children[current].pairs, children[current].pos);
      hide Disjoint, Distinct, Increasing;
      ghost var k := Key();
      if direction.Forward? {
        MoveOthersBefore();
      }
      children[current].Prev();
      FindLargest(Some(k));
      assert KeysBelow(Keys(), Some(k)) == Below(Keys(), k);
    }

    /** Any legal run, direction switches included, plays as on one cursor over all keys. */
    method Run(ops: seq<Op>)
      requires Valid() && Distinct() && Legal(Keys(), At(), ops)
      modifies this, children
      ensures Valid() && At() == Play(Keys(), old(At()), ops)
    {
      var i := 0;
      while i < |ops|
        invariant 0 <= i <= |ops| && Valid()
        invariant Legal(Keys(), At(), ops[i..])
        invariant Play(Keys(), At(), ops[i..]) == Play(Keys(), old(At()), ops)
        decreases |ops| - i
      {
        assert ops[i..][1..] == ops[i + 1..];
        match ops[i] {
          case SeekToFirst => SeekToFirst();
          case SeekToLast => SeekToLast();
          case Seek(target) => Seek(target);
          case Next => Next();
          case Prev => Prev();
        }
        i := i + 1;
      }
    }
  }

  /** To the first key after `key`, stepping over `key` itself. */
  method MoveAfter(child: ChildIterator, key: int)
    requires child.Valid()
    modifies child
    ensures child.Valid() && FirstIn(child.pairs, child.pos, Some(key), true)
  {
    child.Seek(key);
    if child.pos >= 0 && child.pairs[child.pos].key == key {
      child.Next();
    }
  }

  /** To the last key before `key`. */
  method MoveBefore(child: ChildIterator, key: int)
    requires child.Valid()
    modifies child
    ensures child.Valid() && LastIn(child.pairs, child.pos, Some(key))
  {
    child.Seek(key);
    if child.pos >= 0 {
      child.Prev();
    } else {
      child.SeekToLast();
    }
  }

  /** A child at its first key past a bound is also at its first key past any key below that one which it lacks. */
  lemma FirstMoves(ps: seq<Pair>, pos: int, lo: Option<int>, strict: bool, k: int)
    requires Increasing(ps) && -1 <= pos < |ps| && FirstIn(ps, pos, lo, strict) && AboveBound(k, lo, strict)
    requires pos >= 0 ==> k <= ps[pos].key
    requires forall j :: 0 <= j < |ps| ==> ps[j].key != k
    ensures FirstIn(ps, pos, Some(k), true)
  {
  }

  lemma LastMoves(ps: seq<Pair>, pos: int, hi: Option<int>, k: int)
    requires Increasing(ps) && -1 <= pos < |ps| && LastIn(ps, pos, hi) && BelowBound(k, hi)
    requires pos >= 0 ==> ps[pos].key <= k
    requires forall j :: 0 <= j < |ps| ==> ps[j].key != k
    ensures LastIn(ps, pos, Some(k))
  {
  }

  lemma Neighbours(ps: seq<Pair>, pos: int)
    requires Increasing(ps) && 0 <= pos < |ps|
    ensures FirstIn(ps, if pos + 1 < |ps| then pos + 1 else -1, Some(ps[pos].key), true)
    ensures LastIn(ps, pos - 1, Some(ps[pos].key))
  {
  }

  ghost function KeysAbove(s: set<int>, lo: Option<int>, strict: bool): set<int> {
    set x | x in s && AboveBound(x, lo, strict)
  }

  ghost function KeysBelow(s: set<int>, hi: Option<int>): set<int> {
    set x | x in s && BelowBound(x, hi)
  }

  ghost predicate Disjoint(a: seq<Pair>, b: seq<Pair>) {
    forall i, j :: 0 <= i < |a| && 0 <= j < |b| ==> a[i].key != b[j].key
  }
}
