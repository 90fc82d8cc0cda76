/**
 The simple form every iterator is a fast form of: a cursor over a finite set of keys in order. Keys are ranks.
 */
module SortedCursor {
  import opened Basics

  ghost predicate IsLeast(s: set<int>, m: int) {
    m in s && forall x :: x in s ==> m <= x
  }

  ghost predicate IsGreatest(s: set<int>, m: int) {
    m in s && forall x :: x in s ==> x <= m
  }

  lemma {:induction false} LeastExists(s: set<int>)
    requires s != {}
    ensures exists m :: IsLeast(s, m)
  {
    assert (forall y :: y !in s) ==> s == {};
    var x: int :| x in s;
    var rest := s - {x};
    if rest == {} {
      assert forall y :: y in s ==> y == x || y in rest;
      assert IsLeast(s, x);
    } else {
      LeastExists(rest);
      var m :| IsLeast(rest, m);
      assert forall y :: y in s ==> y == x || y in rest;
      assert IsLeast(s, if x < m then x else m);
    }
  }

  lemma {:induction false} GreatestExists(s: set<int>)
    requires s != {}
    ensures exists m :: IsGreatest(s, m)
  {
    assert (forall y :: y !in s) ==> s == {};
    var x: int :| x in s;
    var rest := s - {x};
    if rest == {} {
      assert forall y :: y in s ==> y == x || y in rest;
      assert IsGreatest(s, x);
    } else {
      GreatestExists(rest);
      var m :| IsGreatest(rest, m);
      assert forall y :: y in s ==> y == x || y in rest;
      assert IsGreatest(s, if x > m then x else m);
    }
  }

  ghost function Least(s: set<int>): (r: Option<int>)
    ensures r.None? ==> s == {}
    ensures r.Some? ==> IsLeast(s, r.value)
  {
    if s == {} then None else
      LeastExists(s);
      var m :| IsLeast(s, m);
      Some(m)
  }

  ghost function Greatest(s: set<int>): (r: Option<int>)
    ensures r.None? ==> s == {}
    ensures r.Some? ==> IsGreatest(s, r.value)
  {
    if s == {} then None else
      GreatestExists(s);
      var m :| IsGreatest(s, m);
      Some(m)
  }

  ghost function Above(s: set<int>, k: int): set<int> { set x | x in s && x > k }

  ghost function Below(s: set<int>, k: int): set<int> { set x | x in s && x < k }

  ghost function From(s: set<int>, k: int): set<int> { set x | x in s && x >= k }

  datatype Op = SeekToFirst | SeekToLast | Seek(target: int) | Next | Prev

  /** `Next` and `Prev` are for valid iterators only. */
  predicate Allowed(at: Option<int>, op: Op) {
    op.Next? || op.Prev? ==> at.Some?
  }

  ghost function Step(keys: set<int>, at: Option<int>, op: Op): Option<int>
    requires Allowed(at, op)
  {
    match op
    case SeekToFirst => Least(keys)
    case SeekToLast => Greatest(keys)
    case Seek(target) => Least(From(keys, target))
    case Next => Least(Above(keys, at.value))
    case Prev => Greatest(Below(keys, at.value))
  }

  ghost predicate Legal(keys: set<int>, at: Option<int>, ops: seq<Op>)
    decreases |ops|
  {
    ops == [] || (Allowed(at, ops[0]) && Legal(keys, Step(keys, at, ops[0]), ops[1..]))
  }

  ghost function Play(keys: set<int>, at: Option<int>, ops: seq<Op>): Option<int>
    requires Legal(keys, at, ops)
    decreases |ops|
  {
    if ops == [] then at else Play(keys, Step(keys, at, ops[0]), ops[1..])
  }

  lemma LeastIs(s: set<int>, m: int)
    requires IsLeast(s, m)
    ensures Least(s) == Some(m)
  {
  }

  lemma GreatestIs(s: set<int>, m: int)
    requires IsGreatest(s, m)
    ensures Greatest(s) == Some(m)
  {
  }

  /** Stepping forward and back returns to the same key. */
  lemma PrevUndoesNext(keys: set<int>, k: int)
    requires k in keys && Step(keys, Some(k), Next).Some?
    ensures Step(keys, Step(keys, Some(k), Next), Prev) == Some(k)
  {
    var n := Step(keys, Some(k), Next).value;
    assert n in Above(keys, k);
    forall x | x in keys && x > k ensures n <= x { assert x in Above(keys, k); }
    GreatestIs(Below(keys, n), k);
  }
}
