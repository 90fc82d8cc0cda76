/**
 The memtable's skip list. The ghost list `nodes` holds the head and all nodes in key order; `linked[a]` says on how
 many levels node `a` has been linked so far. A node under insertion is linked on fewer levels than its height, and
 readers may run between any two pointer stores. Keys are ranks; every store is taken to be seen by all in one order.
 */
module SkipList {
  import opened Basics
  import opened Cursor = SortedCursor

  const MAX_HEIGHT := 12

  class Node {
    const key: int
    var next: seq<Node?>

    constructor (key: int, height: nat)
      ensures this.key == key && next == seq(height, _ => null)
    {
      this.key, next := key, seq(height, _ => null);
    }
  }

  /** The first position from `from` on that is linked on level `l`, or the end. */
  ghost function NextIdx(linked: seq<nat>, from: nat, l: nat): (r: nat)
    requires from <= |linked|
    ensures from <= r <= |linked|
    ensures forall b :: from <= b < r ==> linked[b] <= l
    ensures r < |linked| ==> linked[r] > l
    decreases |linked| - from
  {
    if from == |linked| || linked[from] > l then from else NextIdx(linked, from + 1, l)
  }

  lemma NextIdxIs(linked: seq<nat>, from: nat, l: nat, r: nat)
    requires from <= r <= |linked|
    requires forall b :: from <= b < r ==> linked[b] <= l
    requires r < |linked| ==> linked[r] > l
    ensures NextIdx(linked, from, l) == r
  {
  }

  ghost function Ptr(nodes: seq<Node>, i: nat): Node?
    requires i <= |nodes|
  {
    if i < |nodes| then nodes[i] else null
  }

  /** Every node of `nodes` after the head has a larger key than the one before it. */
  ghost predicate Ascending(nodes: seq<Node>) {
    forall a, b :: 1 <= a < b < |nodes| ==> nodes[a].key < nodes[b].key
  }

  ghost predicate HeadOnce(nodes: seq<Node>)
    requires |nodes| > 0
  {
    forall a :: 1 <= a < |nodes| ==> nodes[a] != nodes[0]
  }

  lemma NodesDiffer(nodes: seq<Node>, a: nat, b: nat)
    requires |nodes| > 0 && Ascending(nodes) && HeadOnce(nodes)
    requires a < |nodes| && b < |nodes| && a != b
    ensures nodes[a] != nodes[b]
  {
    assert 1 <= a < b ==> nodes[a].key < nodes[b].key;
    assert 1 <= b < a ==> nodes[b].key < nodes[a].key;
  }

  /** Level by level the links of node `a` point to the next node linked there. */
  ghost predicate PointsOn(next: seq<Node?>, nodes: seq<Node>, linked: seq<nat>, a: nat)
    requires |nodes| == |linked| && a < |nodes|
  {
    linked[a] <= |next| &&
    forall l :: 0 <= l < linked[a] ==> next[l] == Ptr(nodes, NextIdx(linked, a + 1, l))
  }

  ghost predicate LinksFrom(nodes: seq<Node>, linked: seq<nat>, a: nat)
    requires |nodes| == |linked| && a < |nodes|
    reads nodes[a]
  {
    PointsOn(nodes[a].next, nodes, linked, a)
  }

  /** The keys linked on level 0. */
  ghost function KeySet(nodes: seq<Node>, linked: seq<nat>): set<int>
    requires |nodes| == |linked|
  {
    set a | 1 <= a < |nodes| && linked[a] > 0 :: nodes[a].key
  }

  /** Node `a` is linked on `level` and lies before the key. */
  ghost predicate Passed(nodes: seq<Node>, linked: seq<nat>, key: int, a: nat, level: nat)
    requires |nodes| == |linked|
  {
    a < |nodes| && linked[a] > level && (a >= 1 ==> nodes[a].key < key)
  }

  /** Node `a` is the last one on `level` before the key. */
  ghost predicate LastBefore(nodes: seq<Node>, linked: seq<nat>, key: int, a: nat, level: nat)
    requires |nodes| == |linked|
  {
    Passed(nodes, linked, key, a, level) &&
    forall b :: a < b < |nodes| && linked[b] > level ==> nodes[b].key >= key
  }

  lemma StoppedAt(nodes: seq<Node>, linked: seq<nat>, key: int, a: nat, level: nat)
    requires |nodes| == |linked| && Ascending(nodes) && Passed(nodes, linked, key, a, level)
    requires var b := NextIdx(linked, a + 1, level); b < |nodes| ==> nodes[b].key >= key
    ensures LastBefore(nodes, linked, key, a, level)
  {
    var b := NextIdx(linked, a + 1, level);
    forall c | a < c < |nodes| && linked[c] > level ensures nodes[c].key >= key {
      assert b <= c;
      assert b < c ==> nodes[b].key < nodes[c].key;
    }
  }

  /** Behind the last node before the key on level 0 stands the least key that is not before it. */
  lemma SuccessorIsLeast(nodes: seq<Node>, linked: seq<nat>, key: int, a: nat)
    requires |nodes| == |linked| && Ascending(nodes) && LastBefore(nodes, linked, key, a, 0)
    ensures var b := NextIdx(linked, a + 1, 0);
            Least(From(KeySet(nodes, linked), key)) == (if b < |nodes| then Some(nodes[b].key) else None)
  {
    var b := NextIdx(linked, a + 1, 0);
    var s := From(KeySet(nodes, linked), key);
    forall k | k in s ensures b < |nodes| && nodes[b].key <= k {
      var c :| 1 <= c < |nodes| && linked[c] > 0 && nodes[c].key == k;
      assert b <= c;
    }
    if b < |nodes| {
      assert nodes[b].key in s;
      LeastIs(s, nodes[b].key);
    }
  }

  lemma PredecessorIsGreatest(nodes: seq<Node>, linked: seq<nat>, key: int, a: nat)
    requires |nodes| == |linked| && Ascending(nodes) && LastBefore(nodes, linked, key, a, 0)
    ensures Greatest(Below(KeySet(nodes, linked), key)) == (if a >= 1 then Some(nodes[a].key) else None)
  {
    var s := Below(KeySet(nodes, linked), key);
    forall k | k in s ensures a >= 1 && k <= nodes[a].key {
      var c :| 1 <= c < |nodes| && linked[c] > 0 && nodes[c].key == k;
      assert c > a ==> nodes[c].key >= key;
      assert c < a ==> nodes[c].key < nodes[a].key;
    }
    if a >= 1 {
      assert nodes[a].key in s;
      GreatestIs(s, nodes[a].key);
    }
  }

  lemma LastIsGreatest(nodes: seq<Node>, linked: seq<nat>, a: nat)
    requires |nodes| == |linked| && Ascending(nodes)
    requires a < |nodes| && linked[a] > 0 && NextIdx(linked, a + 1, 0) == |nodes|
    ensures Greatest(KeySet(nodes, linked)) == (if a >= 1 then Some(nodes[a].key) else None)
  {
    var s := KeySet(nodes, linked);
    forall k | k in s ensures a >= 1 && k <= nodes[a].key {
      var c :| 1 <= c < |nodes| && linked[c] > 0 && nodes[c].key == k;
      assert c < a ==> nodes[c].key < nodes[a].key;
    }
    if a >= 1 {
      assert nodes[a].key in s;
      GreatestIs(s, nodes[a].key);
    }
  }

  function Inserted<T>(s: seq<T>, pos: nat, x: T): seq<T>
    requires pos <= |s|
  {
    s[..pos] + [x] + s[pos..]
  }

  lemma InsertedAt<T>(s: seq<T>, pos: nat, x: T)
    requires pos <= |s|
    ensures var t := Inserted(s, pos, x);
            |t| == |s| + 1 && forall b :: 0 <= b <= |s| ==> t[b] == if b < pos then s[b] else if b == pos then x
                                                                                         else s[b - 1]
  {
  }

  lemma InsertedKeeps<T>(s: seq<T>, pos: nat, x: T, c: nat)
    requires pos <= |s| && c < |s|
    ensures |Inserted(s, pos, x)| == |s| + 1 && Inserted(s, pos, x)[if c < pos then c else c + 1] == s[c]
  {
  }

  lemma SkipsUnlinked(linked: seq<nat>, pos: nat, from: nat, at: nat, l: nat)
    requires pos <= |linked| && from <= |linked|
    requires at == (if from < pos then from else from + 1) || at == from == pos
    ensures var r := NextIdx(linked, from, l);
            NextIdx(Inserted(linked, pos, 0), at, l) == if r < pos then r else r + 1
  {
    var r := NextIdx(linked, from, l);
    var r' := if r < pos then r else r + 1;
    var linked' := Inserted(linked, pos, 0);
    InsertedAt(linked, pos, 0);
    hide Inserted;
    forall b | at <= b < r' ensures linked'[b] <= l {
    }
    hide NextIdx;
    NextIdxIs(linked', at, l, r');
  }

  /** A node that is linked nowhere is skipped on every level. */
  lemma PointsPastUnlinked(nodes: seq<Node>, linked: seq<nat>, pos: nat, x: Node, from: nat, at: nat, l: nat)
    requires |nodes| == |linked| && pos <= |nodes| && from <= |nodes|
    requires at == (if from < pos then from else from + 1) || at == from == pos
    ensures Ptr(Inserted(nodes, pos, x), NextIdx(Inserted(linked, pos, 0), at, l)) ==
              Ptr(nodes, NextIdx(linked, from, l))
  {
    SkipsUnlinked(linked, pos, from, at, l);
    InsertedAt(nodes, pos, x);
    InsertedAt(linked, pos, 0);
    hide Inserted, NextIdx;
  }

  lemma PointsAfterPlace(next: seq<Node?>, nodes: seq<Node>, linked: seq<nat>, pos: nat, x: Node, c: nat, a: nat)
    requires |nodes| == |linked| && pos <= |nodes| && c < |nodes| && PointsOn(next, nodes, linked, c)
    requires a == if c < pos then c else c + 1
    ensures |Inserted(nodes, pos, x)| == |Inserted(linked, pos, 0)| == |nodes| + 1
    ensures PointsOn(next, Inserted(nodes, pos, x), Inserted(linked, pos, 0), a)
  {
    hide Inserted, NextIdx, Ptr;
    InsertedKeeps(linked, pos, 0, c);
    InsertedKeeps(nodes, pos, x, c);
    forall l | 0 <= l < linked[c]
      ensures next[l] == Ptr(Inserted(nodes, pos, x), NextIdx(Inserted(linked, pos, 0), a + 1, l))
    {
      PointsPastUnlinked(nodes, linked, pos, x, c + 1, a + 1, l);
    }
  }

  lemma UnlinkedPoints(next: seq<Node?>, nodes: seq<Node>, linked: seq<nat>, a: nat)
    requires |nodes| == |linked| && a < |nodes| && linked[a] == 0
    ensures PointsOn(next, nodes, linked, a)
  {
  }

  /** Linking position `pos` on level `i` changes only the searches on that level that come past it. */
  lemma LinkSeen(linked: seq<nat>, pos: nat, i: nat, from: nat, l: nat)
    requires pos < |linked| && linked[pos] == i && from <= |linked|
    ensures var n := NextIdx(linked, from, l);
            NextIdx(linked[pos := i + 1], from, l) == (if l == i && from <= pos < n then pos else n)
  {
    var n := NextIdx(linked, from, l);
    NextIdxIs(linked[pos := i + 1], from, l, if l == i && from <= pos < n then pos else n);
  }

  class SkipList {
    const head: Node
    var maxHeight: nat
    ghost var nodes: seq<Node>
    ghost var linked: seq<nat>

    ghost predicate Shape()
      reads this
    {
      && 1 <= maxHeight <= MAX_HEIGHT
      && |nodes| == |linked| && |nodes| > 0
      && nodes[0] == head && linked[0] == MAX_HEIGHT
      && HeadOnce(nodes) && Ascending(nodes)
      && forall a :: 1 <= a < |nodes| ==> linked[a] <= maxHeight
    }

    ghost predicate Links()
      requires |nodes| == |linked|
      reads this, nodes
    {
      forall a :: 0 <= a < |nodes| ==> LinksFrom(nodes, linked, a)
    }

    ghost predicate Valid()
      reads this, nodes
    {
      Shape() && Links()
    }

    /** No insertion is under way: every node is linked on all levels it has. */
    ghost predicate Settled()
      reads this, nodes
    {
      |nodes| == |linked| && forall a :: 0 <= a < |nodes| ==> 0 < linked[a] == |nodes[a].next|
    }

    /** Node `x` stands at position `at` after the head and readers can reach it. */
    ghost predicate Holds(x: Node, at: nat)
      reads this
    {
      0 < at < |nodes| && nodes[at] == x && at < |linked| && linked[at] > 0
    }

    ghost function Keys(): set<int>
      requires |nodes| == |linked|
      reads this
    {
      KeySet(nodes, linked)
    }

    constructor ()
      ensures Valid() && Settled() && Keys() == {} && fresh(nodes)
    {
      head := new Node(0, MAX_HEIGHT);
      maxHeight := 1;
      new;
      nodes, linked := [head], [MAX_HEIGHT];
      assert forall l :: 0 <= l < MAX_HEIGHT ==> NextIdx(linked, 1, l) == 1;
    }

    /** Each level is a strictly ascending sublist of the level below. */
    lemma LevelIsSublist(l: nat, a: nat)
      requires Valid() && a < |nodes| && linked[a] > l + 1
      ensures l + 1 < |nodes[a].next|
      ensures nodes[a].next[l + 1] != null ==> exists b: nat :: OnBothLevels(a, b, l)
    {
      assert LinksFrom(nodes, linked, a);
      var b := NextIdx(linked, a + 1, l + 1);
      assert b < |nodes| ==> OnBothLevels(a, b, l);
    }

    /** Node `b` comes after node `a`, is its successor on level `l + 1` and can be reached from it on level `l`. */
    ghost predicate OnBothLevels(a: nat, b: nat, l: nat)
      requires |nodes| == |linked| && a < |nodes| && l + 1 < |nodes[a].next|
      reads this, nodes
    {
      && a < b < |nodes| && nodes[a].next[l + 1] == nodes[b] && (a >= 1 ==> nodes[a].key < nodes[b].key)
      && linked[b] > l + 1 && NextIdx(linked, a + 1, l) <= b
    }

    /** One step along `level` from node `a`. */
    lemma StepAlong(a: nat, level: nat)
      requires Valid() && a < |nodes| && linked[a] > level
      ensures level < |nodes[a].next| && nodes[a].next[level] == Ptr(nodes, NextIdx(linked, a + 1, level))
    {
      assert LinksFrom(nodes, linked, a);
    }

    lemma SearchStarts(key: int, level: nat)
      requires Valid() && level < maxHeight
      ensures Passed(nodes, linked, key, 0, level) && Ascending(nodes) && maxHeight <= MAX_HEIGHT && nodes[0] == head
    {
    }

    /** What stands in `prev` on the levels `from..to` is the last node before the key. */
    ghost predicate PrevIs(key: int, prev: seq<Node>, prevIdx: seq<nat>, from: nat, to: nat)
      requires |nodes| == |linked| && |prev| == |prevIdx| == MAX_HEIGHT && to <= MAX_HEIGHT
      reads this
    {
      forall l :: from <= l < to ==> LastBefore(nodes, linked, key, prevIdx[l], l) && prev[l] == nodes[prevIdx[l]]
    }

    /** Walking `level` past nodes before the key, and what to remember when that ends. */
    lemma WalkOrStop(key: int, a: nat, level: nat, prev: seq<Node>, prevIdx: seq<nat>)
      requires Valid() && Passed(nodes, linked, key, a, level) && level < maxHeight
      requires |prev| == |prevIdx| == MAX_HEIGHT && PrevIs(key, prev, prevIdx, level + 1, maxHeight)
      ensures level < |nodes[a].next|
      ensures var next := nodes[a].next[level];
              if next != null && next.key < key then
                a < NextIdx(linked, a + 1, level) < |nodes| && nodes[NextIdx(linked, a + 1, level)] == next &&
                Passed(nodes, linked, key, NextIdx(linked, a + 1, level), level)
              else
                PrevIs(key, prev[level := nodes[a]], prevIdx[level := a], level, maxHeight) &&
                next == Ptr(nodes, NextIdx(linked, a + 1, level)) &&
                (level > 0 ==> Passed(nodes, linked, key, a, level - 1)) &&
                (level == 0 ==> Least(From(Keys(), key)) == if next == null then None else Some(next.key))
    {
      StepAlong(a, level);
      var next := nodes[a].next[level];
      hide Links;
      if !(next != null && next.key < key) {
        StoppedAt(nodes, linked, key, a, level);
        if level == 0 { SuccessorIsLeast(nodes, linked, key, a); }
      }
    }

    /** The first node at or after the key, and the last node before it on every level in use. */
    method FindGreaterOrEqual(key: int) returns (r: Node?, prev: seq<Node>, ghost prevIdx: seq<nat>)
      requires Valid()
      ensures |prev| == |prevIdx| == MAX_HEIGHT && PrevIs(key, prev, prevIdx, 0, maxHeight)
      ensures Least(From(Keys(), key)) == if r == null then None else Some(r.key)
      ensures prevIdx[0] < |nodes| && r == Ptr(nodes, NextIdx(linked, prevIdx[0] + 1, 0))
    {
      var x: Node := head;
      var level := maxHeight - 1;
      ghost var a: nat := 0;
      SearchStarts(key, level);
      prev, prevIdx := seq(MAX_HEIGHT, _ => x), seq(MAX_HEIGHT, _ => 0);
      hide Valid, Shape, KeySet, Keys, LastBefore, NextIdx, PrevIs;
      while true
        invariant 0 <= level < maxHeight <= MAX_HEIGHT && |nodes| == |linked| && Passed(nodes, linked, key, a, level)
        invariant nodes[a] == x && |prev| == |prevIdx| == MAX_HEIGHT
        invariant PrevIs(key, prev, prevIdx, level + 1, maxHeight)
        decreases level, |nodes| - a
      {
        WalkOrStop(key, a, level, prev, prevIdx);
        var next := x.next[level];
        if next != null && next.key < key {
          x := next;
          a := NextIdx(linked, a + 1, level);
        } else {
          prev := prev[level := x];
          prevIdx := prevIdx[level := a];
          if level == 0 {
            return next, prev, prevIdx;
          }
          level := level - 1;
        }
      }
    }

    /** The last node before the key, or the head; `at` is its position. */
    method FindLessThan(key: int) returns (r: Node, ghost at: nat)
      requires Valid()
      ensures at < |nodes| && nodes[at] == r && linked[at] > 0
      ensures Greatest(Below(Keys(), key)) == if at == 0 then None else Some(r.key)
    {
      var x: Node := head;
      var level := maxHeight - 1;
      ghost var a: nat := 0;
      SearchStarts(key, level);
      hide Valid, Shape, KeySet, Keys, LastBefore, NextIdx;
      while true
        invariant 0 <= level < maxHeight && |nodes| == |linked| && Passed(nodes, linked, key, a, level) && nodes[a] == x
        decreases level, |nodes| - a
      {
        StopBefore(key, a, level);
        var next := x.next[level];
        if next == null || next.key >= key {
          if level == 0 {
            return x, a;
          }
          level := level - 1;
        } else {
          x := next;
          a := NextIdx(linked, a + 1, level);
        }
      }
    }

    lemma StopBefore(key: int, a: nat, level: nat)
      requires Valid() && Passed(nodes, linked, key, a, level) && level < maxHeight
      ensures level < |nodes[a].next|
      ensures var next := nodes[a].next[level];
              if next != null && next.key < key then
                a < NextIdx(linked, a + 1, level) < |nodes| && nodes[NextIdx(linked, a + 1, level)] == next &&
                Passed(nodes, linked, key, NextIdx(linked, a + 1, level), level)
              else
                (level > 0 ==> Passed(nodes, linked, key, a, level - 1)) &&
                (level == 0 ==> Greatest(Below(Keys(), key)) == if a == 0 then None else Some(nodes[a].key))
    {
      StepAlong(a, level);
      var next := nodes[a].next[level];
      hide Links;
      if !(next != null && next.key < key) {
        StoppedAt(nodes, linked, key, a, level);
        if level == 0 { PredecessorIsGreatest(nodes, linked, key, a); }
      }
    }

    /** The last node of the list, or the head; `at` is its position. */
    method FindLast() returns (r: Node, ghost at: nat)
      requires Valid()
      ensures at < |nodes| && nodes[at] == r && linked[at] > 0
      ensures Greatest(Keys()) == if at == 0 then None else Some(r.key)
    {
      var x: Node := head;
      var level := maxHeight - 1;
      ghost var a: nat := 0;
      SearchStarts(0, level);
      hide Links, KeySet, Keys, NextIdx;
      while true
        invariant 0 <= level < maxHeight && a < |nodes| && nodes[a] == x && linked[a] > level
        decreases level, |nodes| - a
      {
        StepAlong(a, level);
        var next := x.next[level];
        if next == null {
          if level == 0 {
            LastIsGreatest(nodes, linked, a);
            return x, a;
          }
          level := level - 1;
        } else {
          x := next;
          a := NextIdx(linked, a + 1, level);
        }
      }
    }

    lemma NextIsLeast(a: nat)
      requires Valid() && 0 < a < |nodes| && linked[a] > 0
      ensures Least(Above(Keys(), nodes[a].key)) ==
              var b := NextIdx(linked, a + 1, 0); if b < |nodes| then Some(nodes[b].key) else None
    {
      var key := nodes[a].key;
      assert From(Keys(), key + 1) == Above(Keys(), key);
      SuccessorIsLeast(nodes, linked, key + 1, a);
    }

    lemma FirstIsLeast()
      requires Valid()
      ensures Least(Keys()) == var b := NextIdx(linked, 1, 0); if b < |nodes| then Some(nodes[b].key) else None
    {
      var s := Keys();
      var b := NextIdx(linked, 1, 0);
      forall k | k in s ensures b < |nodes| && nodes[b].key <= k {
        var c :| 1 <= c < |nodes| && linked[c] > 0 && nodes[c].key == k;
        assert b <= c;
      }
      if b < |nodes| {
        assert nodes[b].key in s;
        LeastIs(s, nodes[b].key);
      }
    }

    method Contains(key: int) returns (r: bool)
      requires Valid()
      ensures r <==> key in Keys()
    {
      var x, prev, prevIdx := FindGreaterOrEqual(key);
      if key in Keys() { assert key in From(Keys(), key); }
      return x != null && x.key == key;
    }

    /** All nodes but the one at `pos` are linked on all their levels. */
    ghost predicate SettledBut(pos: nat)
      requires |nodes| == |linked|
      reads this, nodes
    {
      forall a :: 0 <= a < |nodes| && a != pos ==> 0 < linked[a] == |nodes[a].next|
    }

    /** The place of a new key: right behind the last node before it. */
    lemma PlaceOf(key: int, q: nat)
      requires Valid() && Settled() && key !in Keys() && LastBefore(nodes, linked, key, q, 0)
      ensures q < |nodes| && Splits(nodes, q + 1, key)
    {
      forall a | q < a < |nodes| ensures key < nodes[a].key { assert nodes[a].key in Keys(); }
    }

    /** Adding a node that no level links yet: what readers see stays as it was. */
    ghost method Place(x: Node, pos: nat)
      requires Valid() && 1 <= pos <= |nodes| && x !in nodes
      requires Splits(nodes, pos, x.key)
      modifies this`nodes, this`linked
      ensures Valid() && nodes == Inserted(old(nodes), pos, x) && linked == Inserted(old(linked), pos, 0)
    {
      InsertedAt(nodes, pos, x);
      InsertedAt(linked, pos, 0);
      ghost var were, before := nodes, linked;
      nodes, linked := Inserted(nodes, pos, x), Inserted(linked, pos, 0);
      hide Inserted, NextIdx, Ptr, PointsOn;
      forall a | 0 <= a < |nodes| ensures LinksFrom(nodes, linked, a) {
        if a == pos {
          UnlinkedPoints(x.next, nodes, linked, pos);
        } else {
          var c := if a < pos then a else a - 1;
          assert LinksFrom(were, before, c);
          PointsAfterPlace(nodes[a].next, were, before, pos, x, c, a);
        }
      }
    }

    /** The new node takes over the successor of its predecessor on level `i`; nothing points to it there yet. */
    method PrepareLink(x: Node, ghost pos: nat, before: Node, i: nat)
      requires Valid() && 0 < pos < |nodes| && nodes[pos] == x && linked[pos] == i < |x.next|
      requires before in nodes && before != x && i < |before.next|
      modifies x
      ensures Valid() && x.next == old(x.next)[i := before.next[i]]
    {
      x.next := x.next[i := before.next[i]];
      forall a | 0 <= a < |nodes| ensures LinksFrom(nodes, linked, a) {
        assert old(LinksFrom(nodes, linked, a));
        if a != pos { NodesDiffer(nodes, a, pos); }
      }
    }

    /** The store that makes the new node visible on level `i`. */
    method PublishLink(x: Node, ghost pos: nat, before: Node, ghost q: nat, i: nat)
      requires Valid() && q < pos < |nodes| && nodes[pos] == x && nodes[q] == before && linked[pos] == i < |x.next|
      requires i < maxHeight && LastBefore(nodes, linked, x.key, q, i)
      requires i < |before.next| && x.next[i] == before.next[i]
      modifies this`linked, before
      ensures Valid() && linked == old(linked)[pos := i + 1]
      ensures before.next == old(before.next)[i := x]
      ensures Keys() == old(Keys()) + {x.key}
    {
      ghost var was := linked;
      ghost var key := x.key;
      before.next := before.next[i := x];
      linked := linked[pos := i + 1];
      hide NextIdx, Ptr, PointsOn, KeySet;
      forall a | 0 <= a < |nodes| ensures LinksFrom(nodes, linked, a) {
        assert old(LinksFrom(nodes, linked, a) && LinksFrom(nodes, linked, q));
        if a != q { NodesDiffer(nodes, a, q); }
        PointsAfterPublish(old(nodes[a].next), old(before.next), nodes, was, pos, q, i, a);
      }
      KeysAfterPublish(nodes, was, pos, i);
    }

    /** On the levels not in use yet the head is the last node before any key. */
    method RaiseHeight(key: int, height: nat, prev: seq<Node>, ghost prevIdx: seq<nat>)
      returns (prev': seq<Node>, ghost prevIdx': seq<nat>)
      requires Valid() && height <= MAX_HEIGHT
      requires |prev| == |prevIdx| == MAX_HEIGHT && PrevIs(key, prev, prevIdx, 0, maxHeight)
      modifies this`maxHeight
      ensures Valid() && maxHeight == if height > old(maxHeight) then height else old(maxHeight)
      ensures |prev'| == |prevIdx'| == MAX_HEIGHT && PrevIs(key, prev', prevIdx', 0, height)
      ensures prevIdx'[0] == prevIdx[0]
    {
      prev', prevIdx' := prev, prevIdx;
      if height > maxHeight {
        for i := maxHeight to height
          invariant |prev'| == |prevIdx'| == MAX_HEIGHT && PrevIs(key, prev', prevIdx', 0, i)
          invariant prevIdx'[0] == prevIdx[0]
        {
          prev' := prev'[i := head];
          prevIdx' := prevIdx'[i := 0];
        }
        maxHeight := height;
      }
    }

    lemma PrevAfterPlace(key: int, prev: seq<Node>, prevIdx: seq<nat>, height: nat, were: seq<Node>, before: seq<nat>,
                         pos: nat)
      requires |were| == |before| && |prev| == |prevIdx| == MAX_HEIGHT && height <= MAX_HEIGHT &&
               pos < |nodes| == |linked|
      requires forall l :: 0 <= l < height ==>
                 LastBefore(were, before, key, prevIdx[l], l) && prev[l] == were[prevIdx[l]]
      requires 1 <= pos <= |were| && Splits(were, pos, key)
      requires nodes == Inserted(were, pos, nodes[pos]) && linked == Inserted(before, pos, 0)
      ensures PrevIs(key, prev, prevIdx, 0, height) && Behind(prevIdx, height, pos)
    {
      hide Inserted, LastBefore;
      forall l | 0 <= l < height
        ensures prevIdx[l] < pos && LastBefore(nodes, linked, key, prevIdx[l], l) && prev[l] == nodes[prevIdx[l]]
      {
        LastAfterPlace(were, before, pos, nodes[pos], key, prevIdx[l], l);
      }
    }

    /** Node `x` is at `pos` and linked below level `i`; `prev` holds what it has to be linked behind from there on. */
    ghost predicate Inserting(x: Node, pos: nat, prev: seq<Node>, prevIdx: seq<nat>, i: nat, height: nat)
      requires |nodes| == |linked|
      reads this, nodes
    {
      && 0 < pos < |nodes| && nodes[pos] == x && linked[pos] == i <= height == |x.next| <= maxHeight <= MAX_HEIGHT
      && |prev| == |prevIdx| == MAX_HEIGHT && PrevIs(x.key, prev, prevIdx, i, height) && Behind(prevIdx, height, pos)
      && SettledBut(pos)
    }

    lemma Differ(a: nat, b: nat)
      requires Valid() && a < b < |nodes|
      ensures nodes[a] != nodes[b]
    {
      NodesDiffer(nodes, a, b);
    }

    /** Both stores of one level of an insertion. */
    method LinkLevel(x: Node, ghost pos: nat, prev: seq<Node>, ghost prevIdx: seq<nat>, i: nat, ghost height: nat)
      requires Valid() && Inserting(x, pos, prev, prevIdx, i, height) && i < height
      modifies this`linked, nodes
      ensures Valid() && Inserting(x, pos, prev, prevIdx, i + 1, height)
      ensures linked == old(linked)[pos := i + 1] && Keys() == old(Keys()) + {x.key}
    {
      ghost var q := prevIdx[i];
      var before := prev[i];
      assert LastBefore(nodes, linked, x.key, q, i) && before == nodes[q];
      Differ(q, pos);
      StepAlong(q, i);
      hide Shape, Links, KeySet, LinksFrom;
      PrepareLink(x, pos, before, i);
      PublishLink(x, pos, before, q, i);
      PrevAfterPublish(x.key, prev, prevIdx, old(linked), i, height, pos);
    }

    lemma PrevAfterPublish(key: int, prev: seq<Node>, prevIdx: seq<nat>, was: seq<nat>, i: nat, height: nat, pos: nat)
      requires |nodes| == |linked| == |was| && |prev| == |prevIdx| == MAX_HEIGHT && height <= MAX_HEIGHT && pos < |was|
      requires linked == was[pos := i + 1] && Behind(prevIdx, height, pos)
      requires forall l :: i <= l < height ==>
                 LastBefore(nodes, was, key, prevIdx[l], l) && prev[l] == nodes[prevIdx[l]]
      ensures PrevIs(key, prev, prevIdx, i + 1, height)
    {
    }

    /** The search for the place of a new key, and the new height of the list. */
    method FindPlace(key: int, height: nat) returns (prev: seq<Node>, ghost prevIdx: seq<nat>)
      requires Valid() && Settled() && key !in Keys() && 1 <= height <= MAX_HEIGHT
      modifies this`maxHeight
      ensures Valid() && Settled() && height <= maxHeight
      ensures |prev| == |prevIdx| == MAX_HEIGHT && PrevIs(key, prev, prevIdx, 0, height)
      ensures prevIdx[0] < |nodes| && Splits(nodes, prevIdx[0] + 1, key)
    {
      var found;
      found, prev, prevIdx := FindGreaterOrEqual(key);
      assert found == null || found.key != key;
      PlaceOf(key, prevIdx[0]);
      hide Splits, KeySet, Links, Ascending, HeadOnce, LastBefore;
      prev, prevIdx := RaiseHeight(key, height, prev, prevIdx);
    }

    /** What comes before the first link: the search, the new height of the list and the new node. */
    method StartInsert(key: int, height: nat)
      returns (x: Node, prev: seq<Node>, ghost pos: nat, ghost prevIdx: seq<nat>)
      requires Valid() && Settled() && key !in Keys() && 1 <= height <= MAX_HEIGHT
      modifies this
      ensures Valid() && fresh(x) && x.key == key && Inserting(x, pos, prev, prevIdx, 0, height)
      ensures 1 <= pos <= |old(nodes)| && |old(linked)| == |old(nodes)|
      ensures nodes == Inserted(old(nodes), pos, x) && linked == Inserted(old(linked), pos, 0)
      ensures Keys() == old(Keys())
    {
      prev, prevIdx := FindPlace(key, height);
      x := new Node(key, height);
      pos := prevIdx[0] + 1;
      ghost var were, before := nodes, linked;
      hide Splits, Shape, Links, KeySet, LastBefore, Inserted;
      Place(x, pos);
      InsertedAt(were, pos, x);
      InsertedAt(before, pos, 0);
      PrevAfterPlace(key, prev, prevIdx, height, were, before, pos);
      KeysAfterPlace(were, before, pos, x);
    }

    /** A completed insertion adds exactly one key, whatever the random height, and leaves the rest as it was. */
    method Insert(key: int, height: nat) returns (ghost pos: nat)
      requires Valid() && Settled() && key !in Keys() && 1 <= height <= MAX_HEIGHT
      modifies this, nodes
      ensures Valid() && Settled() && Keys() == old(Keys()) + {key}
      ensures 1 <= pos <= |old(nodes)| && pos < |nodes| && fresh(nodes[pos]) && nodes[pos].key == key
      ensures nodes == Inserted(old(nodes), pos, nodes[pos]) && linked == Inserted(old(linked), pos, height)
    {
      var x, prev, at, prevIdx := StartInsert(key, height);
      pos := at;
      ghost var placed := linked;
      hide Inserted, Shape, Links, PrevIs, KeySet, Behind, SettledBut, Settled;
      var i := 0;
      while i < height
        invariant 0 <= i <= height && nodes == Inserted(old(nodes), pos, x)
        invariant Valid() && Inserting(x, pos, prev, prevIdx, i, height)
        invariant linked == placed[pos := i] && Keys() == old(Keys()) + if i == 0 then {} else {key}
      {
        LinkLevel(x, pos, prev, prevIdx, i, height);
        i := i + 1;
      }
      InsertedUpdate(old(linked), pos, 0, height);
      SettledAgain(x, pos, prev, prevIdx, height);
    }

    lemma SettledAgain(x: Node, pos: nat, prev: seq<Node>, prevIdx: seq<nat>, height: nat)
      requires |nodes| == |linked| && height > 0 && Inserting(x, pos, prev, prevIdx, height, height)
      ensures Settled()
    {
    }
  }

  /** How linking position `pos` on level `i`, behind position `q`, changes what follows position `a` on level `l`. */
  lemma NextAfterPublish(nodes: seq<Node>, linked: seq<nat>, pos: nat, q: nat, i: nat, a: nat, l: nat)
    requires |nodes| == |linked| && Ascending(nodes) && q < pos < |nodes| && linked[pos] == i
    requires LastBefore(nodes, linked, nodes[pos].key, q, i)
    requires a < |nodes| && l < linked[pos := i + 1][a]
    ensures NextIdx(linked[pos := i + 1], a + 1, l) ==
            if l == i && a == q then pos else if l == i && a == pos then NextIdx(linked, q + 1, i)
                                         else NextIdx(linked, a + 1, l)
  {
    var n := NextIdx(linked, a + 1, l);
    LinkSeen(linked, pos, i, a + 1, l);
    if l == i {
      var m := NextIdx(linked, q + 1, i);
      assert m > pos;
      if a == pos {
        NextIdxIs(linked, pos + 1, i, m);
      }
    }
  }

  lemma PointsAfterPublish(next: seq<Node?>, nextOfQ: seq<Node?>, nodes: seq<Node>, linked: seq<nat>, pos: nat, q: nat,
                           i: nat, a: nat)
    requires |nodes| == |linked| && Ascending(nodes) && q < pos < |nodes| && linked[pos] == i
    requires LastBefore(nodes, linked, nodes[pos].key, q, i)
    requires a < |nodes| && PointsOn(next, nodes, linked, a) && PointsOn(nextOfQ, nodes, linked, q)
    requires a == pos ==> i < |next| && next[i] == nextOfQ[i]
    ensures PointsOn(if a == q then next[i := nodes[pos]] else next, nodes, linked[pos := i + 1], a)
  {
    var next' := if a == q then next[i := nodes[pos]] else next;
    var linked' := linked[pos := i + 1];
    forall l | 0 <= l < linked'[a] ensures next'[l] == Ptr(nodes, NextIdx(linked', a + 1, l)) {
      NextAfterPublish(nodes, linked, pos, q, i, a, l);
    }
  }

  /** Keys before position `pos` are smaller than `key`, those from there on larger. */
  ghost predicate Splits(nodes: seq<Node>, pos: nat, key: int)
    requires pos <= |nodes|
  {
    (forall a :: 1 <= a < pos ==> nodes[a].key < key) && forall a :: pos <= a < |nodes| ==> key < nodes[a].key
  }

  ghost predicate Behind(prevIdx: seq<nat>, height: nat, pos: nat)
    requires height <= |prevIdx|
  {
    forall l :: 0 <= l < height ==> prevIdx[l] < pos
  }

  lemma LastAfterPlace(nodes: seq<Node>, linked: seq<nat>, pos: nat, x: Node, key: int, q: nat, l: nat)
    requires |nodes| == |linked| && pos <= |nodes| && LastBefore(nodes, linked, key, q, l)
    requires Splits(nodes, pos, key)
    ensures q < pos || q == 0
    ensures |Inserted(nodes, pos, x)| == |Inserted(linked, pos, 0)| == |nodes| + 1
    ensures q < pos ==> Inserted(nodes, pos, x)[q] == nodes[q]
    ensures q < pos ==> LastBefore(Inserted(nodes, pos, x), Inserted(linked, pos, 0), key, q, l)
  {
    InsertedAt(nodes, pos, x);
    InsertedAt(linked, pos, 0);
    hide Inserted;
  }

  lemma InsertedUpdate<T>(s: seq<T>, pos: nat, x: T, y: T)
    requires pos <= |s|
    ensures |Inserted(s, pos, x)| == |s| + 1 && Inserted(s, pos, x)[pos := y] == Inserted(s, pos, y)
  {
  }

  lemma KeysAfterPlace(nodes: seq<Node>, linked: seq<nat>, pos: nat, x: Node)
    requires |nodes| == |linked| && 1 <= pos <= |nodes|
    ensures |Inserted(nodes, pos, x)| == |Inserted(linked, pos, 0)|
    ensures KeySet(Inserted(nodes, pos, x), Inserted(linked, pos, 0)) == KeySet(nodes, linked)
  {
    var nodes', linked' := Inserted(nodes, pos, x), Inserted(linked, pos, 0);
    assert |nodes'| == |linked'| == |nodes| + 1 && linked'[pos] == 0;
    hide Inserted;
    forall k | k in KeySet(nodes, linked) ensures k in KeySet(nodes', linked') {
      var c: nat :| 1 <= c < |nodes| && linked[c] > 0 && nodes[c].key == k;
      InsertedKeeps(nodes, pos, x, c);
      InsertedKeeps(linked, pos, 0, c);
    }
    forall k | k in KeySet(nodes', linked') ensures k in KeySet(nodes, linked) {
      var d: nat :| 1 <= d < |nodes'| && linked'[d] > 0 && nodes'[d].key == k;
      var c := if d < pos then d else d - 1;
      InsertedKeeps(nodes, pos, x, c);
      InsertedKeeps(linked, pos, 0, c);
    }
  }

  lemma KeysAfterPublish(nodes: seq<Node>, linked: seq<nat>, pos: nat, i: nat)
    requires |nodes| == |linked| && 0 < pos < |nodes| && linked[pos] == i
    ensures KeySet(nodes, linked[pos := i + 1]) == KeySet(nodes, linked) + {nodes[pos].key}
  {
    forall k | k in KeySet(nodes, linked) + {nodes[pos].key} ensures k in KeySet(nodes, linked[pos := i + 1]) {
      var c :| 1 <= c < |nodes| && (linked[c] > 0 || c == pos) && nodes[c].key == k;
      assert linked[pos := i + 1][c] > 0;
    }
  }

  /** A reader's position. Insertions may happen between its steps; it is then a cursor over the keys linked by then. */
  class Iterator {
    const list: SkipList
    var node: Node?

    ghost predicate Valid()
      reads this, list, list.nodes
    {
      list.Valid() && (node != null ==> exists at: nat :: list.Holds(node, at))
    }

    /** Whatever is inserted meanwhile, the iterator keeps its place. */
    twostate lemma KeepsPlace(pos: nat, new x: Node)
      requires old(Valid()) && list.Valid() && node == old(node) && pos <= |old(list.nodes)| == |old(list.linked)|
      requires list.nodes == Inserted(old(list.nodes), pos, x)
      requires exists l: nat :: list.linked == Inserted(old(list.linked), pos, l)
      ensures Valid() && Key() == old(Key())
    {
      if node != null {
        var at: nat :| old(list.Holds(node, at));
        var l: nat :| list.linked == Inserted(old(list.linked), pos, l);
        InsertedKeeps(old(list.nodes), pos, x, at);
        InsertedKeeps(old(list.linked), pos, l, at);
        assert list.Holds(node, if at < pos then at else at + 1) by { hide Inserted; }
      }
    }

    ghost function Key(): Option<int>
      reads this
    {
      if node == null then None else Some(node.key)
    }

    constructor (list: SkipList)
      requires list.Valid()
      ensures Valid() && this.list == list && Key() == None
    {
      this.list, node := list, null;
    }

    method Next()
      requires Valid() && Key().Some?
      modifies this
      ensures Valid() && Key() == Step(list.Keys(), old(Key()), Op.Next)
    {
      ghost var at: nat :| list.Holds(node, at);
      list.StepAlong(at, 0);
      list.NextIsLeast(at);
      node := node.next[0];
      assert node != null ==> list.Holds(node, NextIdx(list.linked, at + 1, 0));
    }

    method Prev()
      requires Valid() && Key().Some?
      modifies this
      ensures Valid() && Key() == Step(list.Keys(), old(Key()), Op.Prev)
    {
      ghost var at;
      node, at := list.FindLessThan(node.key);
      Rest(at);
    }

    method Seek(target: int)
      requires Valid()
      modifies this
      ensures Valid() && Key() == Step(list.Keys(), old(Key()), Op.Seek(target))
    {
      var found, prev, prevIdx := list.FindGreaterOrEqual(target);
      node := found;
      assert node != null ==> list.Holds(node, NextIdx(list.linked, prevIdx[0] + 1, 0));
    }

    method SeekToFirst()
      requires Valid()
      modifies this
      ensures Valid() && Key() == Step(list.Keys(), old(Key()), Op.SeekToFirst)
    {
      list.StepAlong(0, 0);
      list.FirstIsLeast();
      node := list.head.next[0];
      assert node != null ==> list.Holds(node, NextIdx(list.linked, 1, 0));
    }

    method SeekToLast()
      requires Valid()
      modifies this
      ensures Valid() && Key() == Step(list.Keys(), old(Key()), Op.SeekToLast)
    {
      ghost var at;
      node, at := list.FindLast();
      Rest(at);
    }

    /** The head stands for no position at all. */
    method Rest(ghost at: nat)
      requires list.Valid() && node != null && at < |list.nodes| && list.nodes[at] == node && list.linked[at] > 0
      modifies this
      ensures Valid() && Key() == if at == 0 then None else Some(old(node).key)
    {
      assert at > 0 ==> list.Holds(node, at);
      if node == list.head { node := null; }
    }
  }
}
