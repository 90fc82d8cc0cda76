/**
 Key comparators: what they promise, the bytewise one, and the one for internal keys on top of any lawful user
 comparator. An internal key is a user key followed by eight bytes of tag.
 */
module Comparator {
  import opened Basics
  import opened DbFormat
  import opened Coding

  type Order = (Slice, Slice) -> bool

  /** A strict total order. */
  ghost predicate StrictOrder(before: Order) {
    && (forall a :: !before(a, a))
    && (forall a, b :: a != b ==> before(a, b) || before(b, a))
    && (forall a, b, c :: before(a, b) && before(b, c) ==> before(a, c))
  }

  datatype Comparator = Comparator(before: Order, separator: (Slice, Slice) -> Slice, successor: Slice -> Slice)

  predicate NotAfter(before: Order, a: Slice, b: Slice) { a == b || before(a, b) }

  /** The separator is the start or lies between start and limit; the successor is not before the key. */
  ghost predicate Lawful(c: Comparator) {
    && StrictOrder(c.before)
    && (forall start, limit :: Separates(c, start, limit))
    && (forall key :: NotAfter(c.before, key, c.successor(key)))
  }

  ghost predicate Separates(c: Comparator, start: Slice, limit: Slice) {
    var r := c.separator(start, limit);
    r == start || (c.before(start, r) && c.before(r, limit))
  }

  // ---------------------------------------------------------------------------------------------------------------
  // Bytewise.

  predicate Less(a: Slice, b: Slice) {
    b != [] && (a == [] || a[0] < b[0] || (a[0] == b[0] && Less(a[1..], b[1..])))
  }

  lemma {:induction false} LessIrreflexive(a: Slice)
    ensures !Less(a, a)
  {
    if a != [] { LessIrreflexive(a[1..]); }
  }

  lemma {:induction false} LessTotal(a: Slice, b: Slice)
    requires a != b
    ensures Less(a, b) || Less(b, a)
  {
    if a != [] && b != [] && a[0] == b[0] {
      assert a == [a[0]] + a[1..] && b == [b[0]] + b[1..];
      LessTotal(a[1..], b[1..]);
    }
  }

  lemma {:induction false} LessTransitive(a: Slice, b: Slice, c: Slice)
    requires Less(a, b) && Less(b, c)
    ensures Less(a, c)
  {
    if a != [] && a[0] == b[0] == c[0] { LessTransitive(a[1..], b[1..], c[1..]); }
  }

  lemma LessIsStrict()
    ensures StrictOrder(Less)
  {
    forall a: Slice ensures !Less(a, a) { LessIrreflexive(a); }
    forall a: Slice, b: Slice | a != b ensures Less(a, b) || Less(b, a) { LessTotal(a, b); }
    forall a: Slice, b: Slice, c: Slice | Less(a, b) && Less(b, c) ensures Less(a, c) { LessTransitive(a, b, c); }
  }

  /** The length of the common prefix. */
  function Common(a: Slice, b: Slice): (n: nat)
    ensures n <= |a| && n <= |b| && a[..n] == b[..n]
    ensures n < |a| && n < |b| ==> a[n] != b[n]
  {
    if a == [] || b == [] || a[0] != b[0] then 0 else 1 + Common(a[1..], b[1..])
  }

  function BytewiseSeparator(start: Slice, limit: Slice): Slice {
    var i := Common(start, limit);
    if i < |start| && i < |limit| && start[i] < 0xff && start[i] + 1 < limit[i] then Bumped(start, i) else start
  }

  /** The first `i + 1` bytes with the last of them one larger. */
  function Bumped(s: Slice, i: nat): (r: Slice)
    requires i < |s| && s[i] < 0xff
    ensures |r| == i + 1
  {
    s[..i] + [s[i] + 1]
  }

  function BytewiseSuccessor(key: Slice): Slice {
    var i := FirstNot255(key);
    if i < |key| then Bumped(key, i) else key
  }

  function FirstNot255(s: Slice): (i: nat)
    ensures i <= |s| && (forall j :: 0 <= j < i ==> s[j] == 0xff) && (i < |s| ==> s[i] < 0xff)
  {
    if s == [] || s[0] != 0xff then 0 else 1 + FirstNot255(s[1..])
  }

  lemma CommonIs(a: Slice, b: Slice, n: nat)
    requires n <= |a| && n <= |b| && a[..n] == b[..n] && (n < |a| && n < |b| ==> a[n] != b[n])
    ensures Common(a, b) == n
  {
    var m := Common(a, b);
    forall j | 0 <= j < n ensures a[j] == b[j] { assert a[..n][j] == b[..n][j]; }
    forall j | 0 <= j < m ensures a[j] == b[j] { assert a[..m][j] == b[..m][j]; }
  }

  method FindShortestSeparator(start: Slice, limit: Slice) returns (r: Slice)
    ensures r == BytewiseSeparator(start, limit)
  {
    r := start;
    var minLength := if |start| < |limit| then |start| else |limit|;
    var diffIndex := 0;
    while diffIndex < minLength && start[diffIndex] == limit[diffIndex]
      invariant diffIndex <= minLength && start[..diffIndex] == limit[..diffIndex]
    {
      diffIndex := diffIndex + 1;
    }
    CommonIs(start, limit, diffIndex);
    if diffIndex < minLength {
      var diffByte := start[diffIndex];
      if diffByte < 0xff && diffByte + 1 < limit[diffIndex] {
        r := r[diffIndex := diffByte + 1];
        r := r[..diffIndex + 1];
      }
    }
  }

  method FindShortSuccessor(key: Slice) returns (r: Slice)
    ensures r == BytewiseSuccessor(key)
  {
    r := key;
    var n := |key|;
    for i := 0 to n
      invariant r == key && forall j :: 0 <= j < i ==> key[j] == 0xff
    {
      if key[i] != 0xff {
        assert FirstNot255(key) == i;
        r := r[i := key[i] + 1];
        r := r[..i + 1];
        return;
      }
    }
    assert FirstNot255(key) == n;
  }

  lemma {:induction false} LessAt(a: Slice, b: Slice, i: nat)
    requires i < |a| && i < |b| && a[..i] == b[..i] && a[i] < b[i]
    ensures Less(a, b)
  {
    if i > 0 {
      assert a[0] == a[..i][0] == b[..i][0] == b[0];
      assert a[1..][..i - 1] == a[..i][1..] && b[1..][..i - 1] == b[..i][1..];
      LessAt(a[1..], b[1..], i - 1);
    }
  }

  function Bytewise(): Comparator {
    Comparator(Less, BytewiseSeparator, BytewiseSuccessor)
  }

  lemma BytewiseLawful()
    ensures Lawful(Bytewise())
  {
    var c := Bytewise();
    LessIsStrict();
    forall start: Slice, limit: Slice ensures Separates(c, start, limit) { BytewiseSeparates(start, limit); }
    forall key: Slice ensures NotAfter(c.before, key, c.successor(key)) { BytewiseSucceeds(key); }
  }

  lemma BytewiseSeparates(start: Slice, limit: Slice)
    ensures var r := BytewiseSeparator(start, limit); r == start || (Less(start, r) && Less(r, limit))
  {
    var r, i := BytewiseSeparator(start, limit), Common(start, limit);
    if r != start {
      assert r[..i] == start[..i];
      LessAt(start, r, i);
      LessAt(r, limit, i);
    }
  }

  lemma BytewiseSucceeds(key: Slice)
    ensures NotAfter(Less, key, BytewiseSuccessor(key))
  {
    var r, i := BytewiseSuccessor(key), FirstNot255(key);
    if i < |key| {
      assert r[..i] == key[..i];
      LessAt(key, r, i);
    }
  }

  /** Where the two first differ decides: the separator is cut there exactly when a byte fits in between. */
  lemma SeparatorIsCut(start: Slice, limit: Slice, n: nat)
    requires n < |start| && n < |limit| && start[..n] == limit[..n] && start[n] != limit[n]
    ensures start[n] as int + 1 < limit[n] ==> BytewiseSeparator(start, limit) == start[..n] + [start[n] + 1]
    ensures start[n] as int + 1 >= limit[n] ==> BytewiseSeparator(start, limit) == start
  {
    CommonIs(start, limit, n);
  }

  /** If one is a prefix of the other, the separator is the start. */
  lemma PrefixIsKept(start: Slice, limit: Slice)
    requires start <= limit || limit <= start
    ensures BytewiseSeparator(start, limit) == start
  {
    var n := if |start| < |limit| then |start| else |limit|;
    assert start[..n] == limit[..n];
    CommonIs(start, limit, n);
  }

  /** No key of `n` bytes or fewer lies between two that have the first `n` in common. */
  lemma {:induction false} NoneBetween(start: Slice, t: Slice, limit: Slice, n: nat)
    requires n <= |start| && n <= |limit| && start[..n] == limit[..n] && |t| <= n
    ensures !(Less(start, t) && Less(t, limit))
    decreases n
  {
    if t != [] {
      assert start[0] == start[..n][0] == limit[..n][0] == limit[0];
      assert start[1..][..n - 1] == start[..n][1..] && limit[1..][..n - 1] == limit[..n][1..];
      NoneBetween(start[1..], t[1..], limit[1..], n - 1);
    }
  }

  /** A separator other than the start is as short as any key in between. */
  lemma SeparatorIsShortest(start: Slice, limit: Slice, t: Slice)
    requires BytewiseSeparator(start, limit) != start && Less(start, t) && Less(t, limit)
    ensures |BytewiseSeparator(start, limit)| <= |t|
  {
    var n := Common(start, limit);
    if |t| <= n { NoneBetween(start, t, limit, n); }
  }

  /** The successor is cut behind the first byte that is not 255; if there is none, it is the key. */
  lemma SuccessorIsCut(key: Slice, n: nat)
    requires n <= |key| && (forall j :: 0 <= j < n ==> key[j] == 0xff) && (n < |key| ==> key[n] != 0xff)
    ensures BytewiseSuccessor(key) == if n < |key| then key[..n] + [key[n] + 1] else key
  {
    assert FirstNot255(key) == n;
  }

  /** No key is shorter than the successor and not before the key. */
  lemma {:induction false} SuccessorIsShortest(key: Slice, t: Slice)
    requires NotAfter(Less, key, t) && BytewiseSuccessor(key) != key
    ensures |BytewiseSuccessor(key)| <= |t|
  {
    if key[0] == 0xff && t != [] {
      assert t[0] == 0xff && FirstNot255(key) == 1 + FirstNot255(key[1..]);
      assert t == [t[0]] + t[1..] && key == [key[0]] + key[1..];
      SuccessorIsShortest(key[1..], t[1..]);
    }
  }

  // ---------------------------------------------------------------------------------------------------------------
  // Internal keys.

  const TRAILER := 8

  /** The tag a lookup seeks with and the largest there is: sequence number and type all set. */
  const MAX_TAG := MAX_SEQUENCE * 256 + 1

  function ExtractUserKey(k: Slice): Slice
    requires |k| >= TRAILER
  {
    k[..|k| - TRAILER]
  }

  function ExtractTag(k: Slice): nat
    requires |k| >= TRAILER
  {
    LittleEndian(k[|k| - TRAILER..])
  }

  function InternalKeyOf(user: Slice, tag: nat): (k: Slice)
    requires tag < TWO_64
    ensures |k| == |user| + TRAILER && ExtractUserKey(k) == user && ExtractTag(k) == tag
  {
    LittleEndianRoundTrip(tag, TRAILER);
    var t := ToLittleEndian(tag, TRAILER);
    assert (user + t)[|user|..] == t;
    user + t
  }

  /**
   User key ascending, then tag descending. Keys too short for a tag do not occur; they are ordered before the rest.
   */
  predicate InternalLess(before: Order, a: Slice, b: Slice) {
    if |a| < TRAILER || |b| < TRAILER then |b| >= TRAILER || (|a| < TRAILER && before(a, b))
    else before(ExtractUserKey(a), ExtractUserKey(b)) ||
         (ExtractUserKey(a) == ExtractUserKey(b) && ExtractTag(a) > ExtractTag(b))
  }

  lemma InternalKeyIs(a: Slice, b: Slice)
    requires |a| >= TRAILER && |b| >= TRAILER && ExtractUserKey(a) == ExtractUserKey(b)
    requires ExtractTag(a) == ExtractTag(b)
    ensures a == b
  {
    LittleEndianInjective(a[|a| - TRAILER..], b[|b| - TRAILER..]);
    assert a == ExtractUserKey(a) + a[|a| - TRAILER..];
    assert b == ExtractUserKey(b) + b[|b| - TRAILER..];
  }

  function InternalSeparator(c: Comparator, start: Slice, limit: Slice): Slice {
    if |start| < TRAILER || |limit| < TRAILER then start else
      var user := ExtractUserKey(start);
      var tmp := c.separator(user, ExtractUserKey(limit));
      if |tmp| < |user| && c.before(user, tmp) then InternalKeyOf(tmp, MAX_TAG) else start
  }

  function InternalSuccessor(c: Comparator, key: Slice): Slice {
    if |key| < TRAILER then key else
      var user := ExtractUserKey(key);
      var tmp := c.successor(user);
      if |tmp| < |user| && c.before(user, tmp) then InternalKeyOf(tmp, MAX_TAG) else key
  }

  function Internal(c: Comparator): Comparator {
    Comparator((a, b) => InternalLess(c.before, a, b), (s, l) => InternalSeparator(c, s, l),
               k => InternalSuccessor(c, k))
  }

  lemma InternalIsStrict(before: Order)
    requires StrictOrder(before)
    ensures StrictOrder((a, b) => InternalLess(before, a, b))
  {
    forall a, b | a != b ensures InternalLess(before, a, b) || InternalLess(before, b, a) {
      if |a| >= TRAILER && |b| >= TRAILER && ExtractUserKey(a) == ExtractUserKey(b) && ExtractTag(a) == ExtractTag(b) {
        InternalKeyIs(a, b);
      }
    }
  }

  /** On top of a lawful user comparator the one for internal keys is lawful. */
  lemma InternalLawful(c: Comparator)
    requires Lawful(c)
    ensures Lawful(Internal(c))
  {
    var i := Internal(c);
    InternalIsStrict(c.before);
    forall start: Slice, limit: Slice ensures Separates(i, start, limit) {
      if |start| >= TRAILER && |limit| >= TRAILER { assert Separates(c, ExtractUserKey(start), ExtractUserKey(limit)); }
    }
  }

  /** A shortened index key differs in its user key from all that comes after it. */
  lemma SeparatorUserKey(c: Comparator, start: Slice, limit: Slice)
    requires Lawful(c) && |start| >= TRAILER && |limit| >= TRAILER
    ensures var r := InternalSeparator(c, start, limit);
            r == start || (|r| >= TRAILER && c.before(ExtractUserKey(r), ExtractUserKey(limit)))
  {
    assert Separates(c, ExtractUserKey(start), ExtractUserKey(limit));
  }
}
