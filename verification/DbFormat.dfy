/**
 Internal keys, entries and the meaning of a read.

 LevelDB compares user keys only through the comparator the application installs, so the modules about levels,
 compactions and iterators see a user key as its rank in that order: an integer. (Any one history compares finitely many
 keys, and every finite total order is an order of integers.) Modules about bytes use byte strings.
 */
module DbFormat {
  import opened Basics

  type UserKey = int

  const MAX_SEQUENCE := 0xff_ffff_ffff_ffff
  type SequenceNumber = s: int | 0 <= s <= MAX_SEQUENCE

  datatype ValueType = TypeDeletion | TypeValue

  datatype InternalKey = InternalKey(user: UserKey, seqno: SequenceNumber, kind: ValueType)

  datatype Entry = Entry(key: InternalKey, value: Slice)

  /** Sequence number and type packed into the 64-bit trailer of an internal key. */
  function Tag(k: InternalKey): (t: int) {
    k.seqno * 256 + (if k.kind.TypeValue? then 1 else 0)
  }

  /** `InternalKeyComparator::Compare(a, b) < 0`: user key ascending, then packed tag descending. */
  predicate Before(a: InternalKey, b: InternalKey) {
    a.user < b.user || (a.user == b.user && Tag(a) > Tag(b))
  }

  predicate AtOrBefore(a: InternalKey, b: InternalKey) {
    a == b || Before(a, b)
  }

  lemma TagInjective(a: InternalKey, b: InternalKey)
    requires a.user == b.user && Tag(a) == Tag(b)
    ensures a == b
  {
  }

  /** The key a lookup at a snapshot seeks to (`LookupKey`). */
  function SeekKey(user: UserKey, snapshot: SequenceNumber): InternalKey {
    InternalKey(user, snapshot, TypeValue)
  }

  predicate Sorted(es: seq<Entry>) {
    forall i, j :: 0 <= i < j < |es| ==> Before(es[i].key, es[j].key)
  }

  // ---------------------------------------------------------------------------------------------------------------
  // What a read means: of the entries for the key that the snapshot can see, the one with the largest tag decides.

  ghost predicate Sees(es: set<Entry>, user: UserKey, snapshot: SequenceNumber, e: Entry) {
    e in es && e.key.user == user && e.key.seqno <= snapshot
  }

  ghost predicate Newest(es: set<Entry>, user: UserKey, snapshot: SequenceNumber, e: Entry) {
    Sees(es, user, snapshot, e) &&
    forall o :: Sees(es, user, snapshot, o) ==> Tag(o.key) <= Tag(e.key)
  }

  ghost predicate UniqueKeys(es: set<Entry>) {
    forall a, b :: a in es && b in es && a.key == b.key ==> a == b
  }

  ghost function EntrySet(es: seq<Entry>): set<Entry> {
    set e | e in es
  }

  function Shown(e: Entry): Option<Slice> {
    if e.key.kind.TypeValue? then Some(e.value) else None
  }

  ghost function Read(es: set<Entry>, user: UserKey, snapshot: SequenceNumber): Option<Slice> {
    if exists e :: Newest(es, user, snapshot, e) then
      var e :| Newest(es, user, snapshot, e);
      Shown(e)
    else
      None
  }

  lemma ReadIs(es: set<Entry>, user: UserKey, snapshot: SequenceNumber, e: Entry)
    requires UniqueKeys(es) && Newest(es, user, snapshot, e)
    ensures Read(es, user, snapshot) == Shown(e)
  {
    forall o | Newest(es, user, snapshot, o) ensures o == e {
      assert Sees(es, user, snapshot, o) && Sees(es, user, snapshot, e);
      TagInjective(o.key, e.key);
    }
  }

  lemma ReadNothing(es: set<Entry>, user: UserKey, snapshot: SequenceNumber)
    requires forall e :: !Sees(es, user, snapshot, e)
    ensures Read(es, user, snapshot) == None
  {
  }

  /** Some visible entry means there is a newest one. */
  lemma {:induction false} NewestExists(es: set<Entry>, user: UserKey, snapshot: SequenceNumber, e: Entry)
    requires Sees(es, user, snapshot, e)
    ensures exists n :: Newest(es, user, snapshot, n)
    decreases es
  {
    if !Newest(es, user, snapshot, e) {
      var o :| Sees(es, user, snapshot, o) && Tag(o.key) > Tag(e.key);
      var rest := es - {e};
      assert Sees(rest, user, snapshot, o);
      NewestExists(rest, user, snapshot, o);
      var n :| Newest(rest, user, snapshot, n);
      assert Newest(es, user, snapshot, n) by {
        assert Tag(o.key) <= Tag(n.key);
        forall x | Sees(es, user, snapshot, x) ensures Tag(x.key) <= Tag(n.key) {
          if x != e { assert Sees(rest, user, snapshot, x); }
        }
      }
    }
  }
}
