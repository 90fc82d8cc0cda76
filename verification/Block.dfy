/**
 Blocks: sorted pairs with prefix-compressed keys, restart points and a restart array, and the iterator over them. The
 order of the keys is whatever the comparator says.
 */
module Block {
  import opened Basics
  import opened Coding
  import opened Comparator

  datatype Pair = Pair(key: Slice, value: Slice)

  ghost predicate Ascending(before: Order, entries: seq<Pair>) {
    forall i, j :: 0 <= i < j < |entries| ==> before(entries[i].key, entries[j].key)
  }

  /** Lengths, key delta and value of one entry. */
  function EntryBytes(shared: nat, e: Pair): (s: seq<Byte>)
    requires shared <= |e.key|
    ensures |s| >= 3
  {
    EntryHead(shared, |e.key| - shared, |e.value|) + (e.key[shared..] + e.value)
  }

  function EntryHead(shared: nat, nonShared: nat, valueLength: nat): (s: seq<Byte>)
    ensures |s| >= 3
  {
    Varint(shared) + (Varint(nonShared) + Varint(valueLength))
  }

  /**
   Where the entries of a block start, how much of the key before each shares, and which entries are restart points.
   */
  datatype Layout = Layout(entries: seq<Pair>, shared: seq<nat>, starts: seq<nat>, restarts: seq<nat>)

  ghost predicate Shaped(l: Layout) {
    && |l.shared| == |l.entries| && |l.starts| == |l.entries| + 1 && l.starts[0] == 0
    && |l.restarts| > 0 && l.restarts[0] == 0
    && (forall i, j :: 0 <= i < j < |l.starts| ==> l.starts[i] < l.starts[j])
  }

  ghost predicate SharedOk(l: Layout, i: nat)
    requires Shaped(l) && i < |l.entries|
  {
    && l.shared[i] <= |l.entries[i].key|
    && if i == 0 then l.shared[i] == 0
       else
         l.shared[i] <= |l.entries[i - 1].key| &&
         l.entries[i - 1].key[..l.shared[i]] == l.entries[i].key[..l.shared[i]]
  }

  ghost predicate EntryOk(l: Layout, data: seq<Byte>, i: nat)
    requires Shaped(l) && i < |l.entries|
  {
    SharedOk(l, i) && l.starts[i + 1] <= |data| &&
    data[l.starts[i]..l.starts[i + 1]] == EntryBytes(l.shared[i], l.entries[i])
  }

  ghost predicate RestartsOk(l: Layout)
    requires Shaped(l)
  {
    && (forall r, q :: 0 <= r < q < |l.restarts| ==> l.restarts[r] < l.restarts[q])
    && (forall r :: 0 <= r < |l.restarts| ==> l.restarts[r] < |l.entries| || (l.restarts[r] == 0 && |l.restarts| == 1))
    && (forall r :: 0 <= r < |l.restarts| && l.restarts[r] < |l.entries| ==> l.shared[l.restarts[r]] == 0)
  }

  /** Every `interval` entries a restart point; the last one is `counter` entries back. */
  ghost predicate Spaced(l: Layout, interval: nat, counter: nat) {
    && Shaped(l) && |l.entries| == Last(l.restarts) + counter && counter <= interval
    && forall r :: 0 < r < |l.restarts| ==> l.restarts[r] == l.restarts[r - 1] + interval
  }

  /** All other entries share as much as they can. */
  ghost predicate Compressed(l: Layout) {
    && Shaped(l)
    && forall i :: 0 < i < |l.entries| && i !in l.restarts ==>
         l.shared[i] == Common(l.entries[i - 1].key, l.entries[i].key)
  }

  ghost predicate Describes(l: Layout, data: seq<Byte>) {
    Shaped(l) && RestartsOk(l) && l.starts[|l.entries|] == |data| < TWO_32 &&
    forall i :: 0 <= i < |l.entries| ==> EntryOk(l, data, i)
  }

  ghost function Offset(l: Layout, r: nat): nat
    requires Shaped(l) && RestartsOk(l) && r < |l.restarts|
  {
    l.starts[l.restarts[r]]
  }

  // ---------------------------------------------------------------------------------------------------------------
  // Decoding one entry.

  datatype Decoded = Decoded(at: nat, shared: nat, nonShared: nat, valueLength: nat)

  /** The three lengths at the start of `s` and how many bytes they take. */
  function ReadLengths(s: seq<Byte>): (r: Option<Decoded>)
    ensures r.Some? ==> 3 <= r.value.at <= |s|
  {
    if |s| < 3 then None
    else if s[0] < 128 && s[1] < 128 && s[2] < 128 then Some(Decoded(3, s[0], s[1], s[2]))
    else ReadLongLengths(s)
  }

  function ReadLongLengths(s: seq<Byte>): (r: Option<Decoded>)
    ensures r.Some? ==> 3 <= r.value.at <= |s|
  {
    match GetVarint32(s)
    case None => None
    case Some((shared, a)) =>
      match GetVarint32(s[a..])
      case None => None
      case Some((nonShared, b)) =>
        match GetVarint32(s[a..][b..])
        case None => None
        case Some((valueLength, c)) => Some(Decoded(a + b + c, shared, nonShared, valueLength))
  }

  /**
   The three lengths at position `p` and where the key delta starts; None if they do not fit before the limit. The
   lengths of key delta and value are added in 32 bits, so lengths that wrap can pass the test.
   */
  function DecodeEntry(data: seq<Byte>, p: nat): (r: Option<Decoded>)
    ensures r.Some? ==> p + 3 <= r.value.at <= |data|
  {
    if p > |data| then None else
      match ReadLengths(data[p..])
      case None => None
      case Some(d) =>
        if (|data| - (p + d.at)) % TWO_32 < (d.nonShared + d.valueLength) % TWO_32 then None
        else Some(d.(at := p + d.at))
  }

  /** Do the key delta and the value end before the limit? */
  predicate Inside(d: Decoded, limit: nat) {
    d.at + d.nonShared + d.valueLength <= limit
  }

  /** The test of `DecodeEntry` keeps an entry inside its block exactly when the sum of the lengths does not wrap. */
  lemma InsideUnlessWrapped(data: seq<Byte>, p: nat)
    requires |data| < TWO_32 && DecodeEntry(data, p).Some?
    ensures Inside(DecodeEntry(data, p).value, |data|) <==>
            DecodeEntry(data, p).value.nonShared + DecodeEntry(data, p).value.valueLength < TWO_32
  {
    hide ReadLengths;
    var d := DecodeEntry(data, p).value;
    SmallRemainder(|data| - d.at);
    if d.nonShared + d.valueLength < TWO_32 { SmallRemainder(d.nonShared + d.valueLength); }
  }

  lemma SmallRemainder(n: nat)
    requires n < TWO_32
    ensures n % TWO_32 == n
  {
  }

  /** No shared bytes, 2^32 - 1 bytes of key delta and one byte of value, of which none is there. */
  const WRAPPING: seq<Byte> := [0, 255, 255, 255, 255, 15, 1]

  /** These lengths pass the test although nothing follows them. */
  lemma WrappedLengthsPass()
    ensures DecodeEntry(WRAPPING, 0) == Some(Decoded(7, 0, TWO_32 - 1, 1))
  {
    EncodedMaximum();
    assert WRAPPING == EntryHead(0, TWO_32 - 1, 1) + [];
    LengthsReadBack(0, TWO_32 - 1, 1, []);
    assert WRAPPING[0..] == WRAPPING;
  }

  lemma EncodedMaximum()
    ensures EntryHead(0, TWO_32 - 1, 1) == WRAPPING
  {
    assert Varint(15) == [15];
    assert Varint(0x7ff) == [255] + Varint(15);
    assert Varint(0x3_ffff) == [255] + Varint(0x7ff);
    assert Varint(0x1ff_ffff) == [255] + Varint(0x3_ffff);
    assert Varint(TWO_32 - 1) == [255] + Varint(0x1ff_ffff);
    assert Varint(0) == [0] && Varint(1) == [1];
  }

  /** One group or more: the first byte tells, and decoding gives the value back. */
  lemma ReadsBack(v: U32, rest: seq<Byte>)
    ensures |Varint(v) + rest| > 0 && ((Varint(v) + rest)[0] < 128 <==> v < 128)
    ensures v < 128 ==> Varint(v) == [v]
    ensures GetVarint32(Varint(v) + rest) == Some((v, |Varint(v)|))
  {
    Varint32RoundTrip(v, rest);
  }

  lemma Peel(a: seq<Byte>, rest: seq<Byte>)
    ensures (a + rest)[|a|..] == rest
  {
  }

  lemma LongLengthsReadBack(shared: U32, nonShared: U32, valueLength: U32, after: seq<Byte>)
    ensures var head := EntryHead(shared, nonShared, valueLength);
            ReadLongLengths(head + after) == Some(Decoded(|head|, shared, nonShared, valueLength))
  {
    var a, b, c := Varint(shared), Varint(nonShared), Varint(valueLength);
    var s1, s2 := b + (c + after), c + after;
    assert EntryHead(shared, nonShared, valueLength) + after == a + s1;
    ReadsBack(shared, s1);
    ReadsBack(nonShared, s2);
    ReadsBack(valueLength, after);
    Peel(a, s1);
    Peel(b, s2);
    hide Varint, GetVarint32;
  }

  lemma LengthsReadBack(shared: U32, nonShared: U32, valueLength: U32, after: seq<Byte>)
    ensures var head := EntryHead(shared, nonShared, valueLength);
            ReadLengths(head + after) == Some(Decoded(|head|, shared, nonShared, valueLength))
  {
    var a, b, c := Varint(shared), Varint(nonShared), Varint(valueLength);
    var s := EntryHead(shared, nonShared, valueLength) + after;
    var s1, s2 := b + (c + after), c + after;
    assert s == a + s1;
    LongLengthsReadBack(shared, nonShared, valueLength, after);
    ReadsBack(shared, s1);
    ReadsBack(nonShared, s2);
    ReadsBack(valueLength, after);
    hide Varint, GetVarint32, EntryHead, ReadLongLengths;
    if shared < 128 && nonShared < 128 && valueLength < 128 {
      assert s == [shared, nonShared, valueLength] + after;
    } else {
      assert s[0] < 128 ==> s[1..] == s1 && shared < 128;
      assert s[0] < 128 && s[1] < 128 ==> s1[1..] == s2 && s[2] == s2[0] && nonShared < 128;
    }
  }

  lemma HeadDecodes(data: seq<Byte>, p: nat, shared: U32, nonShared: U32, valueLength: U32, after: seq<Byte>)
    requires p <= |data| && data[p..] == EntryHead(shared, nonShared, valueLength) + after
    requires nonShared + valueLength <= |after| && |data| < TWO_32
    ensures DecodeEntry(data, p) ==
              Some(Decoded(p + |EntryHead(shared, nonShared, valueLength)|, shared, nonShared, valueLength))
  {
    LengthsReadBack(shared, nonShared, valueLength, after);
    SmallRemainder(|after|);
    SmallRemainder(nonShared + valueLength);
    hide ReadLengths, EntryHead;
  }

  /** A key is no longer than the bytes written up to its end. */
  lemma {:induction false} KeyLength(l: Layout, data: seq<Byte>, i: nat)
    requires Describes(l, data) && i < |l.entries|
    ensures |l.entries[i].key| + |l.entries[i].value| <= |data|
    ensures |l.entries[i].key| <= l.starts[i + 1]
  {
    assert EntryOk(l, data, i);
    hide EntryHead;
    assert |EntryBytes(l.shared[i], l.entries[i])| == l.starts[i + 1] - l.starts[i];
    if i > 0 { KeyLength(l, data, i - 1); }
  }

  lemma EntryAt(l: Layout, data: seq<Byte>, i: nat)
    requires Describes(l, data) && i < |l.entries|
    ensures var e := l.entries[i];
            l.starts[i] <= l.starts[i + 1] <= |data| < TWO_32 && l.shared[i] <= |e.key| <= |data| &&
            |e.value| <= |data| &&
            data[l.starts[i]..l.starts[i + 1]] ==
            EntryHead(l.shared[i], |e.key| - l.shared[i], |e.value|) + (e.key[l.shared[i]..] + e.value)
  {
    KeyLength(l, data, i);
    assert EntryOk(l, data, i);
    hide EntryHead;
  }

  /** Decoding at the start of an entry gives its lengths, and the bytes behind them are its key delta and its value. */
  lemma EntryDecodes(l: Layout, data: seq<Byte>, i: nat)
    requires Describes(l, data) && i < |l.entries|
    ensures DecodeEntry(data, l.starts[i]).Some? && Inside(DecodeEntry(data, l.starts[i]).value, |data|)
    ensures var d := DecodeEntry(data, l.starts[i]).value;
            var e := l.entries[i];
            d.shared == l.shared[i] <= |e.key| && data[d.at..d.at + d.nonShared] == e.key[l.shared[i]..] &&
            data[d.at + d.nonShared..d.at + d.nonShared + d.valueLength] == e.value &&
            d.at + d.nonShared + d.valueLength == l.starts[i + 1]
  {
    EntryAt(l, data, i);
    var e := l.entries[i];
    hide *;
    BytesDecode(data, l.starts[i], l.starts[i + 1], l.shared[i], e.key[l.shared[i]..], e.value);
  }

  lemma BytesDecode(data: seq<Byte>, from: nat, to: nat, shared: U32, delta: Slice, value: Slice)
    requires from <= to <= |data| < TWO_32 && |delta| < TWO_32 && |value| < TWO_32
    requires data[from..to] == EntryHead(shared, |delta|, |value|) + (delta + value)
    ensures var at := from + |EntryHead(shared, |delta|, |value|)|;
            at + |delta| + |value| == to && DecodeEntry(data, from) == Some(Decoded(at, shared, |delta|, |value|)) &&
            Inside(Decoded(at, shared, |delta|, |value|), |data|) &&
            data[at..at + |delta|] == delta && data[at + |delta|..to] == value
  {
    hide EntryHead, DecodeEntry;
    var head := EntryHead(shared, |delta|, |value|);
    Pieces(data, from, to, head, delta, value);
    HeadDecodes(data, from, shared, |delta|, |value|, data[from + |head|..]);
  }

  lemma Pieces(data: seq<Byte>, from: nat, to: nat, x: seq<Byte>, y: seq<Byte>, z: seq<Byte>)
    requires from <= to <= |data| && data[from..to] == x + (y + z)
    ensures from + |x| + |y| + |z| == to && data[from..] == x + data[from + |x|..]
    ensures data[from + |x|..from + |x| + |y|] == y && data[from + |x| + |y|..to] == z
  {
    var d := data[from..to];
    assert d[..|x|] == x && d[|x|..] == y + z;
    assert data[from + |x|..to] == d[|x|..];
    assert data[from..from + |x|] == d[..|x|];
    assert data[from + |x|..from + |x| + |y|] == (y + z)[..|y|];
    assert data[from + |x| + |y|..to] == (y + z)[|y|..];
    assert data[from..] == data[from..from + |x|] + data[from + |x|..];
  }

  lemma SliceOfPrefix(s: seq<Byte>, limit: nat, a: nat, b: nat)
    requires a <= b <= limit <= |s|
    ensures s[..limit][a..b] == s[a..b]
  {
  }

  /** With a key that has the shared bytes, decoding rebuilds the pair. */
  lemma EntryRebuilds(l: Layout, contents: seq<Byte>, limit: nat, key: Slice, j: nat)
    requires limit <= |contents| && Describes(l, contents[..limit]) && j < |l.entries|
    requires l.shared[j] <= |key| && l.shared[j] <= |l.entries[j].key|
    requires key[..l.shared[j]] == l.entries[j].key[..l.shared[j]]
    ensures l.starts[j] < limit && DecodeEntry(contents[..limit], l.starts[j]).Some?
    ensures Inside(DecodeEntry(contents[..limit], l.starts[j]).value, limit)
    ensures var d := DecodeEntry(contents[..limit], l.starts[j]).value;
            var delta := d.at + d.nonShared;
            d.shared <= |key| && delta + d.valueLength == l.starts[j + 1] &&
            key[..d.shared] + contents[d.at..delta] == l.entries[j].key &&
            contents[delta..delta + d.valueLength] == l.entries[j].value
  {
    var data := contents[..limit];
    EntryDecodes(l, data, j);
    var d := DecodeEntry(data, l.starts[j]).value;
    var delta := d.at + d.nonShared;
    assert l.starts[j] < l.starts[|l.entries|];
    hide Describes, DecodeEntry;
    SliceOfPrefix(contents, limit, d.at, delta);
    SliceOfPrefix(contents, limit, delta, delta + d.valueLength);
    var k := l.entries[j].key;
    assert k == k[..d.shared] + k[d.shared..];
  }

  // ---------------------------------------------------------------------------------------------------------------
  // Building.

  /** A finished block: the entries, the restart offsets and their number. */
  function Finished(data: seq<Byte>, offsets: seq<U32>): seq<Byte>
    requires |offsets| < TWO_32
  {
    data + Fixed32Array(offsets) + EncodeFixed32(|offsets|)
  }

  ghost predicate OffsetsOf(l: Layout, offsets: seq<U32>)
    requires Shaped(l) && RestartsOk(l)
  {
    |offsets| == |l.restarts| && forall r :: 0 <= r < |offsets| ==> offsets[r] == Offset(l, r)
  }

  /** One more entry; `restart` says that it is a restart point after the first. */
  ghost function Extended(l: Layout, shared: nat, e: Pair, restart: bool): Layout
    requires Shaped(l) && shared <= |e.key|
  {
    var n := |l.entries|;
    Layout(l.entries + [e], l.shared + [shared], l.starts + [l.starts[n] + |EntryBytes(shared, e)|],
           if restart then l.restarts + [n] else l.restarts)
  }

  lemma ExtendedShape(l: Layout, shared: nat, e: Pair, restart: bool)
    requires Shaped(l) && shared <= |e.key|
    ensures Shaped(Extended(l, shared, e, restart))
  {
    hide EntryBytes;
  }

  lemma ExtendedDescribes(l: Layout, data: seq<Byte>, shared: nat, e: Pair, restart: bool)
    requires Describes(l, data) && shared <= |e.key| && |data| + |EntryBytes(shared, e)| < TWO_32
    requires restart || l.entries == [] ==> shared == 0
    requires restart ==> l.entries != []
    requires l.entries != [] ==>
               var last := l.entries[|l.entries| - 1].key;
               shared <= |last| && last[..shared] == e.key[..shared]
    ensures Describes(Extended(l, shared, e, restart), data + EntryBytes(shared, e))
  {
    var l', data' := Extended(l, shared, e, restart), data + EntryBytes(shared, e);
    ExtendedShape(l, shared, e, restart);
    hide EntryBytes;
    forall i | 0 <= i < |l'.entries| ensures EntryOk(l', data', i) {
      if i < |l.entries| {
        assert EntryOk(l, data, i);
        assert data'[l.starts[i]..l.starts[i + 1]] == data[l.starts[i]..l.starts[i + 1]];
      } else {
        assert data'[|data|..|data'|] == EntryBytes(shared, e);
      }
    }
  }

  lemma EntryLength(shared: nat, e: Pair)
    requires shared <= |e.key| && |e.key| + |e.value| < TWO_32
    ensures |EntryBytes(shared, e)| <= |e.key| + |e.value| + 15
  {
    VarintLength(shared);
    VarintLength(|e.key| - shared);
    VarintLength(|e.value|);
    hide Varint;
  }

  lemma VarintLength(v: U32)
    ensures |Varint(v)| <= 5
  {
    Varint32RoundTrip(v, []);
    assert Varint(v) + [] == Varint(v);
    hide Varint;
  }

  lemma OffsetsExtended(l: Layout, offsets: seq<U32>, shared: nat, e: Pair, restart: bool, at: U32)
    requires Shaped(l) && RestartsOk(l) && OffsetsOf(l, offsets) && at == l.starts[|l.entries|] && shared <= |e.key|
    requires Shaped(Extended(l, shared, e, restart)) && RestartsOk(Extended(l, shared, e, restart))
    ensures OffsetsOf(Extended(l, shared, e, restart), if restart then offsets + [at] else offsets)
  {
    hide EntryBytes;
  }

  lemma AscendingExtended(before: Order, entries: seq<Pair>, e: Pair)
    requires Ascending(before, entries) && StrictOrder(before)
    requires entries == [] || before(Last(entries).key, e.key)
    ensures Ascending(before, entries + [e])
  {
  }

  lemma SpacedExtended(l: Layout, shared: nat, e: Pair, restart: bool, interval: nat, counter: nat)
    requires Spaced(l, interval, counter) && interval >= 1 && (restart <==> counter >= interval) && shared <= |e.key|
    ensures Spaced(Extended(l, shared, e, restart), interval, if restart then 1 else counter + 1)
  {
    hide EntryBytes;
    ExtendedShape(l, shared, e, restart);
  }

  lemma CompressedExtended(l: Layout, shared: nat, e: Pair, restart: bool)
    requires Compressed(l) && shared <= |e.key|
    requires !restart && l.entries != [] ==> shared == Common(Last(l.entries).key, e.key)
    ensures Compressed(Extended(l, shared, e, restart))
  {
    hide EntryBytes, Common;
    ExtendedShape(l, shared, e, restart);
    var l' := Extended(l, shared, e, restart);
    assert restart ==> l'.restarts[|l.restarts|] == |l.entries|;
    forall i | 0 < i < |l'.entries| && i !in l'.restarts
      ensures l'.shared[i] == Common(l'.entries[i - 1].key, l'.entries[i].key)
    {
      assert i < |l.entries| ==> i !in l.restarts;
    }
  }

  ghost predicate LaidOut(l: Layout, before: Order, interval: nat, data: seq<Byte>, offsets: seq<U32>, counter: nat) {
    && Describes(l, data) && OffsetsOf(l, offsets) && Ascending(before, l.entries)
    && Spaced(l, interval, counter) && Compressed(l)
  }

  lemma NothingLaidOut(before: Order, interval: nat)
    ensures LaidOut(Layout([], [], [0], [0]), before, interval, [], [0], 0)
  {
    assert Offset(Layout([], [], [0], [0]), 0) == 0;
  }

  lemma LaidOutOneMore(l: Layout, before: Order, interval: nat, data: seq<Byte>, offsets: seq<U32>, counter: nat,
                       shared: nat, e: Pair, restart: bool)
    requires LaidOut(l, before, interval, data, offsets, counter) && StrictOrder(before) && interval >= 1
    requires shared <= |e.key| && |data| + |e.key| + |e.value| + 15 < TWO_32
    requires restart == (counter >= interval) && (l.entries == [] ==> counter == 0)
    requires l.entries != [] ==> before(Last(l.entries).key, e.key)
    requires shared == if restart || l.entries == [] then 0 else Common(Last(l.entries).key, e.key)
    ensures LaidOut(Extended(l, shared, e, restart), before, interval, data + EntryBytes(shared, e),
                    if restart then offsets + [|data|] else offsets, if restart then 1 else counter + 1)
    ensures Extended(l, shared, e, restart).entries == l.entries + [e]
  {
    EntryLength(shared, e);
    hide EntryBytes, Common, StrictOrder;
    SpacedExtended(l, shared, e, restart, interval, counter);
    CompressedExtended(l, shared, e, restart);
    AscendingExtended(before, l.entries, e);
    hide Spaced, Compressed, Ascending;
    ExtendedDescribes(l, data, shared, e, restart);
    OffsetsExtended(l, offsets, shared, e, restart, |data|);
  }

  lemma {:induction false} StartsGrow(l: Layout, i: nat)
    requires Shaped(l) && i < |l.starts|
    ensures l.starts[i] >= i
  {
    if i > 0 { StartsGrow(l, i - 1); }
  }

  lemma {:induction false} RestartsGrow(l: Layout, r: nat)
    requires Shaped(l) && RestartsOk(l) && r < |l.restarts|
    ensures l.restarts[r] >= r
  {
    if r > 0 { RestartsGrow(l, r - 1); }
  }

  /** The number of restart points fits the 32 bits it is stored in. */
  lemma FewRestarts(l: Layout, data: seq<Byte>)
    requires Describes(l, data)
    ensures |l.restarts| < TWO_32
  {
    StartsGrow(l, |l.entries|);
    RestartsGrow(l, |l.restarts| - 1);
  }

  function Last<T>(s: seq<T>): T
    requires s != []
  {
    s[|s| - 1]
  }

  class BlockBuilder {
    const before: Order
    const restartInterval: nat
    var buffer: seq<Byte>
    var restarts: seq<U32>
    var counter: nat
    var finished: bool
    var lastKey: Slice
    ghost var layout: Layout

    ghost predicate Valid()
      reads this
    {
      && restartInterval >= 1 && !finished && counter <= restartInterval
      && LaidOut(layout, before, restartInterval, buffer, restarts, counter)
      && (if layout.entries == [] then lastKey == [] && counter == 0
          else lastKey == Last(layout.entries).key && counter > 0)
    }

    constructor (before: Order, restartInterval: nat)
      requires restartInterval >= 1
      ensures Valid() && layout.entries == [] && this.before == before && this.restartInterval == restartInterval
      ensures buffer == []
    {
      this.before, this.restartInterval := before, restartInterval;
      buffer, restarts, counter, finished, lastKey := [], [0], 0, false, [];
      layout := Layout([], [], [0], [0]);
      new;
      NothingLaidOut(before, restartInterval);
    }

    /** Appends a pair; its key has to be after the last one. */
    method Add(key: Slice, value: Slice)
      requires Valid() && StrictOrder(before) && (layout.entries == [] || before(Last(layout.entries).key, key))
      requires |buffer| + |key| + |value| + 15 < TWO_32
      modifies this
      ensures Valid() && layout.entries == old(layout.entries) + [Pair(key, value)]
      ensures |buffer| <= |old(buffer)| + |key| + |value| + 15
    {
      ghost var pair := Pair(key, value);
      assert Shaped(layout);
      hide LaidOut, Shaped, Extended, StrictOrder, EntryBytes, Common;
      var shared, restart := StartEntry(key);
      EntryLength(shared, pair);
      LaidOutOneMore(layout, before, restartInterval, buffer, old(restarts), old(counter), shared, pair, restart);
      Append(key, value, shared);
      Rejoined(lastKey, key, shared);
      lastKey := lastKey[..shared] + key[shared..];
      counter := counter + 1;
      layout := Extended(layout, shared, pair, restart);
    }

    /** Makes the entry to come a restart point if one is due; else it shares what it can with the one before. */
    method StartEntry(key: Slice) returns (shared: nat, ghost restart: bool)
      requires Valid()
      modifies this`restarts, this`counter
      ensures restart == (old(counter) >= restartInterval) && shared <= |key|
      ensures restarts == (if restart then old(restarts) + [|buffer|] else old(restarts))
      ensures counter == (if restart then 0 else old(counter)) && (layout.entries == [] ==> old(counter) == 0)
      ensures shared == if restart || layout.entries == [] then 0 else Common(Last(layout.entries).key, key)
      ensures shared <= |lastKey| && lastKey[..shared] == key[..shared]
    {
      hide LaidOut;
      shared, restart := 0, counter >= restartInterval;
      if counter < restartInterval {
        shared := SharedPrefix(key);
        CommonIs(lastKey, key, shared);
      } else {
        assert |buffer| < TWO_32 by { Small(); }
        restarts := restarts + [|buffer|];
        counter := 0;
      }
    }

    lemma Small()
      requires Valid()
      ensures |buffer| < TWO_32
    {
    }

    lemma Rejoined(a: Slice, b: Slice, n: nat)
      requires n <= |a| && n <= |b| && a[..n] == b[..n]
      ensures a[..n] + b[n..] == b
    {
    }

    method Append(key: Slice, value: Slice, shared: nat)
      requires shared <= |key|
      modifies this`buffer
      ensures buffer == old(buffer) + EntryBytes(shared, Pair(key, value))
    {
      var nonShared := |key| - shared;
      buffer := buffer + Varint(shared);
      buffer := buffer + Varint(nonShared);
      buffer := buffer + Varint(|value|);
      buffer := buffer + key[shared..];
      buffer := buffer + value;
      hide Varint;
    }

    /** Back to an empty block. */
    method Reset()
      requires restartInterval >= 1
      modifies this
      ensures Valid() && layout.entries == [] && buffer == []
    {
      buffer, restarts, counter, finished, lastKey := [], [0], 0, false, [];
      layout := Layout([], [], [0], [0]);
      NothingLaidOut(before, restartInterval);
    }

    function CurrentSizeEstimate(): nat
      reads this
    {
      |buffer| + |restarts| * 4 + 4
    }

    /** How much of the key is the same as in the one before. */
    method SharedPrefix(key: Slice) returns (shared: nat)
      requires Valid()
      ensures shared <= |lastKey| && shared <= |key| && lastKey[..shared] == key[..shared]
      ensures shared < |lastKey| && shared < |key| ==> lastKey[shared] != key[shared]
    {
      var minLength := if |lastKey| < |key| then |lastKey| else |key|;
      shared := 0;
      while shared < minLength && lastKey[shared] == key[shared]
        invariant shared <= minLength && lastKey[..shared] == key[..shared]
      {
        shared := shared + 1;
      }
    }

    /** The contents of the block. */
    method Finish() returns (r: Slice)
      requires Valid()
      modifies this
      ensures finished && layout == old(layout) && restarts == old(restarts) && |restarts| < TWO_32
      ensures Describes(layout, old(buffer)) && OffsetsOf(layout, restarts) && r == Finished(old(buffer), restarts)
      ensures Spaced(layout, restartInterval, old(counter)) && Compressed(layout)
    {
      FewRestarts(layout, buffer);
      hide Describes, OffsetsOf;
      var i := 0;
      while i < |restarts|
        invariant i <= |restarts| && buffer == old(buffer) + Fixed32Array(restarts[..i])
        invariant restarts == old(restarts) && layout == old(layout)
      {
        assert restarts[..i + 1][..i] == restarts[..i];
        buffer := buffer + EncodeFixed32(restarts[i]);
        i := i + 1;
      }
      assert restarts[..i] == restarts;
      buffer := buffer + EncodeFixed32(|restarts|);
      finished := true;
      r := buffer;
    }
  }

  // ---------------------------------------------------------------------------------------------------------------
  // Iterating.

  datatype Op = SeekToFirst | SeekToLast | Seek(target: Slice) | Next | Prev

  /** The first position from `from` on whose key is not before the target, or the end. */
  ghost function FirstFrom(before: Order, entries: seq<Pair>, target: Slice, from: nat): (i: nat)
    requires from <= |entries|
    ensures from <= i <= |entries|
    ensures forall j :: from <= j < i ==> before(entries[j].key, target)
    ensures i < |entries| ==> !before(entries[i].key, target)
    decreases |entries| - from
  {
    if from == |entries| || !before(entries[from].key, target) then from
    else FirstFrom(before, entries, target, from + 1)
  }

  /** A cursor over the pairs of a block; the position behind the last one is that of an invalid iterator. */
  ghost function Move(before: Order, entries: seq<Pair>, at: nat, op: Op): (r: nat)
    requires at <= |entries| && (op.Next? || op.Prev? ==> at < |entries|)
    ensures r <= |entries|
  {
    match op
    case SeekToFirst => 0
    case SeekToLast => if entries == [] then 0 else |entries| - 1
    case Seek(target) => FirstFrom(before, entries, target, 0)
    case Next => at + 1
    case Prev => if at == 0 then |entries| else at - 1
  }

  class Iter {
    const before: Order
    const contents: seq<Byte>
    const limit: nat
    const numRestarts: nat
    ghost const layout: Layout
    var current: nat
    var restartIndex: nat
    var key: Slice
    var value: Slice
    var nextOffset: nat
    var corrupt: bool
    /** An entry whose lengths wrap has been accepted: the source reads on outside the block, the model stops here. */
    var overrun: bool
    ghost var at: nat

    constructor (before: Order, contents: seq<Byte>, limit: nat, numRestarts: nat, ghost layout: Layout)
      requires numRestarts > 0 && limit + 4 * numRestarts + 4 <= |contents|
      ensures this.before == before && this.contents == contents && this.limit == limit
      ensures this.numRestarts == numRestarts && this.layout == layout
      ensures Shape() && current == limit && restartIndex == numRestarts && at == |layout.entries|
    {
      this.before, this.contents, this.limit, this.numRestarts, this.layout :=
          before, contents, limit, numRestarts, layout;
      current, restartIndex, key, value, nextOffset, corrupt, overrun := limit, numRestarts, [], [], 0, false, false;
      at := |layout.entries|;
    }

    ghost predicate Shape() {
      numRestarts > 0 && limit + 4 * numRestarts + 4 <= |contents|
    }

    function GetRestartPoint(index: nat): nat
      requires Shape() && index < numRestarts
    {
      DecodeFixed32(contents[limit + 4 * index..])
    }

    /** The contents are those of a block that a builder finished, with the pairs of `layout`. */
    ghost predicate Genuine() {
      && Shape() && Describes(layout, contents[..limit]) && |layout.restarts| == numRestarts
      && Ascending(before, layout.entries) && StrictOrder(before)
      && forall r :: 0 <= r < numRestarts ==> GetRestartPoint(r) == Offset(layout, r)
    }

    ghost predicate InRestart(ri: nat, offset: nat) {
      Shape() && ri < numRestarts && GetRestartPoint(ri) <= offset
    }

    /** The iterator stands at the pair number `at`, or behind the last. */
    ghost predicate Placed()
      reads this
    {
      var n := |layout.entries|;
      |layout.starts| == n + 1 && at <= n &&
      if at < n then
        current == layout.starts[at] && nextOffset == layout.starts[at + 1] && Pair(key, value) == layout.entries[at] &&
        InRestart(restartIndex, current) &&
        (restartIndex + 1 < numRestarts ==> current <= GetRestartPoint(restartIndex + 1))
      else
        current == limit && restartIndex == numRestarts
    }

    /** The next thing to parse is the pair number `j`. */
    ghost predicate About(j: nat)
      reads this
    {
      j < |layout.starts| == |layout.entries| + 1 && |layout.shared| == |layout.entries| &&
      nextOffset == layout.starts[j] && InRestart(restartIndex, nextOffset) &&
      (j < |layout.entries| ==>
         layout.shared[j] <= |key| && layout.shared[j] <= |layout.entries[j].key| &&
         key[..layout.shared[j]] == layout.entries[j].key[..layout.shared[j]])
    }

    ghost predicate Valid()
      reads this
    {
      Shape() && (IsValid() ==> restartIndex < numRestarts) && (Genuine() ==> Placed())
    }

    predicate IsValid()
      reads this
    {
      current < limit
    }

    /** On a genuine block the iterator is where the cursor `r` is. */
    ghost predicate StandsAt(r: nat)
      reads this
    {
      Genuine() ==>
        at == r &&
        (if IsValid() then r < |layout.entries| && Pair(key, value) == layout.entries[r] else r == |layout.entries|)
    }

    method CorruptionError()
      modifies this`current, this`restartIndex, this`corrupt, this`key, this`value
      ensures current == limit && restartIndex == numRestarts
    {
      current := limit;
      restartIndex := numRestarts;
      corrupt := true;
      key := [];
      value := [];
    }

    method LeaveBlock()
      modifies this`current, this`restartIndex, this`overrun
      ensures current == limit && restartIndex == numRestarts && overrun
    {
      current := limit;
      restartIndex := numRestarts;
      overrun := true;
    }

    method SeekToRestartPoint(index: nat)
      requires Shape() && index < numRestarts
      modifies this`key, this`restartIndex, this`nextOffset, this`value
      ensures key == [] && restartIndex == index && nextOffset == GetRestartPoint(index)
      ensures Genuine() ==> About(layout.restarts[index])
    {
      key := [];
      restartIndex := index;
      nextOffset := GetRestartPoint(index);
      value := [];
    }

    ghost predicate Within(ok: bool)
      reads this
    {
      if ok then restartIndex < numRestarts else current == limit && restartIndex == numRestarts
    }

    ghost predicate Parsed(ok: bool, j: nat)
      reads this
    {
      Placed() && at == j && (ok <==> j < |layout.entries|)
    }

    /** Moves on to the pair whose turn it is, or to the end. */
    method ParseNextKey(ghost j: nat) returns (ok: bool)
      requires Shape() && Within(true)
      modifies this
      ensures Within(ok) && (ok ==> old(nextOffset) == current < nextOffset <= limit)
      ensures Genuine() && old(About(j)) ==> Parsed(ok, j)
    {
      ghost var genuine := Genuine() && About(j);
      if genuine { Turn(j); }
      hide Genuine, GetRestartPoint, About, InRestart, Placed, Parsed;
      at := j;
      current := nextOffset;
      if current >= limit {
        current := limit;
        restartIndex := numRestarts;
        if genuine { NowPlaced(j); }
        return false;
      }
      ok := DecodeCurrent(j);
      if ok {
        FindRestart(genuine);
      }
      if genuine { NowPlaced(j); }
    }

    lemma Turn(j: nat)
      requires Genuine() && About(j)
      ensures j <= |layout.entries| && |layout.starts| == |layout.entries| + 1 && nextOffset == layout.starts[j]
      ensures InRestart(restartIndex, nextOffset) && (nextOffset < limit <==> j < |layout.entries|)
    {
    }

    lemma NowPlaced(j: nat)
      requires Shape() && at == j && |layout.starts| == |layout.entries| + 1 && at <= |layout.entries|
      requires at < |layout.entries| ==> current == layout.starts[at] && nextOffset == layout.starts[at + 1]
      requires at < |layout.entries| ==> key == layout.entries[at].key && value == layout.entries[at].value
      requires at < |layout.entries| ==> InRestart(restartIndex, current)
      requires at < |layout.entries| && restartIndex + 1 < numRestarts ==> current <= GetRestartPoint(restartIndex + 1)
      requires at == |layout.entries| ==> current == limit && restartIndex == numRestarts
      ensures Parsed(j < |layout.entries|, j)
    {
    }

    /** The lengths of the entry at the offset pass the test although their sum wraps. */
    ghost predicate Overruns(offset: nat)
      requires Shape()
    {
      DecodeEntry(contents[..limit], offset).Some? && !Inside(DecodeEntry(contents[..limit], offset).value, limit)
    }

    /** Replaces key and value by those of the entry at `current`. */
    method DecodeCurrent(ghost j: nat) returns (ok: bool)
      requires Shape() && Within(true) && current < limit
      modifies this`key, this`value, this`nextOffset, this`current, this`restartIndex, this`corrupt, this`overrun
      ensures Within(ok)
      ensures ok ==> current == old(current) && restartIndex == old(restartIndex) && current < nextOffset <= limit
      ensures overrun && !old(overrun) ==> Overruns(old(current))
      ensures Genuine() && old(About(j) && current == nextOffset) && j < |layout.entries| ==>
                ok && overrun == old(overrun) && j + 1 < |layout.starts| && nextOffset == layout.starts[j + 1] &&
                key == layout.entries[j].key && value == layout.entries[j].value
    {
      if Genuine() && About(j) && current == nextOffset && j < |layout.entries| {
        EntryRebuilds(layout, contents, limit, key, j);
      }
      hide Genuine, DecodeEntry;
      var d := DecodeEntry(contents[..limit], current);
      if d.None? || |key| < d.value.shared {
        CorruptionError();
        return false;
      }
      if !Inside(d.value, limit) {
        LeaveBlock();
        return false;
      }
      var delta := d.value.at + d.value.nonShared;
      key := key[..d.value.shared] + contents[d.value.at..delta];
      nextOffset := delta + d.value.valueLength;
      value := contents[delta..nextOffset];
      return true;
    }

    method FindRestart(ghost genuine: bool)
      requires Shape()
      modifies this`restartIndex
      ensures genuine && InRestart(old(restartIndex), current) ==> InRestart(restartIndex, current)
      ensures restartIndex + 1 < numRestarts ==> current <= GetRestartPoint(restartIndex + 1)
      ensures old(restartIndex) < numRestarts ==> restartIndex < numRestarts
    {
      while restartIndex + 1 < numRestarts && GetRestartPoint(restartIndex + 1) < current
        invariant old(restartIndex) < numRestarts ==> restartIndex < numRestarts
        invariant genuine && InRestart(old(restartIndex), current) ==> InRestart(restartIndex, current)
        decreases numRestarts - restartIndex
      {
        restartIndex := restartIndex + 1;
      }
    }

    lemma NextIsAbout()
      requires Genuine() && Placed() && at < |layout.entries|
      ensures About(at + 1)
    {
      if at + 1 < |layout.entries| { assert EntryOk(layout, contents[..limit], at + 1); }
    }

    lemma PlacedStands()
      requires (Genuine() ==> Placed())
      ensures StandsAt(at)
      ensures Genuine() && IsValid() ==> at < |layout.entries| && current == layout.starts[at]
    {
    }

    method Next()
      requires Valid() && IsValid()
      modifies this
      ensures Valid() && (IsValid() ==> old(nextOffset) < nextOffset <= limit)
      ensures Genuine() ==> StandsAt(Move(before, layout.entries, old(at), Op.Next))
    {
      PlacedStands();
      if Genuine() { NextIsAbout(); }
      hide Genuine, Placed, About, InRestart;
      var ok := ParseNextKey(at + 1);
      PlacedStands();
    }

    method SeekToFirst()
      requires Valid()
      modifies this
      ensures Valid() && (Genuine() ==> StandsAt(Move(before, layout.entries, 0, Op.SeekToFirst)))
    {
      assert Genuine() ==> layout.restarts[0] == 0;
      ghost var first := if Genuine() then layout.restarts[0] else 0;
      hide Genuine, Placed, About, InRestart;
      SeekToRestartPoint(0);
      var ok := ParseNextKey(first);
      PlacedStands();
    }

    method SeekToLast()
      requires Valid()
      modifies this
      ensures Valid() && (Genuine() ==> StandsAt(Move(before, layout.entries, 0, Op.SeekToLast)))
    {
      ghost var j: nat := 0;
      if Genuine() { j := layout.restarts[numRestarts - 1]; }
      SeekToRestartPoint(numRestarts - 1);
      ghost var end := if Genuine() then |layout.entries| else 0;
      var ok := ScanTo(limit, j, end);
      PlacedStands();
    }

    /** What a scan is after: the pair before `end`, or nothing if the block is empty. */
    ghost predicate ScanGoal(j: nat, end: nat, original: nat) {
      |layout.starts| == |layout.entries| + 1 &&
      (j == |layout.entries| || (j < end <= |layout.entries| && original == layout.starts[end]))
    }

    /** Parses pairs until one ends at the offset or behind it; on a genuine block that is the one before `end`. */
    method ScanTo(original: nat, ghost j: nat, ghost end: nat) returns (ok: bool)
      requires Shape() && Within(true)
      modifies this
      ensures Within(ok)
      ensures Genuine() && old(About(j)) && ScanGoal(j, end, original) ==>
                Parsed(ok, if j == |layout.entries| then j else end - 1)
    {
      ghost var genuine := Genuine() && About(j) && ScanGoal(j, end, original);
      hide Genuine, Placed, About, InRestart, Within, Parsed, Shape;
      ok := ParseNextKey(j);
      if genuine { ScanStep(ok, j, j, end, original); }
      ghost var i := j;
      while ok && nextOffset < original
        invariant Within(ok) && j <= i
        invariant genuine ==> Parsed(ok, i) && Scanning(ok, i, j, end, original)
        decreases if ok && nextOffset < original then original - nextOffset else 0
      {
        i := i + 1;
        ok := ParseNextKey(i);
        if genuine { ScanStep(ok, i, j, end, original); }
      }
      if genuine { ScanEnds(ok, i, j, end, original); }
    }

    /** A scan that is at pair `i` and has not passed the one before `end`. */
    ghost predicate Scanning(ok: bool, i: nat, j: nat, end: nat, original: nat)
      reads this
    {
      if j == |layout.entries| then i == j && !ok
      else ok && i < end && About(i + 1) && (nextOffset < original <==> i + 1 < end)
    }

    lemma ScanStep(ok: bool, i: nat, j: nat, end: nat, original: nat)
      requires Genuine() && Parsed(ok, i) && ScanGoal(j, end, original) && j <= i
      requires i == j || i < end <= |layout.entries|
      ensures Scanning(ok, i, j, end, original)
    {
      if j < |layout.entries| { BeforeEnd(end); }
    }

    lemma ScanEnds(ok: bool, i: nat, j: nat, end: nat, original: nat)
      requires Parsed(ok, i) && Scanning(ok, i, j, end, original) && !(ok && nextOffset < original)
      ensures Parsed(ok, if j == |layout.entries| then j else end - 1)
    {
    }

    lemma BeforeEnd(end: nat)
      requires Genuine() && Placed() && at < end <= |layout.entries|
      ensures About(at + 1) && end < |layout.starts| && (nextOffset < layout.starts[end] <==> at + 1 < end)
    {
      NextIsAbout();
      assert nextOffset == layout.starts[at + 1];
    }

    /** The last restart point before the offset; None if there is none. */
    method RestartBefore(original: nat) returns (found: bool)
      requires Shape() && Within(true)
      modifies this`restartIndex
      ensures Within(true)
      ensures found ==> InRestart(restartIndex, original) && GetRestartPoint(restartIndex) < original
      ensures !found ==> GetRestartPoint(0) >= original
    {
      while GetRestartPoint(restartIndex) >= original
        invariant Within(true)
        decreases restartIndex
      {
        if restartIndex == 0 {
          return false;
        }
        restartIndex := restartIndex - 1;
      }
      return true;
    }

    /** The entry at a restart point in front of the current pair comes before it. */
    lemma RestartIsBefore(ri: nat)
      requires Genuine() && Placed() && at < |layout.entries| && ri < numRestarts
      ensures ri < |layout.restarts| && |layout.starts| == |layout.entries| + 1
      ensures GetRestartPoint(ri) < current <==> layout.restarts[ri] < at
      ensures layout.restarts[0] == 0
    {
      assert GetRestartPoint(ri) == Offset(layout, ri);
    }

    method Prev()
      requires Valid() && IsValid()
      modifies this
      ensures Valid() && (Genuine() ==> StandsAt(Move(before, layout.entries, old(at), Op.Prev)))
    {
      var original := current;
      ghost var was := at;
      ghost var genuine := Genuine();
      PlacedStands();
      if genuine { RestartIsBefore(0); }
      var found := RestartBefore(original);
      if !found {
        current := limit;
        restartIndex := numRestarts;
        at := |layout.entries|;
        return;
      }
      ghost var j: nat := 0;
      if genuine {
        RestartPlace(was, original, restartIndex);
        j := layout.restarts[restartIndex];
      }
      SeekToRestartPoint(restartIndex);
      hide Genuine, Placed, About, InRestart;
      var ok := ScanTo(original, j, was);
      if genuine { ParsedStands(ok, was - 1); }
    }

    lemma RestartPlace(pos: nat, original: nat, ri: nat)
      requires Genuine() && pos < |layout.entries| && original == layout.starts[pos] && InRestart(ri, original)
      requires GetRestartPoint(ri) < original
      ensures ri < |layout.restarts| && layout.restarts[ri] < pos && ScanGoal(layout.restarts[ri], pos, original)
    {
      assert GetRestartPoint(ri) == Offset(layout, ri);
    }

    lemma ParsedStands(ok: bool, j: nat)
      requires Parsed(ok, j)
      ensures StandsAt(j) && Placed()
    {
    }

    /** The key at a restart point, which is stored in full. */
    lemma RestartKey(r: nat)
      requires Genuine() && r < numRestarts && numRestarts > 1
      ensures r < |layout.restarts| && layout.restarts[r] < |layout.entries|
      ensures var d := DecodeEntry(contents[..limit], GetRestartPoint(r));
              d.Some? && d.value.shared == 0 && Inside(d.value, limit) &&
              contents[d.value.at..d.value.at + d.value.nonShared] == layout.entries[layout.restarts[r]].key
    {
      assert layout.restarts[0] < layout.restarts[numRestarts - 1];
      var j := layout.restarts[r];
      assert EntryOk(layout, contents[..limit], j);
      EntryRebuilds(layout, contents, limit, [], j);
      var d := DecodeEntry(contents[..limit], GetRestartPoint(r)).value;
      hide Genuine, DecodeEntry;
      assert [][..0] + contents[d.at..d.at + d.nonShared] == contents[d.at..d.at + d.nonShared];
    }

    /**
     Binary search for the last restart point with a key before the target; None if an entry cannot be decoded or, with
     `past`, if its key reaches outside the block.
     */
    method SearchRestarts(target: Slice) returns (r: Option<nat>, past: bool)
      requires Shape()
      ensures r.Some? ==> r.value < numRestarts
      ensures past ==> r.None? && exists i :: 0 <= i < numRestarts && Overruns(GetRestartPoint(i))
      ensures Genuine() ==> r.Some? && r.value < |layout.restarts| && NoneBefore(layout.restarts[r.value], target)
    {
      var left: nat := 0;
      var right: nat := numRestarts - 1;
      if Genuine() { StartIsBefore(target); }
      while left < right
        invariant left <= right < numRestarts
        invariant Genuine() ==> left < |layout.restarts| && NoneBefore(layout.restarts[left], target)
      {
        var mid := (left + right + 1) / 2;
        if Genuine() { RestartKey(mid); }
        hide Genuine, DecodeEntry, NoneBefore, GetRestartPoint;
        var d := DecodeEntry(contents[..limit], GetRestartPoint(mid));
        if d.None? || d.value.shared != 0 {
          return None, false;
        }
        if d.value.at + d.value.nonShared > limit {
          return None, true;
        }
        var midKey := contents[d.value.at..d.value.at + d.value.nonShared];
        if before(midKey, target) {
          if Genuine() { BeforeIsBefore(mid, target); }
          left := mid;
        } else {
          right := mid - 1;
        }
      }
      return Some(left), false;
    }

    /** All keys in front of pair `j` are before the target. */
    ghost predicate NoneBefore(j: nat, target: Slice) {
      j <= |layout.entries| && forall i :: 0 <= i < j ==> before(layout.entries[i].key, target)
    }

    lemma StartIsBefore(target: Slice)
      requires Genuine()
      ensures |layout.restarts| == numRestarts > 0 && NoneBefore(layout.restarts[0], target)
    {
    }

    lemma BeforeIsBefore(r: nat, target: Slice)
      requires Genuine() && r < |layout.restarts| && layout.restarts[r] < |layout.entries|
      requires before(layout.entries[layout.restarts[r]].key, target)
      ensures NoneBefore(layout.restarts[r], target)
    {
    }

    method Seek(target: Slice)
      requires Valid()
      modifies this
      ensures Valid() && (Genuine() ==> StandsAt(Move(before, layout.entries, 0, Op.Seek(target))))
    {
      var left, past := SearchRestarts(target);
      if left.None? {
        if past { LeaveBlock(); } else { CorruptionError(); }
        return;
      }
      ghost var i: nat := 0;
      if Genuine() { i := layout.restarts[left.value]; }
      SeekToRestartPoint(left.value);
      LinearSearch(target, i);
    }

    method LinearSearch(target: Slice, ghost i: nat)
      requires Shape() && Within(true)
      modifies this
      ensures Within(IsValid())
      ensures Genuine() && old(About(i)) && NoneBefore(i, target) ==>
                Placed() && StandsAt(FirstFrom(before, layout.entries, target, 0))
    {
      ghost var genuine := Genuine() && About(i) && NoneBefore(i, target);
      hide Genuine, Placed, About, InRestart, Parsed, NoneBefore, StandsAt;
      ghost var j := i;
      var more := true;
      while more
        invariant Within(more) && (!more ==> !IsValid())
        invariant genuine ==> if more then About(j) && NoneBefore(j, target)
                  else Placed() && StandsAt(FirstFrom(before, layout.entries, target, 0))
        decreases more, if nextOffset < limit then limit - nextOffset else 0
      {
        more := ParseNextKey(j);
        if genuine { SeekStep(more, j, target); }
        if more && !before(key, target) {
          return;
        }
        j := j + 1;
      }
    }

    lemma SeekStep(ok: bool, i: nat, target: Slice)
      requires Genuine() && Parsed(ok, i) && NoneBefore(i, target)
      ensures if ok && before(key, target) then About(i + 1) && NoneBefore(i + 1, target)
              else Placed() && StandsAt(FirstFrom(before, layout.entries, target, 0))
    {
      if ok {
        NextIsAbout();
      }
      if !ok || !before(key, target) { FirstFromIs(i, target); }
    }

    lemma FirstFromIs(i: nat, target: Slice)
      requires NoneBefore(i, target) && (i < |layout.entries| ==> !before(layout.entries[i].key, target))
      ensures FirstFrom(before, layout.entries, target, 0) == i
    {
    }

    /** One call of the iterator's interface. */
    method Do(op: Op)
      requires Valid() && (op.Next? || op.Prev? ==> IsValid())
      modifies this
      ensures Valid()
      ensures Genuine() ==> old(at) <= |layout.entries| && (op.Next? || op.Prev? ==> old(at) < |layout.entries|)
      ensures Genuine() ==> StandsAt(Move(before, layout.entries, old(at), op))
    {
      PlacedStands();
      if Genuine() { InBounds(); }
      match op
      case SeekToFirst => SeekToFirst();
      case SeekToLast => SeekToLast();
      case Seek(target) => Seek(target);
      case Next => Next();
      case Prev => Prev();
    }

    lemma Outside()
      requires Shape() && current == limit && restartIndex == numRestarts && at == |layout.entries|
      ensures Valid() && (Genuine() ==> StandsAt(|layout.entries|))
    {
    }

    lemma InBounds()
      requires Placed()
      ensures at <= |layout.entries|
    {
    }

    /** From the first pair to the last. */
    method ReadAll() returns (pairs: seq<Pair>)
      requires Valid()
      modifies this
      ensures Valid() && (Genuine() ==> pairs == layout.entries)
    {
      pairs := [];
      SeekToFirst();
      if Genuine() { Begin(); }
      hide Genuine, Placed, StandsAt, ReadUpTo;
      while IsValid()
        invariant Valid() && (Genuine() ==> ReadUpTo(pairs))
        decreases IsValid(), if nextOffset < limit then limit - nextOffset else 0
      {
        if Genuine() { OneMore(pairs); }
        ghost var was := at;
        pairs := pairs + [Pair(key, value)];
        Next();
        if Genuine() { ThenNext(pairs, was); }
      }
      if Genuine() { AllRead(pairs); }
    }

    ghost predicate ReadUpTo(pairs: seq<Pair>)
      reads this
    {
      at <= |layout.entries| && pairs == layout.entries[..at] && StandsAt(at)
    }

    lemma Begin()
      requires Genuine() && StandsAt(Move(before, layout.entries, 0, Op.SeekToFirst))
      ensures ReadUpTo([])
    {
    }

    lemma OneMore(pairs: seq<Pair>)
      requires Genuine() && ReadUpTo(pairs) && IsValid()
      ensures at < |layout.entries| && pairs + [Pair(key, value)] == layout.entries[..at + 1]
    {
    }

    lemma ThenNext(pairs: seq<Pair>, was: nat)
      requires Genuine() && was < |layout.entries| && StandsAt(Move(before, layout.entries, was, Op.Next))
      requires pairs == layout.entries[..was + 1]
      ensures ReadUpTo(pairs)
    {
    }

    lemma AllRead(pairs: seq<Pair>)
      requires Genuine() && ReadUpTo(pairs) && !IsValid()
      ensures pairs == layout.entries
    {
    }
  }

  /** What the constructor of a block reads off a finished one. */
  lemma FinishedParts(data: seq<Byte>, offsets: seq<U32>)
    requires |offsets| < TWO_32
    ensures var contents := Finished(data, offsets);
            |contents| == |data| + 4 * |offsets| + 4 && contents[..|data|] == data &&
            DecodeFixed32(contents[|contents| - 4..]) == |offsets| &&
            forall r :: 0 <= r < |offsets| ==> DecodeFixed32(contents[|data| + 4 * r..]) == offsets[r]
  {
    var contents, tail := Finished(data, offsets), EncodeFixed32(|offsets|);
    assert contents[|contents| - 4..] == tail + [];
    Fixed32RoundTrip(|offsets|, []);
    assert contents[|data|..] == Fixed32Array(offsets) + tail;
    forall r | 0 <= r < |offsets| ensures DecodeFixed32(contents[|data| + 4 * r..]) == offsets[r] {
      Fixed32ArrayAt(offsets, r, tail);
      assert contents[|data| + 4 * r..] == contents[|data|..][4 * r..];
    }
  }

  datatype Opened = BadContents | NoPairs | Opened(iter: Iter)

  /** The iterator over the contents of a block; contents too short for their restart array are refused. */
  method NewIterator(before: Order, contents: Slice, ghost layout: Layout, ghost data: Slice, ghost offsets: seq<U32>)
    returns (r: Opened)
    ensures r.Opened? ==> fresh(r.iter) && r.iter.Valid() && r.iter.before == before && r.iter.contents == contents
    ensures Describes(layout, data) && OffsetsOf(layout, offsets) && |offsets| < TWO_32 &&
            contents == Finished(data, offsets) &&
            StrictOrder(before) && Ascending(before, layout.entries) ==>
              r.Opened? && r.iter.Genuine() && r.iter.layout == layout && r.iter.StandsAt(|layout.entries|)
  {
    ghost var genuine := Describes(layout, data) && OffsetsOf(layout, offsets) && |offsets| < TWO_32 &&
        contents == Finished(data, offsets);
    if genuine { FinishedParts(data, offsets); }
    hide Finished, DecodeFixed32;
    if |contents| < 4 {
      return BadContents;
    }
    var maxRestartsAllowed := (|contents| - 4) / 4;
    var numRestarts := DecodeFixed32(contents[|contents| - 4..]);
    if numRestarts > maxRestartsAllowed {
      return BadContents;
    }
    if numRestarts == 0 {
      return NoPairs;
    }
    var iter := new Iter(before, contents, |contents| - (1 + numRestarts) * 4, numRestarts, layout);
    iter.Outside();
    r := Opened(iter);
  }

  /** An upper bound of the size of the entries of a block. */
  function SizeBound(pairs: seq<Pair>): nat {
    if pairs == [] then 0 else SizeBound(pairs[..|pairs| - 1]) + |Last(pairs).key| + |Last(pairs).value| + 15
  }

  lemma {:induction false} SizeGrows(pairs: seq<Pair>, i: nat)
    requires i < |pairs|
    ensures SizeBound(pairs[..i]) + |pairs[i].key| + |pairs[i].value| + 15 == SizeBound(pairs[..i + 1]) <=
              SizeBound(pairs)
  {
    assert pairs[..i + 1][..i] == pairs[..i];
    if i + 1 < |pairs| {
      var front := pairs[..|pairs| - 1];
      SizeGrows(front, i);
      assert front[..i + 1] == pairs[..i + 1];
    } else {
      assert pairs[..i + 1] == pairs;
    }
  }

  lemma OneMorePair(before: Order, pairs: seq<Pair>, i: nat)
    requires i < |pairs| && Ascending(before, pairs)
    ensures pairs[..i + 1] == pairs[..i] + [pairs[i]] && (i > 0 ==> before(Last(pairs[..i]).key, pairs[i].key))
  {
  }

  /** What is put into a block is what iterating it gives back, for every restart interval. */
  method RoundTrip(before: Order, restartInterval: nat, pairs: seq<Pair>) returns (out: seq<Pair>)
    requires StrictOrder(before) && Ascending(before, pairs) && restartInterval >= 1 && SizeBound(pairs) < TWO_32
    ensures out == pairs
  {
    var builder := new BlockBuilder(before, restartInterval);
    hide BlockBuilder.Valid, StrictOrder, Ascending, Describes, OffsetsOf, Spaced, Compressed;
    for i := 0 to |pairs|
      invariant builder.Valid() && fresh(builder) && builder.before == before
      invariant builder.layout.entries == pairs[..i] && |builder.buffer| <= SizeBound(pairs[..i])
    {
      SizeGrows(pairs, i);
      OneMorePair(before, pairs, i);
      builder.Add(pairs[i].key, pairs[i].value);
    }
    assert pairs[..|pairs|] == pairs;
    ghost var data := builder.buffer;
    var contents := builder.Finish();
    var block := NewIterator(before, contents, builder.layout, data, builder.restarts);
    out := block.iter.ReadAll();
  }
}
