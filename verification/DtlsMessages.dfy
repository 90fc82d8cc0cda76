/**
 Handshake messages of DTLS, the fragments they travel in (section 4.2.2 of RFC 6347), and how fragments come together
 again (section 4.2.3): the receiver as a function over fragments, in whatever order and however often they arrive.
 */
module DtlsMessages {
  import opened Basics

  const HEADER_LENGTH := 12
  const FLIGHT := 7
  const U16 := 0x1_0000
  const U24 := 0x100_0000

  /** A message; its place in the sequence of messages is its number. */
  datatype Message = Message(kind: Byte, body: Slice)

  datatype Fragment = Fragment(kind: Byte, msgLen: nat, seqno: nat, off: nat, body: Slice)

  // ---------------------------------------------------------------------------------------------------------------
  // The wire format.

  function Encode16(v: nat): (s: Slice)
    requires v < U16
    ensures |s| == 2
  {
    [v / 0x100, v % 0x100]
  }

  function Encode24(v: nat): (s: Slice)
    requires v < U24
    ensures |s| == 3
  {
    [v / 0x1_0000, v / 0x100 % 0x100, v % 0x100]
  }

  function Decode16(s: Slice): (v: nat)
    requires |s| == 2
    ensures v < U16
  {
    (s[0] as int) * 0x100 + s[1]
  }

  function Decode24(s: Slice): (v: nat)
    requires |s| == 3
    ensures v < U24
  {
    (s[0] as int) * 0x1_0000 + (s[1] as int) * 0x100 + s[2]
  }

  lemma Decode16Encode16(v: nat)
    requires v < U16
    ensures Decode16(Encode16(v)) == v
  {
  }

  lemma Decode24Encode24(v: nat)
    requires v < U24
    ensures Decode24(Encode24(v)) == v
  {
  }

  function Header(kind: Byte, msgLen: nat, seqno: nat, off: nat, len: nat): (h: Slice)
    requires msgLen < U24 && seqno < U16 && off < U24 && len < U24
    ensures |h| == HEADER_LENGTH
  {
    [kind] + Encode24(msgLen) + Encode16(seqno) + Encode24(off) + Encode24(len)
  }

  /** Type, length of the message, its number, offset and length of the fragment: high bytes first. */
  lemma HeaderBytes()
    ensures Header(1, 0x0203, 4, 0x0506, 0x07_0809) == [1, 0, 2, 3, 0, 4, 0, 5, 6, 7, 8, 9]
    ensures Header(20, 0x01_0000, 0x0100, 0, 0x10) == [20, 1, 0, 0, 1, 0, 0, 0, 0, 0, 0, 0x10]
  {
  }

  predicate Encodable(f: Fragment) {
    f.msgLen < U24 && f.seqno < U16 && f.off < U24 && |f.body| < U24
  }

  function EncodeFragment(f: Fragment): Slice
    requires Encodable(f)
  {
    Header(f.kind, f.msgLen, f.seqno, f.off, |f.body|) + f.body
  }

  /** A whole message as the sender keeps it: one fragment. */
  function Whole(m: Message, seqno: nat): Fragment {
    Fragment(m.kind, |m.body|, seqno, 0, m.body)
  }

  predicate Sendable(m: Message, seqno: nat) {
    |m.body| < U24 && seqno < U16
  }

  datatype Parsed = Parsed(fragment: Fragment, rest: Slice)

  /** `dtls1_parse_fragment`. */
  function ParseFragment(s: Slice): Option<Parsed> {
    if |s| < HEADER_LENGTH then None
    else
      var len := Decode24(s[9..12]);
      if |s| - HEADER_LENGTH < len then None
      else Some(Parsed(Fragment(s[0], Decode24(s[1..4]), Decode16(s[4..6]), Decode24(s[6..9]), s[12..12 + len]),
                       s[12 + len..]))
  }

  lemma ParseEncoded(f: Fragment, rest: Slice)
    requires Encodable(f)
    ensures ParseFragment(EncodeFragment(f) + rest) == Some(Parsed(f, rest))
  {
    var s := EncodeFragment(f) + rest;
    assert s[1..4] == Encode24(f.msgLen) && s[4..6] == Encode16(f.seqno);
    assert s[6..9] == Encode24(f.off) && s[9..12] == Encode24(|f.body|);
    Decode24Encode24(f.msgLen);
    Decode16Encode16(f.seqno);
    Decode24Encode24(f.off);
    Decode24Encode24(|f.body|);
    assert s[12..12 + |f.body|] == f.body && s[12 + |f.body|..] == rest;
  }

  // ---------------------------------------------------------------------------------------------------------------
  // Putting fragments together.

  /** A message of which some bytes have come in. */
  datatype Incoming = Incoming(kind: Byte, bytes: seq<Option<Byte>>)

  /** The messages from `readSeq` on of which something has come in. */
  datatype Window = Window(readSeq: nat, slots: map<nat, Incoming>)

  datatype Alert = DecodeError | IllegalParameter | UnexpectedMessage | InternalError

  datatype Taken = Taken(window: Window, alert: Option<Alert>)

  /**
   What a receiver is set to: the longest message it takes, and whether only the current message may come (epoch one).
   */
  datatype Limits = Limits(maxLen: nat, onlyCurrent: bool)

  predicate AllIn(bytes: seq<Option<Byte>>) {
    forall i :: 0 <= i < |bytes| ==> bytes[i].Some?
  }

  function Nothing(len: nat): seq<Option<Byte>> {
    seq(len, i => None)
  }

  function Overlay(bytes: seq<Option<Byte>>, off: nat, body: Slice): (r: seq<Option<Byte>>)
    requires off + |body| <= |bytes|
    ensures |r| == |bytes|
  {
    seq(|bytes|, i requires 0 <= i < |bytes| => if off <= i < off + |body| then Some(body[i - off]) else bytes[i])
  }

  predicate Misfit(f: Fragment, limits: Limits) {
    f.off + |f.body| > f.msgLen || f.msgLen > limits.maxLen
  }

  /** The part of a message that is there before fragment `f`. */
  function SlotFor(w: Window, f: Fragment): Incoming {
    if f.seqno in w.slots then w.slots[f.seqno] else Incoming(f.kind, Nothing(f.msgLen))
  }

  function TakeIntoSlot(w: Window, f: Fragment): Taken
    requires f.off + |f.body| <= f.msgLen
  {
    var slot := SlotFor(w, f);
    if f.seqno - w.readSeq >= FLIGHT then Taken(w, Some(InternalError))
    else if slot.kind != f.kind || |slot.bytes| != f.msgLen then Taken(w, Some(IllegalParameter))
    else
      var bytes := if AllIn(slot.bytes) then slot.bytes else Overlay(slot.bytes, f.off, f.body);
      Taken(w.(slots := w.slots[f.seqno := slot.(bytes := bytes)]), None)
  }

  /**
   One fragment, in the branches of `dtls1_open_handshake` and `dtls1_get_incoming_message`: one from the past or more
   than `FLIGHT` ahead is ignored, but one that is exactly `FLIGHT` ahead is an error.
   */
  function Take(w: Window, f: Fragment, limits: Limits): Taken {
    if Misfit(f, limits) then Taken(w, Some(IllegalParameter))
    else if limits.onlyCurrent && f.seqno != w.readSeq then Taken(w, Some(UnexpectedMessage))
    else if f.seqno < w.readSeq || f.seqno > w.readSeq + FLIGHT then Taken(w, None)
    else TakeIntoSlot(w, f)
  }

  /** The fragments of a record one after the other, up to the first error. */
  function Open(w: Window, record: Slice, limits: Limits): Taken
    decreases |record|
  {
    if record == [] then Taken(w, None)
    else match ParseFragment(record) {
      case None => Taken(w, Some(DecodeError))
      case Some(p) =>
        var t := Take(w, p.fragment, limits);
        if t.alert.Some? then t else Open(t.window, p.rest, limits)
    }
  }

  function TakeAll(w: Window, fs: seq<Fragment>, limits: Limits): Taken
    decreases |fs|
  {
    if fs == [] then Taken(w, None)
    else
      var t := Take(w, fs[0], limits);
      if t.alert.Some? then t else TakeAll(t.window, fs[1..], limits)
  }

  function Encoded(fs: seq<Fragment>): Slice
    requires forall i :: 0 <= i < |fs| ==> Encodable(fs[i])
  {
    if fs == [] then [] else EncodeFragment(fs[0]) + Encoded(fs[1..])
  }

  /** What a sender puts into a record is what the receiver takes out of it. */
  lemma {:induction false} OpenEncoded(w: Window, fs: seq<Fragment>, limits: Limits)
    requires forall i :: 0 <= i < |fs| ==> Encodable(fs[i])
    ensures Open(w, Encoded(fs), limits) == TakeAll(w, fs, limits)
    decreases |fs|
  {
    if fs != [] {
      ParseEncoded(fs[0], Encoded(fs[1..]));
      var t := Take(w, fs[0], limits);
      if t.alert.None? { OpenEncoded(t.window, fs[1..], limits); }
    }
  }

  predicate CanConsume(w: Window) {
    w.readSeq in w.slots && AllIn(w.slots[w.readSeq].bytes)
  }

  /** `dtls1_next_message`. */
  function Consume(w: Window): Window
    requires CanConsume(w)
  {
    Window(w.readSeq + 1, w.slots - {w.readSeq})
  }

  // ---------------------------------------------------------------------------------------------------------------
  // What the window holds.

  ghost predicate InWindow(w: Window) {
    forall q :: q in w.slots ==> w.readSeq <= q < w.readSeq + FLIGHT
  }

  /** Different messages of a window go to different slots of the array. */
  lemma SlotsApart(w: Window, p: nat, q: nat)
    requires InWindow(w) && p in w.slots && q in w.slots && p % FLIGHT == q % FLIGHT
    ensures p == q
  {
  }

  predicate Covers(f: Fragment, q: nat, i: nat) {
    f.seqno == q && f.off <= i < f.off + |f.body|
  }

  predicate Arrived(w: Window, q: nat, i: nat) {
    q in w.slots && i < |w.slots[q].bytes| && w.slots[q].bytes[i].Some?
  }

  /** Whether the receiver has a slot for the message of `f`, and lets `f` into it. */
  predicate Accepts(w: Window, f: Fragment, limits: Limits) {
    Take(w, f, limits).alert.None? && w.readSeq <= f.seqno < w.readSeq + FLIGHT
  }

  /** Exactly the bytes of accepted fragments come in. */
  lemma TakesExactly(w: Window, f: Fragment, limits: Limits, q: nat, i: nat)
    requires InWindow(w)
    ensures InWindow(Take(w, f, limits).window) && Take(w, f, limits).window.readSeq == w.readSeq
    ensures Arrived(Take(w, f, limits).window, q, i) <==> Arrived(w, q, i) || (Accepts(w, f, limits) && Covers(f, q, i))
    ensures q in Take(w, f, limits).window.slots <==> q in w.slots || (Accepts(w, f, limits) && f.seqno == q)
  {
  }

  /** What is refused leaves no trace: a fragment outside its message, and one of too long a message. */
  lemma MisfitsAreRefused(w: Window, f: Fragment, limits: Limits)
    ensures Take(w, f, limits).alert.Some? ==> Take(w, f, limits).window == w
    ensures f.off + |f.body| > f.msgLen || f.msgLen > limits.maxLen ==>
              Take(w, f, limits).alert == Some(IllegalParameter)
    ensures limits.onlyCurrent && f.seqno != w.readSeq ==> Take(w, f, limits).alert.Some?
  {
  }

  /** Of fragments that give one message two types or two lengths the second is refused, whatever comes in between. */
  lemma ContradictionIsRefused(w: Window, f: Fragment, es: seq<Event>, g: Fragment, limits: Limits)
    requires InWindow(w) && Accepts(w, f, limits) && f.seqno == g.seqno && (f.kind != g.kind || f.msgLen != g.msgLen)
    requires forall k :: 0 <= k < |es| ==> es[k].Deliver?
    ensures Take(After(Take(w, f, limits).window, es, limits), g, limits).alert == Some(IllegalParameter)
  {
    SlotStays(Take(w, f, limits).window, es, limits, f.seqno);
  }

  /** Type and length of a message that has begun do not change any more. */
  lemma {:induction false} SlotStays(w: Window, es: seq<Event>, limits: Limits, q: nat)
    requires InWindow(w) && q in w.slots && forall k :: 0 <= k < |es| ==> es[k].Deliver?
    ensures var w' := After(w, es, limits);
            InWindow(w') && w'.readSeq == w.readSeq && q in w'.slots &&
            w'.slots[q].kind == w.slots[q].kind && |w'.slots[q].bytes| == |w.slots[q].bytes|
    decreases |es|
  {
    if es != [] { SlotStays(w, es[..|es| - 1], limits, q); }
  }

  // ---------------------------------------------------------------------------------------------------------------
  // Fragments of given messages.

  /** A fragment as an honest sender cuts it. */
  predicate Genuine(f: Fragment, msgs: seq<Message>) {
    && f.seqno < |msgs| && f.kind == msgs[f.seqno].kind && f.msgLen == |msgs[f.seqno].body|
    && f.off + |f.body| <= f.msgLen && f.body == msgs[f.seqno].body[f.off..f.off + |f.body|]
  }

  /** Whatever bytes are there are those of the message. */
  predicate Agrees(slot: Incoming, m: Message) {
    && slot.kind == m.kind && |slot.bytes| == |m.body|
    && forall i :: 0 <= i < |slot.bytes| && slot.bytes[i].Some? ==> slot.bytes[i].value == m.body[i]
  }

  ghost predicate Honest(w: Window, msgs: seq<Message>) {
    InWindow(w) && forall q :: q in w.slots ==> q < |msgs| && Agrees(w.slots[q], msgs[q])
  }

  /** Genuine fragments keep the window right, and the only one that fails is the one just beyond the window. */
  lemma TakesGenuine(w: Window, f: Fragment, limits: Limits, msgs: seq<Message>)
    requires Honest(w, msgs) && Genuine(f, msgs) && f.msgLen <= limits.maxLen
    ensures Honest(Take(w, f, limits).window, msgs)
    ensures Take(w, f, limits).alert.Some? <==>
      if limits.onlyCurrent then f.seqno != w.readSeq else f.seqno == w.readSeq + FLIGHT
  {
  }

  /** An empty message seven ahead of the current one is refused, one eight ahead or from the past is ignored. */
  lemma OneFlightAheadIsRefused(w: Window, limits: Limits)
    requires !limits.onlyCurrent
    ensures Take(w, Fragment(1, 0, w.readSeq + FLIGHT, 0, []), limits) == Taken(w, Some(InternalError))
    ensures Take(w, Fragment(1, 0, w.readSeq + FLIGHT + 1, 0, []), limits) == Taken(w, None)
    ensures w.readSeq > 0 ==> Take(w, Fragment(1, 0, w.readSeq - 1, 0, []), limits) == Taken(w, None)
  {
  }

  lemma ConsumeStaysHonest(w: Window, msgs: seq<Message>)
    requires Honest(w, msgs) && CanConsume(w)
    ensures Honest(Consume(w), msgs)
  {
  }

  /** What happens to a receiver: a fragment comes in, or the current message is done with. */
  datatype Event = Deliver(fragment: Fragment) | NextMessage

  function Step(w: Window, e: Event, limits: Limits): Window {
    match e
    case Deliver(f) => Take(w, f, limits).window
    case NextMessage => if CanConsume(w) then Consume(w) else w
  }

  function After(w: Window, es: seq<Event>, limits: Limits): Window {
    if es == [] then w else Step(After(w, es[..|es| - 1], limits), es[|es| - 1], limits)
  }

  ghost predicate AllGenuine(es: seq<Event>, msgs: seq<Message>) {
    forall k :: 0 <= k < |es| && es[k].Deliver? ==> Genuine(es[k].fragment, msgs)
  }

  ghost predicate Fit(msgs: seq<Message>, limits: Limits) {
    forall k :: 0 <= k < |msgs| ==> |msgs[k].body| <= limits.maxLen
  }

  lemma {:induction false} StaysHonest(w: Window, es: seq<Event>, limits: Limits, msgs: seq<Message>)
    requires Honest(w, msgs) && AllGenuine(es, msgs) && Fit(msgs, limits)
    ensures Honest(After(w, es, limits), msgs) && w.readSeq <= After(w, es, limits).readSeq
    decreases |es|
  {
    if es != [] {
      var n := |es| - 1;
      StaysHonest(w, es[..n], limits, msgs);
      var v := After(w, es[..n], limits);
      match es[n]
      case Deliver(f) => TakesGenuine(v, f, limits, msgs);
      case NextMessage => if CanConsume(v) { ConsumeStaysHonest(v, msgs); }
    }
  }

  /** The message a full slot holds. */
  function Assembled(slot: Incoming): Message
    requires AllIn(slot.bytes)
  {
    Message(slot.kind, seq(|slot.bytes|, i requires 0 <= i < |slot.bytes| => slot.bytes[i].value))
  }

  lemma FullIsTheMessage(slot: Incoming, m: Message)
    requires Agrees(slot, m) && AllIn(slot.bytes)
    ensures Assembled(slot) == m
  {
    assert Assembled(slot).body == m.body;
  }

  // ---------------------------------------------------------------------------------------------------------------
  // Cutting, and undoing it.

  /** `fs` are the consecutive cuts of a message up to `upto`; an empty message is one empty cut. */
  ghost predicate Cuts(fs: seq<Fragment>, msgs: seq<Message>, q: nat, upto: nat) {
    if fs == [] then upto == 0
    else
      var f := fs[|fs| - 1];
      && Genuine(f, msgs) && f.seqno == q && f.off + |f.body| == upto
      && (|f.body| > 0 || |msgs[q].body| == 0)
      && Cuts(fs[..|fs| - 1], msgs, q, f.off)
  }

  lemma {:induction false} CutsCover(fs: seq<Fragment>, msgs: seq<Message>, q: nat, upto: nat, i: nat)
    requires Cuts(fs, msgs, q, upto) && i < upto
    ensures exists k :: 0 <= k < |fs| && Covers(fs[k], q, i)
    decreases |fs|
  {
    var n := |fs| - 1;
    if i < fs[n].off {
      CutsCover(fs[..n], msgs, q, fs[n].off, i);
      var k :| 0 <= k < n && Covers(fs[..n][k], q, i);
      assert Covers(fs[k], q, i);
    } else {
      assert Covers(fs[n], q, i);
    }
  }

  /** A byte once delivered stays, until its message is done with. */
  lemma {:induction false} DeliveredStays(w: Window, es: seq<Event>, limits: Limits, msgs: seq<Message>, q: nat, k: nat,
                                          i: nat)
    requires Honest(w, msgs) && AllGenuine(es, msgs) && Fit(msgs, limits)
    requires w.readSeq <= q < w.readSeq + FLIGHT && After(w, es, limits).readSeq <= q
    requires limits.onlyCurrent ==> q == w.readSeq
    requires k < |es| && es[k].Deliver? && es[k].fragment.seqno == q
    ensures q in After(w, es, limits).slots
    ensures Covers(es[k].fragment, q, i) ==> Arrived(After(w, es, limits), q, i)
    decreases |es|
  {
    var n := |es| - 1;
    var v := After(w, es[..n], limits);
    StaysHonest(w, es[..n], limits, msgs);
    hide After, Honest, Agrees, AllIn;
    assert InWindow(v) by { HonestInWindow(v, msgs); }
    LastStep(v, es[n], limits, q, i);
    assert After(w, es, limits) == Step(v, es[n], limits) by { AfterLast(w, es, limits); }
    if k == n {
      TakesGenuine(v, es[n].fragment, limits, msgs);
      TakesExactly(v, es[n].fragment, limits, q, i);
    } else {
      DeliveredStays(w, es[..n], limits, msgs, q, k, i);
    }
  }

  lemma HonestInWindow(w: Window, msgs: seq<Message>)
    requires Honest(w, msgs)
    ensures InWindow(w)
  {
  }

  lemma AfterLast(w: Window, es: seq<Event>, limits: Limits)
    requires es != []
    ensures After(w, es, limits) == Step(After(w, es[..|es| - 1], limits), es[|es| - 1], limits)
  {
  }

  lemma LastStep(v: Window, e: Event, limits: Limits, q: nat, i: nat)
    requires InWindow(v) && Step(v, e, limits).readSeq <= q
    ensures v.readSeq <= Step(v, e, limits).readSeq
    ensures Arrived(v, q, i) ==> Arrived(Step(v, e, limits), q, i)
    ensures q in v.slots ==> q in Step(v, e, limits).slots
  {
    if e.Deliver? { TakesExactly(v, e.fragment, limits, q, i); }
  }

  predicate Delivered(es: seq<Event>, f: Fragment) {
    Deliver(f) in es
  }

  /**
   Reassembly undoes fragmentation: once every cut of message `q` is among the genuine fragments that came in, in any
   order, with any duplicates, amid fragments of other messages and while earlier messages are done with, the slot is
   full and holds the message.
   */
  lemma ReassemblyUndoesCutting(w: Window, cuts: seq<Fragment>, es: seq<Event>, limits: Limits, msgs: seq<Message>,
                                q: nat)
    requires Honest(w, msgs) && AllGenuine(es, msgs) && Fit(msgs, limits)
    requires w.readSeq <= q < w.readSeq + FLIGHT && q < |msgs| && After(w, es, limits).readSeq <= q
    requires limits.onlyCurrent ==> q == w.readSeq
    requires Cuts(cuts, msgs, q, |msgs[q].body|) && cuts != [] && forall f :: f in cuts ==> Delivered(es, f)
    ensures q in After(w, es, limits).slots
    ensures AllIn(After(w, es, limits).slots[q].bytes)
    ensures Assembled(After(w, es, limits).slots[q]) == msgs[q]
  {
    var after := After(w, es, limits);
    StaysHonest(w, es, limits, msgs);
    hide After, AllGenuine, Genuine;
    var last := cuts[|cuts| - 1];
    assert Delivered(es, last);
    var j :| 0 <= j < |es| && es[j] == Deliver(last);
    DeliveredStays(w, es, limits, msgs, q, j, 0);
    forall i: nat | i < |msgs[q].body| ensures Arrived(after, q, i) {
      CutsCover(cuts, msgs, q, |msgs[q].body|, i);
      var k :| 0 <= k < |cuts| && Covers(cuts[k], q, i);
      assert Delivered(es, cuts[k]);
      var m :| 0 <= m < |es| && es[m] == Deliver(cuts[k]);
      DeliveredStays(w, es, limits, msgs, q, m, i);
    }
    forall i | 0 <= i < |after.slots[q].bytes| ensures after.slots[q].bytes[i].Some? { assert Arrived(after, q, i); }
    FullIsTheMessage(after.slots[q], msgs[q]);
  }

  /** And a slot is never full before its bytes have all come in. */
  lemma {:induction false} FullMeansDelivered(w: Window, es: seq<Event>, limits: Limits, q: nat, i: nat)
    requires InWindow(w) && Arrived(After(w, es, limits), q, i)
    ensures Arrived(w, q, i) || exists k :: 0 <= k < |es| && es[k].Deliver? && Covers(es[k].fragment, q, i)
    decreases |es|
  {
    if es != [] {
      var n := |es| - 1;
      var v := After(w, es[..n], limits);
      InWindowAfter(w, es[..n], limits);
      if es[n].Deliver? { TakesExactly(v, es[n].fragment, limits, q, i); }
      hide Take, InWindow;
      if Arrived(v, q, i) {
        FullMeansDelivered(w, es[..n], limits, q, i);
        if !Arrived(w, q, i) {
          var k :| 0 <= k < n && es[..n][k].Deliver? && Covers(es[..n][k].fragment, q, i);
          assert Covers(es[k].fragment, q, i);
        }
      } else {
        assert Covers(es[n].fragment, q, i);
      }
    }
  }

  lemma {:induction false} InWindowAfter(w: Window, es: seq<Event>, limits: Limits)
    requires InWindow(w)
    ensures InWindow(After(w, es, limits))
    decreases |es|
  {
    if es != [] { InWindowAfter(w, es[..|es| - 1], limits); }
  }
}
