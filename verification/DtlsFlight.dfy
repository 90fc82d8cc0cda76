/**
 A flight of handshake messages from one end to the other: what the sender puts into records, the network delivers in
 any order and any number of times, and the receiver reads as the sender's messages, one after the other.
 */
module DtlsFlight {
  import opened Basics
  import opened DtlsMessages
  import opened DtlsSender
  import opened DtlsReceiver

  /** The network loses no record for good and makes up none. */
  ghost predicate Delivers(arrivals: seq<Content>, records: seq<Content>) {
    forall c :: c in arrivals <==> c in records
  }

  /** The record carries one cut of a message that the receiver has not read yet. */
  ghost predicate CarriesCut(c: Content, msgs: seq<Message>, readSeq: nat) {
    c.HandshakeContent? ==>
      exists f :: Encodable(f) && Genuine(f, msgs) && readSeq <= f.seqno && c.plaintext == EncodeFragment(f)
  }

  /** All messages still to be read fit the window; once only the current one may come, there is but one. */
  ghost predicate WithinReach(readSeq: nat, msgs: seq<Message>, limits: Limits) {
    Fit(msgs, limits) && |msgs| <= readSeq + (if limits.onlyCurrent then 1 else FLIGHT)
  }

  function FragmentIn(plaintext: Slice): Fragment {
    match ParseFragment(plaintext)
    case None => Fragment(0, 0, 0, 0, [])
    case Some(p) => p.fragment
  }

  function EventsOf(arrivals: seq<Content>): seq<Event> {
    if arrivals == [] then [] else
      var c := arrivals[|arrivals| - 1];
      EventsOf(arrivals[..|arrivals| - 1]) + if c.HandshakeContent? then [Deliver(FragmentIn(c.plaintext))] else []
  }

  lemma FragmentComesBack(f: Fragment)
    requires Encodable(f)
    ensures FragmentIn(EncodeFragment(f)) == f
  {
    ParseEncoded(f, []);
    assert EncodeFragment(f) + [] == EncodeFragment(f);
  }

  /** A record of the flight opens without an alert, as the one fragment that it carries. */
  lemma OneRecord(w: Window, c: Content, limits: Limits, msgs: seq<Message>)
    requires Honest(w, msgs) && WithinReach(w.readSeq, msgs, limits)
    requires c.HandshakeContent? && CarriesCut(c, msgs, w.readSeq)
    ensures Genuine(FragmentIn(c.plaintext), msgs)
    ensures Open(w, c.plaintext, limits) == Taken(Step(w, Deliver(FragmentIn(c.plaintext)), limits), None)
    ensures Honest(Step(w, Deliver(FragmentIn(c.plaintext)), limits), msgs)
    ensures Step(w, Deliver(FragmentIn(c.plaintext)), limits).readSeq == w.readSeq
  {
    var f :| Encodable(f) && Genuine(f, msgs) && w.readSeq <= f.seqno && c.plaintext == EncodeFragment(f);
    FragmentComesBack(f);
    OpenEncoded(w, [f], limits);
    assert Encoded([f]) == EncodeFragment(f) + [];
    assert Encoded([f]) == c.plaintext;
    TakesGenuine(w, f, limits, msgs);
    TakesExactly(w, f, limits, 0, 0);
    hide Honest, Take;
    assert TakeAll(Take(w, f, limits).window, [], limits) == Taken(Take(w, f, limits).window, None);
  }

  lemma {:induction false} EventsGenuine(arrivals: seq<Content>, msgs: seq<Message>, readSeq: nat)
    requires forall c :: c in arrivals ==> CarriesCut(c, msgs, readSeq)
    ensures AllGenuine(EventsOf(arrivals), msgs)
    ensures forall f :: Encodable(f) && HandshakeContent(EncodeFragment(f)) in arrivals ==>
              Delivered(EventsOf(arrivals), f)
  {
    if arrivals != [] {
      var n := |arrivals| - 1;
      EventsGenuine(arrivals[..n], msgs, readSeq);
      var c := arrivals[n];
      assert c in arrivals && CarriesCut(c, msgs, readSeq);
      if c.HandshakeContent? {
        var f :| Encodable(f) && Genuine(f, msgs) && readSeq <= f.seqno && c.plaintext == EncodeFragment(f);
        FragmentComesBack(f);
      }
      forall f | Encodable(f) && HandshakeContent(EncodeFragment(f)) in arrivals
        ensures Delivered(EventsOf(arrivals), f)
      {
        FragmentComesBack(f);
        assert HandshakeContent(EncodeFragment(f)) in arrivals[..n] || HandshakeContent(EncodeFragment(f)) == c;
      }
    }
  }

  /** All that arrives is opened, record by record. */
  method OpenAll(receiver: Receiver, arrivals: seq<Content>, ghost msgs: seq<Message>) returns (alert: Option<Alert>)
    requires receiver.Valid() && Honest(receiver.window, msgs) && WithinReach(receiver.readSeq, msgs, receiver.limits)
    requires forall c :: c in arrivals ==> CarriesCut(c, msgs, receiver.readSeq)
    modifies receiver, receiver.slots, receiver.footprint
    ensures receiver.Valid() && fresh(receiver.footprint - old(receiver.footprint))
    ensures alert.None? && receiver.readSeq == old(receiver.readSeq)
    ensures receiver.window == After(old(receiver.window), EventsOf(arrivals), receiver.limits)
  {
    hide CarriesCut, Honest, Take, Open;
    alert := None;
    assert After(receiver.window, EventsOf([]), receiver.limits) == receiver.window;
    for i := 0 to |arrivals|
      invariant receiver.Valid() && fresh(receiver.footprint - old(receiver.footprint))
      invariant alert.None? && receiver.readSeq == old(receiver.readSeq) && Honest(receiver.window, msgs)
      invariant receiver.window == After(old(receiver.window), EventsOf(arrivals[..i]), receiver.limits)
    {
      var c := arrivals[i];
      EventsSnoc(old(receiver.window), arrivals, i, receiver.limits);
      if c.HandshakeContent? {
        OneRecord(receiver.window, c, receiver.limits, msgs);
        alert := receiver.OpenHandshake(c.plaintext);
      }
    }
    assert arrivals[..|arrivals|] == arrivals;
  }

  lemma EventsSnoc(w: Window, arrivals: seq<Content>, i: nat, limits: Limits)
    requires i < |arrivals|
    ensures After(w, EventsOf(arrivals[..i + 1]), limits) ==
            if arrivals[i].HandshakeContent?
            then Step(After(w, EventsOf(arrivals[..i]), limits), Deliver(FragmentIn(arrivals[i].plaintext)), limits)
            else After(w, EventsOf(arrivals[..i]), limits)
  {
    assert arrivals[..i + 1][..i] == arrivals[..i];
    var es := EventsOf(arrivals[..i]);
    if arrivals[i].HandshakeContent? {
      var e := Deliver(FragmentIn(arrivals[i].plaintext));
      assert EventsOf(arrivals[..i + 1]) == es + [e] && (es + [e])[..|es|] == es;
      AfterLast(w, es + [e], limits);
    } else {
      assert EventsOf(arrivals[..i + 1]) == es + [] == es;
    }
  }

  /** Message `q` is all there, as it was sent. */
  ghost predicate Ready(w: Window, msgs: seq<Message>, q: nat) {
    q < |msgs| && q in w.slots && AllIn(w.slots[q].bytes) && Assembled(w.slots[q]) == msgs[q]
  }

  ghost predicate AllReady(w: Window, msgs: seq<Message>) {
    forall q: nat :: w.readSeq <= q < |msgs| ==> Ready(w, msgs, q)
  }

  lemma NextIsReady(w: Window, msgs: seq<Message>)
    requires Honest(w, msgs) && AllReady(w, msgs) && CanConsume(w)
    ensures w.readSeq < |msgs| && Assembled(w.slots[w.readSeq]) == msgs[w.readSeq]
    ensures Honest(Consume(w), msgs) && AllReady(Consume(w), msgs)
  {
    ConsumeStaysHonest(w, msgs);
    assert Ready(w, msgs, w.readSeq);
    forall q: nat | w.readSeq < q < |msgs| ensures Ready(Consume(w), msgs, q) {
      assert Ready(w, msgs, q);
    }
  }

  lemma NothingLeft(w: Window, msgs: seq<Message>)
    requires AllReady(w, msgs) && w.readSeq <= |msgs| && !CanConsume(w)
    ensures w.readSeq == |msgs|
  {
    assert w.readSeq < |msgs| ==> Ready(w, msgs, w.readSeq);
  }

  /** `dtls1_get_message` and `dtls1_next_message`, until nothing complete comes next. */
  method ReadFlight(receiver: Receiver, ghost msgs: seq<Message>) returns (received: seq<Message>)
    requires receiver.Valid() && receiver.readSeq <= |msgs| && Honest(receiver.window, msgs)
    requires AllReady(receiver.window, msgs)
    modifies receiver, receiver.slots
    ensures receiver.Valid() && receiver.readSeq == |msgs|
    ensures received == msgs[old(receiver.readSeq)..]
  {
    received := [];
    hide Honest, AllReady, Assembled, AllIn, InWindow;
    ghost var start := receiver.readSeq;
    var found, kind, body, raw := receiver.GetMessage();
    while found
      invariant receiver.Valid() && start <= receiver.readSeq <= |msgs| && receiver.footprint == old(receiver.footprint)
      invariant Honest(receiver.window, msgs) && AllReady(receiver.window, msgs)
      invariant received == msgs[start..receiver.readSeq] && found == CanConsume(receiver.window)
      invariant found ==>
                  receiver.hasMessage && Message(kind, body) == Assembled(receiver.window.slots[receiver.readSeq])
      decreases |msgs| - receiver.readSeq, found
    {
      NextIsReady(receiver.window, msgs);
      received := received + [Message(kind, body)];
      receiver.Next();
      found, kind, body, raw := receiver.GetMessage();
    }
    NothingLeft(receiver.window, msgs);
  }

  lemma RecordsCarryCuts(sender: Sender, records: seq<Content>)
    requires sender.FlightOk() && sender.OnlyFlight(records)
    ensures forall c :: c in records ==> CarriesCut(c, sender.transcript, sender.flightStart)
  {
    forall c | c in records ensures CarriesCut(c, sender.transcript, sender.flightStart) {
      assert sender.CarriesFlight(c);
      if c.HandshakeContent? {
        var f :| sender.OfFlight(f) && c.plaintext == EncodeFragment(f);
        assert sender.InFlight(f.seqno);
      }
    }
  }

  /** Once all records of the flight are in, in any order, every message of the flight is there. */
  lemma FlightIsReady(sender: Sender, records: seq<Content>, arrivals: seq<Content>, w: Window, limits: Limits, q: nat)
    requires sender.FlightOk() && sender.flightStart == w.readSeq && sender.OnlyFlight(records)
    requires sender.WholeFlightIn(records)
    requires Delivers(arrivals, records)
    requires Honest(w, sender.transcript) && WithinReach(w.readSeq, sender.transcript, limits)
    requires After(w, EventsOf(arrivals), limits).readSeq == w.readSeq && w.readSeq <= q < |sender.transcript|
    ensures Ready(After(w, EventsOf(arrivals), limits), sender.transcript, q)
  {
    var msgs := sender.transcript;
    RecordsCarryCuts(sender, records);
    EventsGenuine(arrivals, msgs, w.readSeq);
    assert sender.InFlight(q);
    var k: nat :| k < |sender.messages| && sender.messages[k].Handshake? && sender.numbers[k] == q;
    var cuts := sender.cuts[k];
    hide EventsOf, After, EncodeFragment, Honest, Cuts, CarriesCut, AllGenuine;
    forall f | f in cuts ensures Delivered(EventsOf(arrivals), f) {
      assert Encodable(f) && Carried(f, records);
    }
    ReassemblyUndoesCutting(w, cuts, EventsOf(arrivals), limits, msgs, q);
  }

  /**
   The main result: a flight is sent for the first time or again, in packets of any size, and its records arrive in any
   order and any number of times, but each at least once. Then no alert is raised, and the receiver reads exactly the
   messages of the sender from the first it had not read, in the order in which they were added.
   */
  method Exchange(sender: Sender, receiver: Receiver, again: bool, mtu: nat, takes: nat -> bool,
                  network: seq<Content> -> seq<Content>)
      returns (r: FlightResult, alert: Option<Alert>, received: seq<Message>)
    requires sender.Valid() && receiver.Valid() && sender !in receiver.footprint
    requires again || sender.written == sender.offset == 0
    requires sender.flightStart == receiver.readSeq && forall records :: Delivers(network(records), records)
    requires Honest(receiver.window, sender.transcript)
    requires WithinReach(receiver.readSeq, sender.transcript, receiver.limits)
    modifies sender, receiver, receiver.slots, receiver.footprint
    ensures sender.transcript == old(sender.transcript) && sender.Valid() && receiver.Valid() && alert.None?
    ensures sender.CanSend(mtu) && Takes(takes) ==> r.Sent?
    ensures r.Sent? ==> received == sender.transcript[old(receiver.readSeq)..]
    ensures r.Sent? ==> receiver.readSeq == |sender.transcript|
  {
    alert, received := None, [];
    hide Honest, WithinReach, Sender.Valid, Sender.WholeFlightIn, Sender.OnlyFlight, Sender.CanSend;
    var packets;
    if again {
      r, packets := sender.RetransmitFlight(mtu, takes);
    } else {
      r, packets := sender.FlushFlight(mtu, takes);
    }
    if !r.Sent? {
      return;
    }
    var records := Flat(packets);
    var arrivals := network(records);
    assert Delivers(arrivals, records);
    assert sender.FlightOk() by { FlightIsOk(sender); }
    hide Delivers, Receiver.Valid, Sender.FlightOk;
    alert := Arrive(sender, receiver, records, arrivals);
    received := ReadFlight(receiver, sender.transcript);
  }

  /** Opening all of the flight makes all its messages ready. */
  method Arrive(ghost sender: Sender, receiver: Receiver, ghost records: seq<Content>, arrivals: seq<Content>)
      returns (alert: Option<Alert>)
    requires receiver.Valid() && sender !in receiver.footprint && sender.FlightOk()
    requires sender.flightStart == receiver.readSeq
    requires sender.OnlyFlight(records) && sender.WholeFlightIn(records) && Delivers(arrivals, records)
    requires Honest(receiver.window, sender.transcript)
    requires WithinReach(receiver.readSeq, sender.transcript, receiver.limits)
    modifies receiver, receiver.slots, receiver.footprint
    ensures receiver.Valid() && alert.None? && receiver.readSeq == old(receiver.readSeq)
    ensures fresh(receiver.footprint - old(receiver.footprint)) && Honest(receiver.window, sender.transcript)
    ensures AllReady(receiver.window, sender.transcript)
  {
    ghost var msgs, w := sender.transcript, receiver.window;
    RecordsCarryCuts(sender, records);
    EventsGenuine(arrivals, msgs, receiver.readSeq);
    hide Honest, WithinReach, CarriesCut, EventsOf, AllGenuine, Ready, Sender.WholeFlightIn, Sender.OnlyFlight;
    alert := OpenAll(receiver, arrivals, msgs);
    assert Fit(msgs, receiver.limits) by { ReachFits(receiver.readSeq, msgs, receiver.limits); }
    StaysHonest(w, EventsOf(arrivals), receiver.limits, msgs);
    forall q: nat | receiver.readSeq <= q < |msgs| ensures Ready(receiver.window, msgs, q) {
      FlightIsReady(sender, records, arrivals, w, receiver.limits, q);
    }
  }

  lemma FlightIsOk(sender: Sender)
    requires sender.Valid()
    ensures sender.FlightOk() && sender.flightStart <= |sender.transcript|
  {
  }

  lemma ReachFits(readSeq: nat, msgs: seq<Message>, limits: Limits)
    requires WithinReach(readSeq, msgs, limits)
    ensures Fit(msgs, limits)
  {
  }
}
