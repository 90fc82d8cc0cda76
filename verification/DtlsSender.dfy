/**
 The sender of handshake messages: it cuts the messages of a flight into as many fragments as the packets make
 necessary, and takes up where it stopped when a packet was full. How much room the encryption of a record takes is a
 parameter, and so is whether the network takes a packet.
 */
module DtlsSender {
  import opened Basics
  import opened DtlsMessages

  datatype Outgoing = ChangeCipherSpec(epoch: nat) | Handshake(epoch: nat, data: Slice)

  /** What goes into a record before it is encrypted. */
  datatype Content = ChangeCipherSpecContent | HandshakeContent(plaintext: Slice)

  /** What is known of the encryption of an epoch; sealing yields a length, or fails. */
  datatype Cipher = Cipher(overhead: nat, prefix: nat, seal: nat -> Option<nat>)

  ghost predicate CipherOk(c: Cipher) {
    forall n: nat :: c.seal(n).Some? ==> c.seal(n).value <= n + c.overhead
  }

  datatype SealResult =
    | SealError
    | NoProgress
    | Partial(len: nat, content: Content)
    | Success(len: nat, content: Content)

  /** The network takes every packet. */
  ghost predicate Takes(takes: nat -> bool) {
    forall n: nat :: takes(n)
  }

  datatype FlightResult = Sent | Blocked | FlightError

  predicate Carried(f: Fragment, records: seq<Content>)
    requires Encodable(f)
  {
    HandshakeContent(EncodeFragment(f)) in records
  }

  /** Every new cut is in one of the records. */
  ghost predicate NewCutsIn(before: seq<seq<Fragment>>, after: seq<seq<Fragment>>, records: seq<Content>) {
    |after| == |before| &&
    forall k: nat, f :: k < |after| && f in after[k] ==> f in before[k] || (Encodable(f) && Carried(f, records))
  }

  lemma CarriedTogether(a: seq<seq<Fragment>>, b: seq<seq<Fragment>>, c: seq<seq<Fragment>>, r: seq<Content>,
                        s: seq<Content>)
    requires NewCutsIn(a, b, r) && NewCutsIn(b, c, s)
    ensures NewCutsIn(a, c, r + s)
  {
  }

  function Min(a: nat, b: nat): nat { if a < b then a else b }

  function SealCcs(c: Cipher, maxOut: nat): SealResult {
    if maxOut < 1 + c.overhead then NoProgress
    else match c.seal(1) { case None => SealError case Some(n) => Success(n, ChangeCipherSpecContent) }
  }

  /**
   With `left` bytes of the message still to go: as many go out as there is room for, all of them if the message is
   done.
   */
  predicate FragmentOutcome(r: SealResult, c: Cipher, maxOut: nat, left: int, sent: nat) {
    if maxOut < HEADER_LENGTH + 1 + c.overhead || maxOut < c.prefix then r.NoProgress?
    else
      var todo := Min(if left < 0 then 0 else left, maxOut - HEADER_LENGTH - c.overhead);
      if HEADER_LENGTH + todo > maxOut - c.prefix || c.seal(HEADER_LENGTH + todo).None? then r.SealError?
      else sent == todo && (if todo == left then r.Success? else r.Partial?)
  }

  class Sender {
    var messages: seq<Outgoing>
    var messagesComplete: bool
    var written: nat
    var offset: nat
    var writeSeq: nat
    var writeEpoch: nat
    const cipher: nat -> Cipher

    /**
     All handshake messages ever added, and the first of the flight among them; the numbers of those in the flight; and
     how each has been cut so far.
     */
    ghost var transcript: seq<Message>
    ghost var flightStart: nat
    ghost var numbers: seq<nat>
    ghost var cuts: seq<seq<Fragment>>

    ghost predicate MessageOk(k: nat)
      requires k < |messages| && |numbers| == |messages|
      reads this`messages, this`numbers, this`transcript
    {
      messages[k].Handshake? ==>
        && numbers[k] < |transcript| && Sendable(transcript[numbers[k]], numbers[k])
        && messages[k].data == EncodeFragment(Whole(transcript[numbers[k]], numbers[k]))
    }

    ghost function BodyLength(k: nat): nat
      requires k < |messages| && |numbers| == |messages|
      reads this`messages, this`numbers, this`transcript
    {
      if messages[k].Handshake? && numbers[k] < |transcript| then |transcript[numbers[k]].body| else 0
    }

    /** Messages already written are cut to the end, the current one up to `offset`. */
    ghost predicate CutOk(k: nat)
      requires k < |messages| == |numbers| == |cuts|
      reads this`messages, this`numbers, this`transcript, this`cuts, this`written, this`offset
    {
      if messages[k].ChangeCipherSpec? || k > written then cuts[k] == []
      else if k < written then cuts[k] != [] && Cuts(cuts[k], transcript, numbers[k], BodyLength(k))
      else Cuts(cuts[k], transcript, numbers[k], offset) && (offset == 0 ==> cuts[k] == [])
    }

    ghost predicate InFlight(q: nat)
      reads this`messages, this`numbers
    {
      Numbered(messages, numbers, q)
    }

    /** The flight consists of the last messages added. */
    ghost predicate FlightOk()
      reads this`messages, this`numbers, this`transcript, this`flightStart
    {
      FlightIs(messages, numbers, flightStart, |transcript|)
    }

    ghost predicate Valid()
      reads this
    {
      && FlightOk()
      && |messages| == |numbers| == |cuts| <= FLIGHT && written <= |messages|
      && |transcript| == writeSeq
      && (forall k: nat :: k < |messages| ==> MessageOk(k))
      && (forall k: nat :: k < |messages| ==> CutOk(k))
      && (offset == 0 || (written < |messages| && offset < BodyLength(written)))
      && (forall e: nat :: CipherOk(cipher(e)))
    }

    constructor (cipher: nat -> Cipher)
      requires forall e: nat :: CipherOk(cipher(e))
      ensures Valid() && messages == [] && writeSeq == 0 && transcript == []
    {
      messages, messagesComplete, written, offset, writeSeq, writeEpoch := [], false, 0, 0, 0, 0;
      transcript, numbers, cuts, flightStart := [], [], [], 0;
      this.cipher := cipher;
    }

    /** `dtls1_init_message` and `dtls1_finish_message`: the length is filled in last, and then copied to the front. */
    method BuildMessage(kind: Byte, body: Slice) returns (data: Option<Slice>)
      requires writeSeq < U16
      ensures data.Some? <==> |body| < U24
      ensures data.Some? ==> IsWhole(data.value, Message(kind, body), writeSeq)
    {
      if |body| >= U24 {
        return None;
      }
      var built := [kind] + Encode24(0) + Encode16(writeSeq) + Encode24(0) + Encode24(|body|) + body;
      built := built[..1] + built[HEADER_LENGTH - 3..HEADER_LENGTH] + built[4..];
      assert built == EncodeFragment(Whole(Message(kind, body), writeSeq));
      data := Some(built);
    }

    /** `dtls_clear_outgoing_messages`. */
    method ClearOutgoing()
      requires Valid()
      modifies this`messages, this`messagesComplete, this`written, this`offset, this`numbers, this`cuts,
               this`flightStart
      ensures Valid() && messages == [] && !messagesComplete && written == offset == 0 && flightStart == |transcript|
    {
      messages, messagesComplete, written, offset := [], false, 0, 0;
      numbers, cuts, flightStart := [], [], |transcript|;
    }

    /** `add_outgoing`, for a handshake message if there is a body, else for a change of ciphers. */
    method AddOutgoing(outgoing: Outgoing, ghost m: Message) returns (ok: bool)
      requires Valid() && (outgoing.Handshake? ==> IsWhole(outgoing.data, m, writeSeq))
      modifies this
      ensures Valid() && !messagesComplete && (ok <==> old(messagesComplete) || |old(messages)| < FLIGHT)
      ensures messages == (if old(messagesComplete) then [] else old(messages)) + if ok then [outgoing] else []
      ensures transcript == old(transcript) + if ok && outgoing.Handshake? then [m] else []
      ensures ok && outgoing.Handshake? ==> numbers != [] && numbers[|numbers| - 1] == old(writeSeq)
      ensures old(messagesComplete) ==> written == offset == 0
      ensures flightStart == if old(messagesComplete) then |old(transcript)| else old(flightStart)
    {
      if messagesComplete {
        ClearOutgoing();
      }
      if |messages| >= FLIGHT {
        return false;
      }
      Push(outgoing, m);
      ok := true;
    }

    method Push(outgoing: Outgoing, ghost m: Message)
      requires Valid() && |messages| < FLIGHT && (outgoing.Handshake? ==> IsWhole(outgoing.data, m, writeSeq))
      modifies this`messages, this`numbers, this`cuts, this`writeSeq, this`transcript
      ensures Valid() && messages == old(messages) + [outgoing] && numbers == old(numbers) + [old(writeSeq)]
      ensures transcript == old(transcript) + if outgoing.Handshake? then [m] else []
    {
      hide EncodeFragment, Encodable, Cuts, CipherOk;
      ghost var n, were := |messages|, transcript;
      FlightGrows(messages, numbers, flightStart, |transcript|, outgoing);
      numbers, cuts, messages := numbers + [writeSeq], cuts + [[]], messages + [outgoing];
      if outgoing.Handshake? {
        writeSeq := writeSeq + 1;
        transcript := transcript + [m];
      }
      forall j: nat | j < n ensures MessageOk(j) && CutOk(j) {
        assert old(MessageOk(j)) && old(CutOk(j));
        CutsLonger(cuts[j], were, transcript, numbers[j]);
      }
      assert MessageOk(n);
      assert CutOk(n) by { assert Cuts([], transcript, numbers[n], 0) by { NoCuts(transcript, numbers[n]); } }
    }

    /** `dtls1_add_message`, after the message has been built. */
    method AddMessage(kind: Byte, body: Slice) returns (ok: bool)
      requires Valid() && writeSeq < U16
      modifies this
      ensures Valid() && (ok <==> |body| < U24 && (old(messagesComplete) || |old(messages)| < FLIGHT))
      ensures ok ==> transcript == old(transcript) + [Message(kind, body)]
      ensures ok ==> numbers != [] && numbers[|numbers| - 1] == old(writeSeq)
    {
      var data := BuildMessage(kind, body);
      if data.None? {
        return false;
      }
      ok := AddOutgoing(Handshake(writeEpoch, data.value), Message(kind, body));
    }

    method AddChangeCipherSpec() returns (ok: bool)
      requires Valid()
      modifies this
      ensures Valid() && (ok <==> old(messagesComplete) || |old(messages)| < FLIGHT) && transcript == old(transcript)
    {
      ok := AddOutgoing(ChangeCipherSpec(writeEpoch), Message(0, []));
    }

    predicate EpochOk(m: Outgoing)
      reads this`writeEpoch
    {
      m.epoch == writeEpoch || (writeEpoch != 0 && m.epoch == writeEpoch - 1)
    }

    /** The message can be sealed whenever there is room: its epoch is accepted and sealing never fails. */
    ghost predicate Sealable(k: nat)
      requires k < |messages|
      reads this`messages, this`writeEpoch
    {
      var c := cipher(messages[k].epoch);
      EpochOk(messages[k]) && c.prefix <= c.overhead && forall n: nat :: c.seal(n).Some?
    }

    /** There is no room for a record of the message with at least one byte of it, or for a change of ciphers. */
    ghost predicate NoRoom(k: nat, room: nat)
      requires k < |messages|
      reads this`messages
    {
      var c := cipher(messages[k].epoch);
      if messages[k].ChangeCipherSpec? then room < 1 + c.overhead
      else room < HEADER_LENGTH + 1 + c.overhead || room < c.prefix
    }

    /** Whatever is queued can be sealed, and each message has room in an empty packet of that size. */
    ghost predicate CanSend(maxOut: nat)
      reads this`messages, this`writeEpoch
    {
      forall k: nat :: k < |messages| ==> Sealable(k) && !NoRoom(k, maxOut)
    }

    /** A packet ends when all is written, a message has been cut short, or the next one finds no room any more. */
    ghost predicate PacketEnds(room: nat)
      reads this`messages, this`written, this`offset
    {
      written >= |messages| || offset > 0 || NoRoom(written, room)
    }

    /** `seal_next_message`; `cut` is the fragment that the record carries. */
    method SealNextMessage(maxOut: nat) returns (r: SealResult, ghost cut: Fragment)
      requires Valid() && written < |messages|
      modifies this`offset
      ensures r.SealError? || r.NoProgress? ==> offset == old(offset)
      ensures r.Partial? || r.Success? ==> r.len <= maxOut
      ensures r.NoProgress? ==> NoRoom(written, maxOut)
      ensures Sealable(written) ==> !r.SealError? && (NoRoom(written, maxOut) ==> r.NoProgress?)
      ensures !EpochOk(messages[written]) ==> r.SealError?
      ensures EpochOk(messages[written]) && messages[written].ChangeCipherSpec? ==>
        r == SealCcs(cipher(messages[written].epoch), maxOut) && offset == old(offset)
      ensures EpochOk(messages[written]) && messages[written].Handshake? ==>
        FragmentOutcome(r, cipher(messages[written].epoch), maxOut, BodyLength(written) - old(offset), |cut.body|)
      ensures (r.Partial? || r.Success?) && messages[written].Handshake? ==>
        && CutsNext(cut, transcript, numbers[written], old(offset)) &&
             r.content == HandshakeContent(EncodeFragment(cut))
        && (r.Success? <==> old(offset) + |cut.body| == BodyLength(written))
        && offset == if r.Success? then 0 else old(offset) + |cut.body|
    {
      var msg := messages[written];
      assert MessageOk(written) && CutOk(written);
      cut := Fragment(0, 0, 0, 0, []);
      if !EpochOk(msg) {
        return SealError, cut;
      }
      var c := cipher(msg.epoch);
      if msg.ChangeCipherSpec? {
        if maxOut < 1 + c.overhead {
          return NoProgress, cut;
        }
        var sealed := c.seal(1);
        if sealed.None? {
          return SealError, cut;
        }
        return Success(sealed.value, ChangeCipherSpecContent), cut;
      }
      r, cut := SealFragment(msg.data, c, maxOut, transcript[numbers[written]], numbers[written]);
    }

    /** The message that the data serialize as a single fragment: message `m`, number `q`, if the data are right. */
    static method ParseWhole(data: Slice, ghost m: Message, ghost q: nat) returns (r: Option<Fragment>)
      ensures IsWhole(data, m, q) ==> r == Some(Whole(m, q))
      ensures r.Some? ==> Encodable(r.value) && r.value.off == 0 && r.value.msgLen == |r.value.body|
    {
      var parsed := ParseFragment(data);
      if IsWhole(data, m, q) {
        assert data == EncodeFragment(Whole(m, q)) + [];
        ParseEncoded(Whole(m, q), []);
        assert parsed == Some(Parsed(Whole(m, q), []));
      }
      if parsed.None? {
        return None;
      }
      var hdr := parsed.value.fragment;
      if hdr.off != 0 || hdr.msgLen != |hdr.body| || parsed.value.rest != [] {
        return None;
      }
      r := Some(hdr);
    }

    /** The part of `seal_next_message` for a handshake message: message `m`, number `q`, if the data are right. */
    method SealFragment(data: Slice, c: Cipher, maxOut: nat, ghost m: Message, ghost q: nat)
        returns (r: SealResult, ghost cut: Fragment)
      requires CipherOk(c)
      modifies this`offset
      ensures r.SealError? || r.NoProgress? ==> offset == old(offset)
      ensures r.Partial? || r.Success? ==> r.len <= maxOut
      ensures IsWhole(data, m, q) && (old(offset) == 0 || old(offset) < |m.body|) ==>
        FragmentOutcome(r, c, maxOut, |m.body| - old(offset), |cut.body|)
      ensures IsWhole(data, m, q) && (old(offset) == 0 || old(offset) < |m.body|) && (r.Partial? || r.Success?) ==>
        && CutsFrom(cut, m, q, old(offset)) && r.content == HandshakeContent(EncodeFragment(cut))
        && (r.Success? <==> old(offset) + |cut.body| == |m.body|)
        && offset == if r.Success? then 0 else old(offset) + |cut.body|
    {
      cut := Fragment(0, 0, 0, 0, []);
      hide EncodeFragment, IsWhole;
      var parsed := ParseWhole(data, m, q);
      if parsed.None? || offset > |parsed.value.body| {
        return SealError, cut;
      }
      var hdr := parsed.value;
      var body := hdr.body[offset..];
      if maxOut < HEADER_LENGTH + 1 + c.overhead || maxOut < c.prefix {
        return NoProgress, cut;
      }
      var todo := |body|;
      if todo > maxOut - HEADER_LENGTH - c.overhead {
        todo := maxOut - HEADER_LENGTH - c.overhead;
      }
      var fragLen := HEADER_LENGTH + todo;
      if fragLen > maxOut - c.prefix {
        return SealError, cut;
      }
      var fragment := Fragment(hdr.kind, hdr.msgLen, hdr.seqno, offset, body[..todo]);
      var sealed := c.seal(fragLen);
      if sealed.None? {
        return SealError, cut;
      }
      cut := fragment;
      var content := HandshakeContent(EncodeFragment(fragment));
      if todo == |body| {
        offset := 0;
        return Success(sealed.value, content), cut;
      }
      offset := offset + todo;
      r := Partial(sealed.value, content);
    }

    /** Where the sender is: messages written, bytes of the current one cut. */
    ghost predicate Further(w: nat, o: nat)
      reads this`written, this`offset
    {
      written > w || (written == w && offset > o)
    }

    ghost predicate CutsCarried(before: seq<seq<Fragment>>, records: seq<Content>)
      reads this`cuts
    {
      NewCutsIn(before, cuts, records)
    }

    /** A cut of one of the messages of the flight. */
    ghost predicate OfFlight(f: Fragment)
      reads this`messages, this`numbers, this`transcript
    {
      Encodable(f) && Genuine(f, transcript) && InFlight(f.seqno)
    }

    ghost predicate CarriesFlight(c: Content)
      reads this`messages, this`numbers, this`transcript
    {
      c.HandshakeContent? ==> exists f :: OfFlight(f) && c.plaintext == EncodeFragment(f)
    }

    /** The records carry nothing but single cuts of messages of the flight. */
    ghost predicate OnlyFlight(records: seq<Content>)
      reads this`messages, this`numbers, this`transcript
    {
      forall c :: c in records ==> CarriesFlight(c)
    }

    lemma CutIsOfFlight(k: nat, cut: Fragment, off: nat, content: Content)
      requires k < |messages| == |numbers| && messages[k].Handshake? && CutsNext(cut, transcript, numbers[k], off)
      requires content == HandshakeContent(EncodeFragment(cut))
      ensures OnlyFlight([content])
    {
      assert OfFlight(cut);
    }

    /** One round of the loop of `seal_next_packet`. */
    method SealNext(maxOut: nat) returns (r: SealResult)
      requires Valid() && written < |messages|
      modifies this`written, this`offset, this`cuts
      ensures Valid()
      ensures r.SealError? || r.NoProgress? ==> written == old(written) && offset == old(offset) && cuts == old(cuts)
      ensures r.NoProgress? ==> NoRoom(old(written), maxOut)
      ensures Sealable(old(written)) ==> !r.SealError? && (NoRoom(old(written), maxOut) ==> r.NoProgress?)
      ensures r.Partial? ==> written == old(written) && offset > old(offset)
      ensures r.Success? ==> written == old(written) + 1
      ensures r.Partial? || r.Success? ==>
                r.len <= maxOut && CutsCarried(old(cuts), [r.content]) && OnlyFlight([r.content])
    {
      ghost var cut, off := Fragment(0, 0, 0, 0, []), offset;
      assert MessageOk(written) && CutOk(written);
      hide Sealable, NoRoom, FragmentOutcome, EpochOk, SealCcs, FlightIs, CipherOk, EncodeFragment, OnlyFlight,
           CarriesFlight, NewCutsIn, Cuts, Encodable, Sendable, Whole;
      r, cut := SealNextMessage(maxOut);
      if r.SealError? || r.NoProgress? {
        return;
      }
      forall j: nat | j < |messages| && j != written ensures CutOk(j) { assert old(CutOk(j)); }
      CarriesOne(r.content, cut, off);
      Advance(r.Success?, cut, off, r.content);
    }

    lemma CarriesOne(content: Content, cut: Fragment, off: nat)
      requires written < |messages| == |numbers|
      requires messages[written].Handshake? ==>
                 CutsNext(cut, transcript, numbers[written], off) && content == HandshakeContent(EncodeFragment(cut))
      requires messages[written].ChangeCipherSpec? ==> content == ChangeCipherSpecContent
      ensures OnlyFlight([content])
    {
      if messages[written].Handshake? { CutIsOfFlight(written, cut, off, content); }
    }

    /** Goes on to the next message if this one is done. */
    method Advance(done: bool, ghost cut: Fragment, ghost off: nat, ghost content: Content)
      requires |messages| == |numbers| == |cuts| <= FLIGHT && written < |messages| && |transcript| == writeSeq
      requires FlightOk()
      requires (forall j: nat :: j < |messages| ==> MessageOk(j)) && (forall e: nat :: CipherOk(cipher(e)))
      requires forall j: nat :: j < |messages| && j != written ==> CutOk(j)
      requires messages[written].Handshake? ==>
        && Cuts(cuts[written], transcript, numbers[written], off) && CutsNext(cut, transcript, numbers[written], off)
        && (done <==> off + |cut.body| == BodyLength(written)) && offset == (if done then 0 else off + |cut.body|)
        && content == HandshakeContent(EncodeFragment(cut))
      requires messages[written].ChangeCipherSpec? ==> done && offset == 0 && cuts[written] == []
      modifies this`written, this`cuts
      ensures Valid() && written == old(written) + (if done then 1 else 0)
      ensures CutsCarried(old(cuts), [content])
    {
      hide FlightIs, CipherOk, CutsNext, Cuts, EncodeFragment, Carried, Encodable, MessageOk, NewCutsIn;
      ghost var k := written;
      NoCuts(transcript, if k + 1 < |messages| then numbers[k + 1] else 0);
      if messages[k].Handshake? {
        CutsInside(cut, transcript, numbers[k], off);
        AddCut(cut, off, content);
      } else {
        NoNewCuts(cuts, content);
      }
      if done {
        written := written + 1;
      }
      forall j: nat | j < |messages| ensures CutOk(j) {
        assert j != k ==> old(CutOk(j));
      }
    }

    ghost method AddCut(cut: Fragment, off: nat, content: Content)
      requires |messages| == |numbers| == |cuts| && written < |messages|
      requires Cuts(cuts[written], transcript, numbers[written], off)
      requires CutsNext(cut, transcript, numbers[written], off)
      requires content == HandshakeContent(EncodeFragment(cut))
      modifies this`cuts
      ensures |cuts| == |old(cuts)| && forall j: nat :: j < |cuts| && j != written ==> cuts[j] == old(cuts[j])
      ensures cuts[written] != [] && Cuts(cuts[written], transcript, numbers[written], off + |cut.body|)
      ensures CutsCarried(old(cuts), [content])
    {
      CutsGrow(cuts[written], transcript, numbers[written], off, cut);
      OneMoreCut(cuts, written, cut, content);
      cuts := cuts[written := cuts[written] + [cut]];
    }

    /** `seal_next_packet`: as many records as fit; fails if that is none. */
    method SealNextPacket(maxOut: nat) returns (ok: bool, packet: seq<Content>, total: nat)
      requires Valid() && written < |messages|
      modifies this`written, this`offset, this`cuts
      ensures Valid()
      ensures ok ==> Further(old(written), old(offset)) && packet != [] && total <= maxOut
      ensures ok ==> PacketEnds(maxOut - total)
      ensures CanSend(maxOut) ==> ok
      ensures CutsCarried(old(cuts), packet) && OnlyFlight(packet)
    {
      hide Valid, CarriesFlight, Sealable, NoRoom;
      ghost var sendable := CanSend(maxOut);
      packet, total := [], 0;
      while written < |messages|
        invariant Valid() && total <= maxOut && (packet == [] ==> total == 0)
        invariant if packet == [] then written == old(written) && offset == old(offset)
                  else Further(old(written), old(offset))
        invariant CutsCarried(old(cuts), packet) && OnlyFlight(packet)
        decreases |messages| - written
      {
        ghost var before := cuts;
        assert sendable ==> Sealable(written) && !NoRoom(written, maxOut);
        var r := SealNext(maxOut - total);
        if r.SealError? {
          return false, packet, total;
        }
        if r.NoProgress? {
          break;
        }
        CarriedTogether(old(cuts), before, cuts, packet, [r.content]);
        packet, total := packet + [r.content], total + r.len;
        if r.Partial? {
          break;
        }
      }
      ok := packet != [];
    }

    ghost function Left(): nat
      reads this`messages, this`numbers, this`transcript, this`written, this`offset
    {
      if written < |messages| == |numbers| && offset < BodyLength(written) then BodyLength(written) - offset else 0
    }

    /**
     `send_flight`: packets of at most `mtu` bytes until all is sent; a packet that the network does not take is made
     again next time.
     */
    method SendFlight(mtu: nat, takes: nat -> bool) returns (r: FlightResult, packets: seq<seq<Content>>)
      requires Valid()
      modifies this`written, this`offset, this`cuts
      ensures Valid()
      ensures r.Sent? ==> written == |messages|
      ensures r.Sent? || r.Blocked? ==> CutsCarried(old(cuts), Flat(packets))
      ensures CanSend(mtu) ==> !r.FlightError? && (Takes(takes) ==> r.Sent?)
      ensures OnlyFlight(Flat(packets))
    {
      hide Valid, MessageOk, CutOk, CarriesFlight, CanSend;
      packets := [];
      while written < |messages|
        invariant Valid() && CutsCarried(old(cuts), Flat(packets)) && OnlyFlight(Flat(packets))
        decreases |messages| - written, Left()
      {
        ghost var before, left := cuts, Left();
        label L:
        var oldWritten, oldOffset := written, offset;
        var ok, packet, total := SealNextPacket(mtu);
        if !ok {
          return FlightError, packets;
        }
        if !takes(|packets|) {
          written, offset := oldWritten, oldOffset;
          cuts := before;
          SameAgain@L();
          return Blocked, packets;
        }
        assert (packets + [packet])[..|packets|] == packets;
        CarriedTogether(old(cuts), before, cuts, Flat(packets), packet);
        packets := packets + [packet];
        assert written == oldWritten ==> Left() < left by { OffsetFits(); }
      }
      OffsetFits();
      r := Sent;
    }

    twostate lemma SameAgain()
      requires old(Valid()) && written == old(written) && offset == old(offset) && cuts == old(cuts)
      requires unchanged(`messages, `messagesComplete, `writeSeq, `writeEpoch, `transcript, `numbers, `flightStart)
      ensures Valid()
    {
      forall k: nat | k < |messages| ensures MessageOk(k) && CutOk(k) {
        assert old(MessageOk(k)) && old(CutOk(k));
      }
    }

    lemma OffsetFits()
      requires Valid()
      ensures written <= |messages|
      ensures offset > 0 ==> written < |messages| == |numbers| && offset < BodyLength(written)
    {
    }

    lemma NothingCut()
      requires Valid() && written == offset == 0
      ensures forall k :: 0 <= k < |cuts| ==> cuts[k] == []
    {
      forall k: nat | k < |cuts| ensures cuts[k] == [] { assert CutOk(k); }
    }

    lemma FlightDone(before: seq<seq<Fragment>>, records: seq<Content>)
      requires Valid() && written == |messages| && NewCutsIn(before, cuts, records)
      requires forall k :: 0 <= k < |before| ==> before[k] == []
      ensures WholeFlightIn(records)
    {
      forall k: nat | k < |messages| && messages[k].Handshake?
        ensures numbers[k] < |transcript| && cuts[k] != []
        ensures Cuts(cuts[k], transcript, numbers[k], |transcript[numbers[k]].body|)
      {
        assert MessageOk(k) && CutOk(k);
      }
    }

    /** `dtls1_flush_flight`. */
    method FlushFlight(mtu: nat, takes: nat -> bool) returns (r: FlightResult, packets: seq<seq<Content>>)
      requires Valid()
      modifies this`written, this`offset, this`cuts, this`messagesComplete
      ensures Valid() && messagesComplete
      ensures r.Sent? ==> written == |messages|
      ensures r.Sent? || r.Blocked? ==> CutsCarried(old(cuts), Flat(packets))
      ensures CanSend(mtu) ==> !r.FlightError? && (Takes(takes) ==> r.Sent?)
      ensures r.Sent? && old(written) == old(offset) == 0 ==> WholeFlightIn(Flat(packets))
      ensures OnlyFlight(Flat(packets))
    {
      messagesComplete := true;
      ghost var before, start := cuts, written == 0 && offset == 0;
      if start { NothingCut(); }
      r, packets := SendFlight(mtu, takes);
      if start && r.Sent? { FlightDone(before, Flat(packets)); }
    }

    /** `dtls1_retransmit_outgoing_messages`. */
    method RetransmitFlight(mtu: nat, takes: nat -> bool) returns (r: FlightResult, packets: seq<seq<Content>>)
      requires Valid()
      modifies this`written, this`offset, this`cuts
      ensures Valid()
      ensures r.Sent? ==> WholeFlightIn(Flat(packets))
      ensures CanSend(mtu) ==> !r.FlightError? && (Takes(takes) ==> r.Sent?)
      ensures OnlyFlight(Flat(packets))
    {
      written, offset := 0, 0;
      cuts := seq(|messages|, i => []);
      ghost var before := cuts;
      r, packets := SendFlight(mtu, takes);
      if r.Sent? { FlightDone(before, Flat(packets)); }
    }

    /** Every message of the flight has been cut from its start to its end, and every cut is in a record. */
    ghost predicate WholeFlightIn(records: seq<Content>)
      reads this
    {
      |messages| == |numbers| == |cuts| &&
      forall k: nat :: k < |messages| && messages[k].Handshake? ==>
        && numbers[k] < |transcript| && Cuts(cuts[k], transcript, numbers[k], |transcript[numbers[k]].body|) &&
             cuts[k] != []
        && forall f :: f in cuts[k] ==> Encodable(f) && Carried(f, records)
    }
  }

  /** Message `q` is among the outgoing ones. */
  ghost predicate Numbered(messages: seq<Outgoing>, numbers: seq<nat>, q: nat) {
    exists k: nat :: k < |messages| == |numbers| && messages[k].Handshake? && numbers[k] == q
  }

  ghost predicate FlightIs(messages: seq<Outgoing>, numbers: seq<nat>, start: nat, end: nat) {
    start <= end && forall q: nat :: Numbered(messages, numbers, q) <==> start <= q < end
  }

  lemma FlightGrows(messages: seq<Outgoing>, numbers: seq<nat>, start: nat, end: nat, m: Outgoing)
    requires |messages| == |numbers| && FlightIs(messages, numbers, start, end)
    ensures FlightIs(messages + [m], numbers + [end], start, if m.Handshake? then end + 1 else end)
  {
    var ms, ns := messages + [m], numbers + [end];
    forall q: nat ensures Numbered(ms, ns, q) <==> Numbered(messages, numbers, q) || (m.Handshake? && q == end) {
      if k: nat :| k < |messages| && messages[k].Handshake? && numbers[k] == q {
        assert ms[k].Handshake? && ns[k] == q;
      }
      if m.Handshake? && q == end {
        assert ms[|messages|].Handshake? && ns[|messages|] == q;
      }
    }
  }

  lemma NoCuts(msgs: seq<Message>, q: nat)
    ensures Cuts([], msgs, q, 0)
  {
  }

  /** More messages at the end change no cuts of the others. */
  lemma {:induction false} CutsLonger(fs: seq<Fragment>, msgs: seq<Message>, more: seq<Message>, q: nat)
    requires msgs <= more
    ensures forall upto: nat :: Cuts(fs, msgs, q, upto) ==> Cuts(fs, more, q, upto)
    decreases |fs|
  {
    if fs != [] {
      CutsLonger(fs[..|fs| - 1], msgs, more, q);
    }
  }

  function Flat(packets: seq<seq<Content>>): seq<Content> {
    if packets == [] then [] else Flat(packets[..|packets| - 1]) + packets[|packets| - 1]
  }

  lemma OneMoreCut(cuts: seq<seq<Fragment>>, k: nat, f: Fragment, content: Content)
    requires k < |cuts| && Encodable(f) && content == HandshakeContent(EncodeFragment(f))
    ensures NewCutsIn(cuts, cuts[k := cuts[k] + [f]], [content])
  {
    assert Carried(f, [content]);
  }

  lemma NoNewCuts(cuts: seq<seq<Fragment>>, content: Content)
    ensures NewCutsIn(cuts, cuts, [content])
  {
  }

  lemma CutsInside(f: Fragment, msgs: seq<Message>, q: nat, off: nat)
    requires CutsNext(f, msgs, q, off)
    ensures q < |msgs| && off + |f.body| <= |msgs[q].body| && (|f.body| > 0 || |msgs[q].body| == 0)
  {
  }

  lemma CutsGrow(fs: seq<Fragment>, msgs: seq<Message>, q: nat, off: nat, f: Fragment)
    requires Cuts(fs, msgs, q, off) && CutsNext(f, msgs, q, off)
    ensures Cuts(fs + [f], msgs, q, off + |f.body|)
  {
    assert (fs + [f])[..|fs|] == fs;
  }

  predicate IsWhole(data: Slice, m: Message, q: nat) {
    Sendable(m, q) && data == EncodeFragment(Whole(m, q))
  }

  /** A fragment of message `m`, number `q`, from `off` on, and not empty unless the message is. */
  predicate CutsFrom(f: Fragment, m: Message, q: nat, off: nat) {
    && f.kind == m.kind && f.msgLen == |m.body| && f.seqno == q && f.off == off && Encodable(f)
    && off + |f.body| <= |m.body| && f.body == m.body[off..off + |f.body|] && (|f.body| > 0 || |m.body| == 0)
  }

  predicate CutsNext(f: Fragment, msgs: seq<Message>, q: nat, off: nat) {
    q < |msgs| && CutsFrom(f, msgs[q], q, off)
  }
}
