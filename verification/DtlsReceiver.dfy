/**
 The receiver of handshake messages: an array of slots for the messages that come next, each with a buffer for the
 message and a bitmask for what of it is there.
 */
module DtlsReceiver {
  import opened Basics
  import opened DtlsMask
  import opened DtlsMessages

  /** The bytes of `body` that the mask has; all of them if there is no mask any more. */
  function Known(body: Slice, mask: Option<seq<bv8>>): (r: seq<Option<Byte>>)
    requires mask.Some? ==> |mask.value| == (|body| + 7) / 8
    ensures |r| == |body|
  {
    seq(|body|, i requires 0 <= i < |body| => if mask.None? || Marked(mask.value, i) then Some(body[i]) else None)
  }

  class HmFragment {
    const kind: Byte
    const seqno: nat
    const msgLen: nat
    const data: array<Byte>
    var reassembly: array?<bv8>

    ghost predicate Valid()
      reads this, data, reassembly
    {
      && msgLen < U24 && seqno < U16 && data.Length == HEADER_LENGTH + msgLen
      && data[..HEADER_LENGTH] == Header(kind, msgLen, seqno, 0, msgLen)
      && (reassembly != null ==> MaskFor(reassembly[..], msgLen) && !Complete(reassembly[..], msgLen))
    }

    ghost function MaskValue(): (m: Option<seq<bv8>>)
      requires Valid()
      reads this, data, reassembly
      ensures m.Some? ==> |m.value| == (msgLen + 7) / 8
    {
      if reassembly == null then None else Some(reassembly[..])
    }

    ghost function View(): Incoming
      requires Valid()
      reads this, data, reassembly
    {
      Incoming(kind, Known(data[HEADER_LENGTH..], MaskValue()))
    }

    /** `dtls1_hm_fragment_new`. */
    constructor (f: Fragment)
      requires f.msgLen < U24 && f.seqno < U16
      ensures Valid() && fresh(data) && (reassembly != null ==> fresh(reassembly))
      ensures seqno == f.seqno && View() == Incoming(f.kind, Nothing(f.msgLen))
      ensures reassembly == null <==> AllIn(View().bytes)
    {
      kind, seqno, msgLen := f.kind, f.seqno, f.msgLen;
      var header := Header(f.kind, f.msgLen, f.seqno, 0, f.msgLen);
      data := new Byte[HEADER_LENGTH + f.msgLen](i => if 0 <= i < HEADER_LENGTH then header[i] else 0);
      reassembly := null;
      new;
      assert data[..HEADER_LENGTH] == header;
      if f.msgLen > 0 {
        reassembly := new bv8[(f.msgLen + 7) / 8](i => 0);
        NothingMarked(reassembly[..], f.msgLen);
      }
      assert View().bytes == Nothing(f.msgLen);
      assert f.msgLen > 0 ==> View().bytes[0].None?;
    }

    lemma WholeMessage()
      requires Valid() && reassembly == null
      ensures AllIn(View().bytes) && Message(kind, data[HEADER_LENGTH..]) == Assembled(View())
      ensures Sendable(Assembled(View()), seqno) && data[..] == EncodeFragment(Whole(Assembled(View()), seqno))
    {
      assert data[HEADER_LENGTH..] == Assembled(View()).body;
      assert data[..] == data[..HEADER_LENGTH] + data[HEADER_LENGTH..];
    }

    /** The copy and `dtls1_hm_fragment_mark` of `dtls1_open_handshake`, for a message that is not yet complete. */
    method Fill(off: nat, body: Slice)
      requires Valid() && reassembly != null && off + |body| <= msgLen
      modifies this`reassembly, data, reassembly
      ensures Valid() && (reassembly == null || reassembly == old(reassembly))
      ensures View() == old(View()).(bytes := Overlay(old(View().bytes), off, body))
      ensures reassembly == null <==> AllIn(View().bytes)
    {
      ghost var bytes, before := data[HEADER_LENGTH..], reassembly[..];
      var mask := reassembly;
      forall i | 0 <= i < |body| {
        data[HEADER_LENGTH + off + i] := body[i];
      }
      assert data[..HEADER_LENGTH] == old(data[..HEADER_LENGTH]);
      assert mask[..] == before;
      var complete := Mark(mask, msgLen, off, off + |body|);
      Overlaid(bytes, data[HEADER_LENGTH..], before, mask[..], off, body);
      MaskTells(data[HEADER_LENGTH..], mask[..]);
      if complete {
        reassembly := null;
      }
    }
  }

  lemma NothingMarked(mask: seq<bv8>, len: nat)
    requires len > 0 && |mask| == (len + 7) / 8 && forall k :: 0 <= k < |mask| ==> mask[k] == 0
    ensures MaskFor(mask, len) && !Complete(mask, len)
    ensures forall p: nat :: p < len ==> !Marked(mask, p)
  {
    assert !Marked(mask, 0);
  }

  lemma Overlaid(before: Slice, after: Slice, was: seq<bv8>, now: seq<bv8>, off: nat, body: Slice)
    requires |after| == |before| && off + |body| <= |before| && |was| == |now| == (|before| + 7) / 8
    requires forall i :: 0 <= i < |after| ==> after[i] == if off <= i < off + |body| then body[i - off] else before[i]
    requires forall p: nat :: p < 8 * |now| ==> (Marked(now, p) <==> Marked(was, p) || off <= p < off + |body|)
    ensures Known(after, Some(now)) == Overlay(Known(before, Some(was)), off, body)
    ensures Complete(now, |after|) ==> Known(after, None) == Overlay(Known(before, Some(was)), off, body)
  {
    hide Marked;
    if Complete(now, |after|) {
      forall p: nat | p < |after| ensures Marked(now, p) {
      }
    }
  }

  lemma MaskTells(body: Slice, mask: seq<bv8>)
    requires |mask| == (|body| + 7) / 8
    ensures Complete(mask, |body|) <==> AllIn(Known(body, Some(mask)))
    ensures AllIn(Known(body, None))
  {
    hide Marked;
    if AllIn(Known(body, Some(mask))) {
      forall p: nat | p < |body| ensures Marked(mask, p) { assert Known(body, Some(mask))[p].Some?; }
    }
  }

  ghost function ObjectsOf(f: HmFragment): set<object>
    reads f
  {
    {f, f.data} + if f.reassembly == null then {} else {f.reassembly}
  }

  ghost predicate Owned(f: HmFragment, footprint: set<object>)
    reads f
  {
    ObjectsOf(f) <= footprint
  }

  ghost predicate Apart(f: HmFragment, g: HmFragment)
    reads f, g
  {
    ObjectsOf(f) !! ObjectsOf(g)
  }

  ghost predicate Holds(f: HmFragment, slot: Incoming)
    reads f, f.data, f.reassembly
  {
    f.Valid() && f.View() == slot && (f.reassembly == null <==> AllIn(slot.bytes))
  }

  class Receiver {
    const slots: array<HmFragment?>
    const limits: Limits
    var readSeq: nat
    var hasMessage: bool
    ghost var window: Window
    ghost var footprint: set<object>

    ghost predicate SlotOk(k: nat)
      requires k < slots.Length
      reads this`window, this`footprint, slots, footprint
    {
      slots[k] != null ==>
        var f := slots[k];
        && f in footprint && Owned(f, footprint) && f.seqno % FLIGHT == k
        && f.seqno in window.slots && Holds(f, window.slots[f.seqno])
    }

    ghost predicate SlotsApart()
      reads this`footprint, slots, footprint
    {
      forall j, k :: 0 <= j < k < slots.Length && slots[j] != null && slots[k] != null && slots[j] in footprint &&
          slots[k] in footprint
        ==> Apart(slots[j], slots[k])
    }

    ghost predicate Valid()
      reads this, slots, footprint
    {
      && slots.Length == FLIGHT && slots !in footprint && this !in footprint
      && (forall k: nat :: k < FLIGHT ==> SlotOk(k))
      && SlotsApart()
      && (forall q :: q in window.slots ==> slots[q % FLIGHT] != null && slots[q % FLIGHT].seqno == q)
      && InWindow(window) && window.readSeq == readSeq
    }

    constructor (limits: Limits, readSeq: nat)
      ensures Valid() && window == Window(readSeq, map[]) && this.limits == limits && fresh(slots) && footprint == {}
    {
      this.limits, this.readSeq, hasMessage := limits, readSeq, false;
      slots := new HmFragment?[FLIGHT](i => null);
      window, footprint := Window(readSeq, map[]), {};
    }

    /** One round of the loop of `dtls1_open_handshake`, for a fragment that could be read. */
    method TakeFragment(f: Fragment) returns (alert: Option<Alert>)
      requires Valid() && Encodable(f)
      modifies this, slots, footprint
      ensures Valid() && fresh(footprint - old(footprint))
      ensures Taken(window, alert) == Take(old(window), f, limits)
    {
      if f.off + |f.body| > f.msgLen || f.msgLen > limits.maxLen {
        return Some(IllegalParameter);
      }
      if limits.onlyCurrent && f.seqno != readSeq {
        return Some(UnexpectedMessage);
      }
      if f.seqno < readSeq || f.seqno > readSeq + FLIGHT {
        return None;
      }
      alert := TakeIntoSlotOf(f);
    }

    method TakeIntoSlotOf(f: Fragment) returns (alert: Option<Alert>)
      requires Valid() && Encodable(f) && f.off + |f.body| <= f.msgLen && readSeq <= f.seqno
      modifies this, slots, footprint
      ensures Valid() && fresh(footprint - old(footprint))
      ensures Taken(window, alert) == TakeIntoSlot(old(window), f)
    {
      hide HmFragment.Valid, SlotOk, Holds, Apart, ObjectsOf, SlotsApart, Nothing, Overlay, AllIn;
      var frag;
      frag, alert := GetIncomingMessage(f);
      if frag != null && frag.reassembly != null {
        FillSlot(frag, f);
      }
    }

    /** `dtls1_get_incoming_message`: the slot for the message of `f`, taken now if it was free. */
    method GetIncomingMessage(f: Fragment) returns (frag: HmFragment?, alert: Option<Alert>)
      requires Valid() && Encodable(f) && readSeq <= f.seqno
      modifies this`window, this`footprint, slots
      ensures Valid() && fresh(footprint - old(footprint)) && readSeq == old(readSeq)
      ensures frag == null <==> alert.Some?
      ensures alert.Some? ==> window == old(window)
      ensures alert == if f.seqno - readSeq >= FLIGHT then Some(InternalError)
                       else if SlotFor(old(window), f).kind != f.kind then Some(IllegalParameter)
                       else if |SlotFor(old(window), f).bytes| != f.msgLen then Some(IllegalParameter)
                       else None
      ensures frag != null ==> frag == slots[f.seqno % FLIGHT] && frag.seqno == f.seqno &&
                               window == old(window).(slots := old(window).slots[f.seqno := SlotFor(old(window), f)]) &&
                               frag.msgLen == f.msgLen && Holds(frag, window.slots[f.seqno]) &&
                               (frag.reassembly == null <==> AllIn(window.slots[f.seqno].bytes))
    {
      if f.seqno - readSeq >= FLIGHT {
        return null, Some(InternalError);
      }
      var idx := f.seqno % FLIGHT;
      frag := slots[idx];
      assert SlotOk(idx);
      if frag != null {
        SameSlot(window, frag.seqno, f.seqno);
        if frag.kind != f.kind || frag.msgLen != f.msgLen {
          return null, Some(IllegalParameter);
        }
        assert window.slots[f.seqno := SlotFor(window, f)] == window.slots;
        return frag, None;
      }
      frag := new HmFragment(f);
      assert f.seqno !in window.slots;
      PutSlot(frag, f);
      alert := None;
    }

    /** Puts a new message into the free slot that is its own. */
    method PutSlot(frag: HmFragment, f: Fragment)
      requires Valid() && readSeq <= f.seqno < readSeq + FLIGHT && f.seqno !in window.slots
      requires frag.seqno == f.seqno && Holds(frag, Incoming(f.kind, Nothing(f.msgLen)))
      requires slots[f.seqno % FLIGHT] == null
      requires footprint !! ObjectsOf(frag) && slots !in ObjectsOf(frag) && this !in ObjectsOf(frag)
      modifies this`window, this`footprint, slots
      ensures Valid() && slots[f.seqno % FLIGHT] == frag
      ensures footprint == old(footprint) + ObjectsOf(frag)
      ensures window == old(window).(slots := old(window).slots[f.seqno := SlotFor(old(window), f)])
    {
      hide HmFragment.Valid, HmFragment.View, Holds, Nothing, AllIn;
      slots[f.seqno % FLIGHT] := frag;
      window := window.(slots := window.slots[f.seqno := SlotFor(window, f)]);
      footprint := footprint + ObjectsOf(frag);
      forall k: nat | k < FLIGHT && k != f.seqno % FLIGHT && slots[k] != null
        ensures SlotOk(k) && Apart(slots[k], frag)
      {
        assert old(SlotOk(k));
      }
    }

    /** Filling one slot leaves the others as they are. */
    method FillOnly(frag: HmFragment, idx: nat, f: Fragment)
      requires slots.Length == FLIGHT && idx < FLIGHT && frag == slots[idx] && slots !in footprint && this !in footprint
      requires (forall k: nat :: k < FLIGHT ==> SlotOk(k)) && SlotsApart()
      requires frag.Valid() && frag.reassembly != null && frag.msgLen == f.msgLen && f.off + |f.body| <= f.msgLen
      modifies footprint
      ensures (forall k: nat :: k < FLIGHT && k != idx ==> SlotOk(k)) && SlotsApart()
      ensures frag in footprint && Owned(frag, footprint) && frag.Valid() && Holds(frag, frag.View())
      ensures frag.View() == old(frag.View()).(bytes := Overlay(old(frag.View().bytes), f.off, f.body))
    {
      assert SlotOk(idx);
      ghost var objects := ObjectsOf(frag);
      hide HmFragment.View, Nothing, AllIn;
      frag.Fill(f.off, f.body);
      hide HmFragment.Valid, Overlay;
      assert ObjectsOf(frag) <= objects;
      forall k: nat | k < FLIGHT && k != idx && slots[k] != null ensures SlotOk(k) && Apart(slots[k], frag) {
        assert old(SlotOk(k));
        assert objects !! old(ObjectsOf(slots[k]));
      }
      assert forall j, k :: 0 <= j < k < FLIGHT && j != idx && k != idx && slots[j] != null && slots[k] != null ==>
                              Apart(slots[j], slots[k]);
    }

    /** Copies the body of `f` into the slot of its message and marks what came. */
    method FillSlot(frag: HmFragment, f: Fragment)
      requires Valid() && f.seqno in window.slots && |window.slots[f.seqno].bytes| == f.msgLen
      requires frag == slots[f.seqno % FLIGHT] && frag.seqno == f.seqno && Holds(frag, window.slots[f.seqno])
      requires frag.reassembly != null && frag.msgLen == f.msgLen && f.off + |f.body| <= f.msgLen
      modifies this`window, footprint
      ensures Valid() && !AllIn(old(window).slots[f.seqno].bytes)
      ensures window == old(window).(slots := old(window).slots[f.seqno :=
        old(window).slots[f.seqno].(bytes := Overlay(old(window).slots[f.seqno].bytes, f.off, f.body))])
    {
      hide HmFragment.Valid, Apart, ObjectsOf, AllIn, Overlay;
      var idx := f.seqno % FLIGHT;
      FillOnly(frag, idx, f);
      forall k: nat | k < FLIGHT && k != idx && slots[k] != null ensures slots[k].seqno != f.seqno {
        assert SlotOk(k);
      }
      label L:
      window := window.(slots := window.slots[f.seqno := frag.View()]);
      forall k: nat | k < FLIGHT && k != idx ensures SlotOk(k) {
        assert old@L(SlotOk(k));
      }
      assert SlotOk(idx);
    }

    /** The handshake branch of `dtls1_open_handshake`, for a record that has been decrypted. */
    method OpenHandshake(record: Slice) returns (alert: Option<Alert>)
      requires Valid()
      modifies this, slots, footprint
      ensures Valid() && fresh(footprint - old(footprint))
      ensures Taken(window, alert) == Open(old(window), record, limits)
    {
      hide Take, HmFragment.Valid, SlotOk, SlotsApart;
      var rest := record;
      alert := None;
      while rest != []
        invariant Valid() && fresh(footprint - old(footprint)) && alert.None?
        invariant Open(window, rest, limits) == Open(old(window), record, limits)
        decreases |rest|
      {
        var parsed := ParseFragment(rest);
        if parsed.None? {
          return Some(DecodeError);
        }
        alert := TakeFragment(parsed.value.fragment);
        if alert.Some? {
          return;
        }
        rest := parsed.value.rest;
      }
    }

    /** `dtls1_get_message`: the current message, as a body and as it was sent whole, if all of it is there. */
    method GetMessage() returns (found: bool, kind: Byte, body: Slice, raw: Slice)
      requires Valid()
      modifies this`hasMessage
      ensures Valid() && found == CanConsume(window)
      ensures found ==> hasMessage && Message(kind, body) == Assembled(window.slots[readSeq])
      ensures found ==>
                Sendable(Message(kind, body), readSeq) && raw == EncodeFragment(Whole(Message(kind, body), readSeq))
    {
      var frag := slots[readSeq % FLIGHT];
      assert SlotOk(readSeq % FLIGHT);
      if frag != null { SameSlot(window, frag.seqno, readSeq); }
      if frag == null || frag.reassembly != null {
        return false, 0, [], [];
      }
      frag.WholeMessage();
      assert window.slots[readSeq] == frag.View();
      hide HmFragment.Valid, HmFragment.View, Assembled, AllIn;
      found, kind, body, raw, hasMessage := true, frag.kind, frag.data[HEADER_LENGTH..], frag.data[..], true;
    }

    /** `dtls1_next_message`. */
    method Next()
      requires Valid() && hasMessage && CanConsume(window)
      modifies this`readSeq, this`hasMessage, this`window, slots
      ensures Valid() && !hasMessage && window == Consume(old(window)) && footprint == old(footprint)
    {
      hide HmFragment.Valid, HmFragment.View, Holds;
      var idx := readSeq % FLIGHT;
      slots[idx] := null;
      readSeq := readSeq + 1;
      hasMessage := false;
      window := Consume(window);
      forall k: nat | k < FLIGHT ensures SlotOk(k) {
        assert old(SlotOk(k));
      }
    }

    /** `dtls_has_unprocessed_handshake_data`: anything but the message that is being looked at. */
    method HasUnprocessedData() returns (r: bool)
      requires Valid() && (hasMessage ==> CanConsume(window))
      ensures r <==> exists q :: q in window.slots && !(hasMessage && q == readSeq)
    {
      var current := readSeq % FLIGHT;
      for i := 0 to FLIGHT
        invariant forall q :: q in window.slots && q % FLIGHT < i ==> hasMessage && q == readSeq
      {
        assert SlotOk(i);
        if !(hasMessage && i == current) && slots[i] != null {
          assert slots[i].seqno in window.slots;
          return true;
        }
        forall q | q in window.slots && q % FLIGHT == i ensures hasMessage && q == readSeq {
          SameSlot(window, q, readSeq);
        }
      }
      r := false;
    }
  }

  /** Two messages of the window that share a slot are the same. */
  lemma SameSlot(w: Window, p: nat, q: nat)
    requires InWindow(w) && p in w.slots && w.readSeq <= q < w.readSeq + FLIGHT && p % FLIGHT == q % FLIGHT
    ensures p == q
  {
  }
}
