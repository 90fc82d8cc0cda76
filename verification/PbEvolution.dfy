/**
 Two ends with different versions of a schema: the writer's message as the reader sees it. Fields that the reader does
 not know are skipped, those that the writer does not know get their defaults, and sizes and widths may differ.
 */
module PbEvolution {
  import opened Basics
  import opened Coding
  import opened PbSchema
  import opened PbDecode
  import opened PbIntegers

  // ---------------------------------------------------------------------------------------------------------------
  // What the reader makes of the writer's message.

  /** Fields with the same tag are of the same type, up to widths, sizes and whether they are required. */
  ghost predicate Agree(rs: seq<Field>, ws: seq<Field>)
    decreases ws
  {
    forall i, j :: 0 <= i < |rs| && 0 <= j < |ws| && rs[i].tag == ws[j].tag ==> FieldsAgree(rs[i], ws[j])
  }

  ghost predicate FieldsAgree(r: Field, w: Field)
    decreases w
  {
    (r.rule.Repeated? <==> w.rule.Repeated?) && KindsAgree(r.kind, w.kind)
  }

  ghost predicate KindsAgree(r: Kind, w: Kind)
    decreases w
  {
    match w
    case BoolKind => r.BoolKind?
    case VarintKind(_) => r.VarintKind?
    case UVarintKind(_) => r.UVarintKind?
    case SVarintKind(_) => r.SVarintKind?
    case Fixed32Kind => r.Fixed32Kind?
    case Fixed64Kind => r.Fixed64Kind?
    case BytesKind(_) => r.BytesKind?
    case StringKind(_) => r.StringKind?
    case MessageKind(ws) => r.MessageKind? && Agree(r.fields, ws)
  }

  /** A signed integer in a field of up to 32 bits: the low half of the number. */
  function ConvertedInt(r: Kind, x: int): int {
    if r.VarintKind? && r.width != 8 then Signed(x, 4) else x
  }

  function Converted(r: Kind, w: Kind, v: Value): Value
    decreases w, 0
  {
    match v
    case IntValue(x) => IntValue(ConvertedInt(r, x))
    case MessageValue(m) =>
      if r.MessageKind? && w.MessageKind? then MessageValue(ConvertedMessage(r.fields, w.fields, m)) else v
    case _ => v
  }

  function ConvertedAll(r: Kind, w: Kind, vs: seq<Value>): (us: seq<Value>)
    ensures |us| == |vs|
    decreases w, 1
  {
    seq(|vs|, j requires 0 <= j < |vs| => Converted(r, w, vs[j]))
  }

  function ConvertedContent(r: Field, w: Field, c: Content): Content
    decreases w
  {
    match c
    case Single(present, v) => if present then Single(true, Converted(r.kind, w.kind, v)) else DefaultContent(r)
    case Many(vs) => Many(ConvertedAll(r.kind, w.kind, vs))
  }

  function ConvertedField(r: Field, ws: seq<Field>, m: Message): Content
    decreases ws, 0
  {
    match Find(ws, r.tag)
    case None => DefaultContent(r)
    case Some(k) => if k < |m| then ConvertedContent(r, ws[k], m[k]) else DefaultContent(r)
  }

  function ConvertedMessage(rs: seq<Field>, ws: seq<Field>, m: Message): (c: Message)
    ensures |c| == |rs|
    decreases ws, 1
  {
    seq(|rs|, j requires 0 <= j < |rs| => ConvertedField(rs[j], ws, m))
  }

  /** The value fits the reader's field. */
  ghost predicate AcceptsValue(r: Kind, w: Kind, v: Value)
    decreases w, 0
  {
    match r
    case VarintKind(width) => v.IntValue? ==> FitsSigned(ConvertedInt(r, v.number), width)
    case UVarintKind(width) => v.IntValue? ==> v.number < Pow256(width)
    case SVarintKind(width) => v.IntValue? ==> FitsSigned(v.number, width)
    case BytesKind(n) => v.BytesValue? ==> |v.bytes| <= n
    case StringKind(n) => v.StringValue? ==> |v.chars| < n
    case MessageKind(rs) => w.MessageKind? && v.MessageValue? ==> Accepts(rs, w.fields, v.contents)
    case _ => true
  }

  ghost predicate AcceptsAll(r: Kind, w: Kind, vs: seq<Value>)
    decreases w, 1
  {
    forall j :: 0 <= j < |vs| ==> AcceptsValue(r, w, vs[j])
  }

  ghost predicate AcceptsContent(r: Field, w: Field, c: Content)
    decreases w, 0
  {
    match c
    case Single(present, v) => present ==> AcceptsValue(r.kind, w.kind, v)
    case Many(vs) => (r.rule.Repeated? ==> |vs| <= r.rule.arraySize) && AcceptsAll(r.kind, w.kind, vs)
  }

  ghost predicate AcceptsField(rs: seq<Field>, w: Field, c: Content)
    decreases w, 1
  {
    match Find(rs, w.tag)
    case None => true
    case Some(j) => AcceptsContent(rs[j], w, c)
  }

  predicate IsSent(c: Content) {
    match c
    case Single(present, v) => present
    case Many(vs) => vs != []
  }

  /** The writer has sent the field. */
  predicate Sends(ws: seq<Field>, m: Message, tag: nat) {
    match Find(ws, tag)
    case None => false
    case Some(k) => k < |m| && IsSent(m[k])
  }

  /** What is sent fits the reader, and of the reader's first 64 required fields none is missing. */
  ghost predicate Accepts(rs: seq<Field>, ws: seq<Field>, m: Message)
    decreases ws
  {
    && (forall k :: 0 <= k < |ws| && k < |m| ==> AcceptsField(rs, ws[k], m[k]))
    && forall j :: 0 <= j < |rs| && rs[j].rule.Required? && RequiredIndex(rs, j) < 64 ==> Sends(ws, m, rs[j].tag)
  }

  // ---------------------------------------------------------------------------------------------------------------
  // Values.

  lemma SignedFits(x: int, width: nat)
    requires IsWidth(width)
    ensures Signed(x, width) == x <==> FitsSigned(x, width)
  {
    PowBytes();
  }

  /** In 32 bits the two's complement of 64 bits and the number itself are the same. */
  lemma LowHalf(x: int)
    requires FitsSigned(x, 8)
    ensures 0 <= Unsigned64(x) < TWO_64 && Signed(Unsigned64(x), 8) == x && Signed(Unsigned64(x), 4) == Signed(x, 4)
  {
    PowBytes();
    SameLowHalf(x);
  }

  lemma SameLowHalf(x: int)
    ensures (x + 0x1_0000_0000_0000_0000) % 0x1_0000_0000 == x % 0x1_0000_0000
  {
  }

  lemma FitsEight(x: int, width: nat)
    requires IsWidth(width) && FitsSigned(x, width)
    ensures FitsSigned(x, 8)
  {
    PowBytes();
  }

  lemma SignedRead(r: Kind, x: int, width: nat, rest: Slice)
    requires KindOk(r) && r.VarintKind? && IsWidth(width) && FitsSigned(x, width)
    ensures DecodeInteger(r, Varint(Unsigned64(x)) + rest) ==
            if FitsSigned(ConvertedInt(r, x), r.width) then Some(Got(IntValue(ConvertedInt(r, x)), rest)) else None
  {
    FitsEight(x, width);
    LowHalf(x);
    SignedFits(ConvertedInt(r, x), r.width);
    Varint64RoundTrip(Unsigned64(x), rest);
    hide Signed, FitsSigned, Unsigned64, Varint, ReadVarint64;
  }

  lemma UnsignedRead(r: Kind, x: nat, width: nat, rest: Slice)
    requires KindOk(r) && r.UVarintKind? && IsWidth(width) && x < Pow256(width)
    ensures DecodeInteger(r, Varint(Unsigned64(x)) + rest) ==
            if x < Pow256(r.width) then Some(Got(IntValue(x), rest)) else None
  {
    PowBytes();
    Varint64RoundTrip(x, rest);
    hide Varint, ReadVarint64;
  }

  lemma ZigzagRead(r: Kind, x: int, width: nat, rest: Slice)
    requires KindOk(r) && r.SVarintKind? && IsWidth(width) && FitsSigned(x, width)
    ensures DecodeInteger(r, Varint(Zigzag(x)) + rest) ==
            if FitsSigned(x, r.width) then Some(Got(IntValue(x), rest)) else None
  {
    FitsEight(x, width);
    UnzigzagZigzag(x);
    SignedFits(x, r.width);
    Varint64RoundTrip(Zigzag(x), rest);
    hide Signed, FitsSigned, Zigzag, Unzigzag, Varint, ReadVarint64;
  }

  lemma IntegerRead(r: Kind, w: Kind, v: Value, rest: Slice)
    requires KindOk(r) && KindOk(w) && KindsAgree(r, w) && Packable(w) && Typed(w, v)
    ensures Packable(r)
    ensures DecodeInteger(r, EncodeValue(w, v) + rest) ==
            if AcceptsValue(r, w, v) then Some(Got(Converted(r, w, v), rest)) else None
  {
    match w
    case BoolKind => Varint32RoundTrips(if v.flag then 1 else 0, rest);
    case VarintKind(width) => SignedRead(r, v.number, width, rest);
    case UVarintKind(width) => UnsignedRead(r, v.number, width, rest);
    case SVarintKind(width) => ZigzagRead(r, v.number, width, rest);
    case Fixed32Kind => FixedRoundTrip(v.number, 4, rest);
    case Fixed64Kind => FixedRoundTrip(v.number, 8, rest);
  }

  /** Reading these values of a packed array and what follows them. */
  ghost predicate PackedAreRead(r: Kind, w: Kind, vs: seq<Value>, tail: Slice, acc: seq<Value>, arraySize: nat)
    requires KindOk(r)
  {
    DecodePacked(r, EncodePacked(w, vs) + tail, acc, arraySize) ==
    if |acc| + |vs| <= arraySize && AcceptsAll(r, w, vs)
    then DecodePacked(r, tail, acc + ConvertedAll(r, w, vs), arraySize)
    else None
  }

  lemma {:induction false} PackedRead(r: Kind, w: Kind, vs: seq<Value>, tail: Slice, acc: seq<Value>, arraySize: nat)
    requires KindOk(r) && KindOk(w) && KindsAgree(r, w) && Packable(w) && |acc| <= arraySize
    requires forall j :: 0 <= j < |vs| ==> Typed(w, vs[j])
    ensures PackedAreRead(r, w, vs, tail, acc, arraySize)
    decreases |vs|
  {
    if vs == [] {
      assert EncodePacked(w, vs) + tail == tail && acc + ConvertedAll(r, w, vs) == acc;
    } else {
      hide *;
      PackedRead(r, w, vs[..|vs| - 1], EncodeValue(w, vs[|vs| - 1]) + tail, acc, arraySize);
      PackedReadLast(r, w, vs, tail, acc, arraySize);
    }
  }

  lemma PackedReadLast(r: Kind, w: Kind, vs: seq<Value>, tail: Slice, acc: seq<Value>, arraySize: nat)
    requires KindOk(r) && KindOk(w) && KindsAgree(r, w) && Packable(w) && |acc| <= arraySize
    requires vs != [] && Typed(w, vs[|vs| - 1])
    requires PackedAreRead(r, w, vs[..|vs| - 1], EncodeValue(w, vs[|vs| - 1]) + tail, acc, arraySize)
    ensures PackedAreRead(r, w, vs, tail, acc, arraySize)
  {
    var n := |vs| - 1;
    PackedSnoc(w, vs, tail);
    AcceptsSnoc(r, w, vs);
    ConvertedSnoc(r, w, vs);
    hide EncodeValue, EncodePacked, DecodePacked, ConvertedAll, AcceptsAll, AcceptsValue, Converted, KindsAgree, KindOk,
         Typed, Packable;
    assert acc + ConvertedAll(r, w, vs) == acc + ConvertedAll(r, w, vs[..n]) + [Converted(r, w, vs[n])];
    if |acc| + n <= arraySize { PackedStep(r, w, vs[n], tail, acc + ConvertedAll(r, w, vs[..n]), arraySize); }
  }

  lemma PackedSnoc(w: Kind, vs: seq<Value>, tail: Slice)
    requires vs != []
    ensures EncodePacked(w, vs) + tail ==
            EncodePacked(w, vs[..|vs| - 1]) + (EncodeValue(w, vs[|vs| - 1]) + tail)
  {
    hide EncodeValue;
  }

  lemma ConvertedSnoc(r: Kind, w: Kind, vs: seq<Value>)
    requires vs != []
    ensures ConvertedAll(r, w, vs) == ConvertedAll(r, w, vs[..|vs| - 1]) + [Converted(r, w, vs[|vs| - 1])]
  {
    hide Converted;
  }

  lemma AcceptsSnoc(r: Kind, w: Kind, vs: seq<Value>)
    requires vs != []
    ensures AcceptsAll(r, w, vs) <==> AcceptsAll(r, w, vs[..|vs| - 1]) && AcceptsValue(r, w, vs[|vs| - 1])
  {
    hide AcceptsValue;
    forall j | 0 <= j < |vs| ensures vs[j] == if j < |vs| - 1 then vs[..|vs| - 1][j] else vs[|vs| - 1] {
    }
  }

  lemma PackedStep(r: Kind, w: Kind, v: Value, tail: Slice, acc: seq<Value>, arraySize: nat)
    requires KindOk(r) && KindOk(w) && KindsAgree(r, w) && Packable(w) && Typed(w, v) && |acc| <= arraySize
    ensures DecodePacked(r, EncodeValue(w, v) + tail, acc, arraySize) ==
            if |acc| < arraySize && AcceptsValue(r, w, v)
            then DecodePacked(r, tail, acc + [Converted(r, w, v)], arraySize)
            else None
  {
    IntegerRead(r, w, v, tail);
    NotEmpty(w, v, tail);
    hide EncodeValue, DecodeInteger, AcceptsValue, Converted, KindsAgree;
  }

  lemma NotEmpty(w: Kind, v: Value, tail: Slice)
    requires KindOk(w) && Packable(w) && Typed(w, v)
    ensures EncodeValue(w, v) + tail != []
  {
  }

  // ---------------------------------------------------------------------------------------------------------------
  // Tags.

  lemma TagBounds(tag: nat, wire: nat, s: Slice)
    requires 0 < tag < 0x2000_0000 && wire < 8
    ensures ReadVarint32(Tag(wire, tag) + s) == Some(Got(tag * 8 + wire, s))
    ensures (tag * 8 + wire) / 8 == tag && (tag * 8 + wire) % 8 == wire
  {
    Varint32RoundTrips(tag * 8 + wire, s);
  }

  /** What the loop makes of a tag: the field is found again. */
  lemma TagRead(fs: seq<Field>, i: nat, wire: nat, s: Slice, m: Message, seen: set<nat>)
    requires SchemaOk(fs) && i < |fs| == |m| && wire < 8
    ensures FieldOk(fs[i])
    ensures DecodeFields(fs, Tag(wire, fs[i].tag) + s, m, seen) ==
            match DecodeContent(fs[i], wire, s, m[i]) {
              case None => None
              case Some(h) => DecodeFields(fs, h.rest, m[i := h.value], seen + {i})
            }
  {
    assert FieldOk(fs[i]);
    TagBounds(fs[i].tag, wire, s);
    assert Tag(wire, fs[i].tag) + s != [];
    assert Find(fs, fs[i].tag) == Some(i);
    hide DecodeContent, Tag, ReadVarint32;
  }

  lemma TagSkipped(fs: seq<Field>, tag: nat, wire: nat, s: Slice, m: Message, seen: set<nat>)
    requires SchemaOk(fs) && |fs| == |m| && wire < 8 && 0 < tag < 0x2000_0000 && Find(fs, tag).None?
    ensures DecodeFields(fs, Tag(wire, tag) + s, m, seen) ==
            match SkipField(wire, s) { case None => None case Some(rest) => DecodeFields(fs, rest, m, seen) }
  {
    TagBounds(tag, wire, s);
    assert Tag(wire, tag) + s != [];
    hide Tag, ReadVarint32, SkipField;
  }

  // ---------------------------------------------------------------------------------------------------------------
  // Unknown fields.

  lemma {:induction false} UnpackedSkipped(rs: seq<Field>, w: Field, vs: seq<Value>, tail: Slice, m: Message,
                                           seen: set<nat>)
    requires SchemaOk(rs) && |rs| == |m| && FieldOk(w) && Find(rs, w.tag).None? && |EncodeUnpacked(w, vs)| < TWO_32
    requires forall j :: 0 <= j < |vs| ==> Typed(w.kind, vs[j])
    ensures DecodeFields(rs, EncodeUnpacked(w, vs) + tail, m, seen) == DecodeFields(rs, tail, m, seen)
    decreases |vs|
  {
    if vs == [] {
      assert EncodeUnpacked(w, vs) + tail == tail;
    } else {
      var n := |vs| - 1;
      UnpackedSnoc(w, vs, tail);
      SkipsValue(w.kind, vs[n], tail);
      TagSkipped(rs, w.tag, WireType(w.kind), EncodeValue(w.kind, vs[n]) + tail, m, seen);
      hide *;
      UnpackedSkipped(rs, w, vs[..n], Tag(WireType(w.kind), w.tag) + (EncodeValue(w.kind, vs[n]) + tail), m, seen);
    }
  }

  lemma {:induction false} UnpackedSnoc(f: Field, vs: seq<Value>, tail: Slice)
    requires vs != []
    ensures EncodeUnpacked(f, vs) + tail ==
            EncodeUnpacked(f, vs[..|vs| - 1]) +
                (Tag(WireType(f.kind), f.tag) + (EncodeValue(f.kind, vs[|vs| - 1]) + tail))
    ensures |EncodeUnpacked(f, vs[..|vs| - 1])| <= |EncodeUnpacked(f, vs)|
    ensures |EncodeValue(f.kind, vs[|vs| - 1])| <= |EncodeUnpacked(f, vs)|
  {
    hide EncodeValue, Tag;
  }

  lemma PackedShape(f: Field, vs: seq<Value>, tail: Slice)
    requires vs != [] && Packable(f.kind)
    ensures EncodeContent(f, Many(vs)) + tail ==
            Tag(WIRE_STRING, f.tag) + (Prefixed(EncodePacked(f.kind, vs)) + tail)
    ensures |EncodePacked(f.kind, vs)| <= |EncodeContent(f, Many(vs))|
  {
    hide Tag, EncodePacked;
  }

  /** A field that the reader does not know makes no difference, whatever is in it. */
  lemma ContentSkipped(rs: seq<Field>, w: Field, c: Content, tail: Slice, m: Message, seen: set<nat>)
    requires SchemaOk(rs) && |rs| == |m| && FieldOk(w) && Find(rs, w.tag).None?
    requires TypedContent(w, c) && |EncodeContent(w, c)| < TWO_32
    ensures DecodeFields(rs, EncodeContent(w, c) + tail, m, seen) == DecodeFields(rs, tail, m, seen)
  {
    var s := EncodeContent(w, c);
    match c
    case Single(present, v) =>
      if present {
        assert s + tail == Tag(WireType(w.kind), w.tag) + (EncodeValue(w.kind, v) + tail);
        SkipsValue(w.kind, v, tail);
        TagSkipped(rs, w.tag, WireType(w.kind), EncodeValue(w.kind, v) + tail, m, seen);
      } else {
        assert s + tail == tail;
      }
    case Many(vs) =>
      if vs == [] {
        assert s + tail == tail;
      } else if Packable(w.kind) {
        PackedShape(w, vs, tail);
        var packed := EncodePacked(w.kind, vs);
        StringRoundTrip(packed, tail);
        hide DecodeFields, EncodePacked, Prefixed, ReadString, Tag;
        TagSkipped(rs, w.tag, WIRE_STRING, Prefixed(packed) + tail, m, seen);
      } else {
        UnpackedSkipped(rs, w, vs, tail, m, seen);
      }
  }

  // ---------------------------------------------------------------------------------------------------------------
  // Known fields.

  /** A value comes as far as it fits the reader, and nothing behind it is touched. */
  lemma {:induction false} ValueRead(r: Kind, w: Kind, isNew: bool, before: Value, v: Value, rest: Slice)
    requires KindOk(r) && KindOk(w) && KindsAgree(r, w) && Typed(w, v) && |EncodeValue(w, v)| < TWO_32
    requires r.MessageKind? && !isNew ==> before == MessageValue(Defaults(r.fields))
    ensures DecodeValue(r, isNew, before, EncodeValue(w, v) + rest) ==
            if AcceptsValue(r, w, v) then Some(Got(Converted(r, w, v), rest)) else None
    decreases w, 0
  {
    match w
    case BytesKind(n) => StringRoundTrip(v.bytes, rest);
    case StringKind(n) => StringRoundTrip(v.chars, rest); NoNul(v.chars);
    case MessageKind(ws) =>
      StringRoundTrip(EncodeMessage(ws, v.contents, 0), rest);
      MessageRead(r.fields, ws, v.contents);
    case _ => IntegerRead(r, w, v, rest);
  }

  /**
   The main result: of what the writer encodes the reader makes its own version of the message, with defaults for what
   the writer did not send, exactly when all that it knows fits its fields and no required one is missing.
   */
  lemma {:induction false} MessageRead(rs: seq<Field>, ws: seq<Field>, m: Message)
    requires SchemaOk(rs) && SchemaOk(ws) && Agree(rs, ws) && TypedMessage(ws, m) && |EncodeMessage(ws, m, 0)| < TWO_32
    ensures DecodeInto(rs, EncodeMessage(ws, m, 0), Defaults(rs)) ==
            if Accepts(rs, ws, m) then Some(ConvertedMessage(rs, ws, m)) else None
    decreases ws, |ws| + 1
  {
    FieldsRead(rs, ws, m, 0, Defaults(rs), {});
    SentIsSeen(rs, ws, m);
  }

  /** The reader's fields that the first `i` of the writer's have reached. */
  ghost predicate ReadUpTo(rs: seq<Field>, ws: seq<Field>, m: Message, i: nat, current: Message, seen: set<nat>) {
    && |current| == |rs| && |m| == |ws|
    && (forall j :: 0 <= j < |rs| ==>
          current[j] == if Reached(ws, i, rs[j].tag) then ConvertedField(rs[j], ws, m) else DefaultContent(rs[j]))
    && forall j :: 0 <= j < |rs| ==> (j in seen <==> Reached(ws, i, rs[j].tag) && Sends(ws, m, rs[j].tag))
  }

  predicate Reached(ws: seq<Field>, i: nat, tag: nat) {
    match Find(ws, tag)
    case None => false
    case Some(k) => k < i
  }

  ghost function AllSent(rs: seq<Field>, ws: seq<Field>, m: Message): set<nat> {
    set j | 0 <= j < |rs| && Sends(ws, m, rs[j].tag)
  }

  lemma SentIsSeen(rs: seq<Field>, ws: seq<Field>, m: Message)
    requires |m| == |ws|
    ensures AllSeen(rs, AllSent(rs, ws, m)) <==>
            forall j :: 0 <= j < |rs| && rs[j].rule.Required? && RequiredIndex(rs, j) < 64 ==> Sends(ws, m, rs[j].tag)
  {
  }

  ghost predicate AcceptsFrom(rs: seq<Field>, ws: seq<Field>, m: Message, i: nat)
    requires |m| == |ws|
  {
    forall k :: i <= k < |ws| ==> AcceptsField(rs, ws[k], m[k])
  }

  /** The writer's fields from `i` on: all are taken in or skipped, or one of them is the first that does not fit. */
  lemma {:induction false} FieldsRead(rs: seq<Field>, ws: seq<Field>, m: Message, i: nat, current: Message,
                                      seen: set<nat>)
    requires SchemaOk(rs) && SchemaOk(ws) && Agree(rs, ws) && TypedMessage(ws, m) && |EncodeMessage(ws, m, i)| < TWO_32
    requires i <= |ws| && ReadUpTo(rs, ws, m, i, current, seen) && forall j :: j in seen ==> 0 <= j < |rs|
    ensures DecodeFields(rs, EncodeMessage(ws, m, i), current, seen) ==
            if AcceptsFrom(rs, ws, m, i) then Some((ConvertedMessage(rs, ws, m), AllSent(rs, ws, m))) else None
    decreases ws, |ws| - i
  {
    if i == |ws| {
      AllRead(rs, ws, m, current, seen);
    } else {
      var tail := EncodeMessage(ws, m, i + 1);
      assert TypedContent(ws[i], m[i]) && FieldOk(ws[i]);
      assert EncodeMessage(ws, m, i) == EncodeContent(ws[i], m[i]) + tail;
      assert AcceptsFrom(rs, ws, m, i) <==> AcceptsField(rs, ws[i], m[i]) && AcceptsFrom(rs, ws, m, i + 1);
      var place := Find(rs, ws[i].tag);
      if place.None? {
        ContentSkipped(rs, ws[i], m[i], tail, current, seen);
        NoneReached(rs, ws, m, i, current, seen);
        hide *;
        FieldsRead(rs, ws, m, i + 1, current, seen);
      } else {
        var j := place.value;
        assert FieldsAgree(rs[j], ws[i]);
        NotYetReached(rs, ws, m, i, j, current, seen);
        ContentRead(rs, rs[j], j, ws[i], m[i], tail, current, seen);
        OneReached(rs, ws, m, i, j, current, seen);
        assert AcceptsField(rs, ws[i], m[i]) <==> AcceptsContent(rs[j], ws[i], m[i]);
        hide *;
        if AcceptsContent(rs[j], ws[i], m[i]) {
          FieldsRead(rs, ws, m, i + 1, current[j := ConvertedContent(rs[j], ws[i], m[i])], SeenWith(seen, j, m[i]));
        }
      }
    }
  }

  function SeenWith(seen: set<nat>, j: nat, c: Content): set<nat> {
    if IsSent(c) then seen + {j} else seen
  }

  lemma FoundAt(fs: seq<Field>, i: nat)
    requires SchemaOk(fs) && i < |fs|
    ensures Find(fs, fs[i].tag) == Some(i)
  {
  }

  lemma TagsDiffer(fs: seq<Field>, i: nat)
    requires SchemaOk(fs) && i < |fs|
    ensures forall k :: 0 <= k < |fs| && k != i ==> fs[k].tag != fs[i].tag
  {
  }

  lemma AllRead(rs: seq<Field>, ws: seq<Field>, m: Message, current: Message, seen: set<nat>)
    requires ReadUpTo(rs, ws, m, |ws|, current, seen) && forall j :: j in seen ==> 0 <= j < |rs|
    ensures current == ConvertedMessage(rs, ws, m) && seen == AllSent(rs, ws, m)
  {
    hide ConvertedContent;
    forall j | 0 <= j < |rs| ensures current[j] == ConvertedField(rs[j], ws, m) {
    }
  }

  lemma NoneReached(rs: seq<Field>, ws: seq<Field>, m: Message, i: nat, current: Message, seen: set<nat>)
    requires SchemaOk(ws) && i < |ws| && ReadUpTo(rs, ws, m, i, current, seen) && Find(rs, ws[i].tag).None?
    ensures ReadUpTo(rs, ws, m, i + 1, current, seen)
  {
    FoundAt(ws, i);
    hide ConvertedField, SchemaOk;
    forall j | 0 <= j < |rs| ensures Reached(ws, i + 1, rs[j].tag) <==> Reached(ws, i, rs[j].tag) {
    }
  }

  lemma NotYetReached(rs: seq<Field>, ws: seq<Field>, m: Message, i: nat, j: nat, current: Message, seen: set<nat>)
    requires SchemaOk(ws) && i < |ws| && ReadUpTo(rs, ws, m, i, current, seen) && Find(rs, ws[i].tag) == Some(j)
    ensures current[j] == DefaultContent(rs[j])
  {
    FoundAt(ws, i);
  }

  lemma OneReached(rs: seq<Field>, ws: seq<Field>, m: Message, i: nat, j: nat, current: Message, seen: set<nat>)
    requires SchemaOk(rs) && SchemaOk(ws) && i < |ws| && ReadUpTo(rs, ws, m, i, current, seen)
    requires Find(rs, ws[i].tag) == Some(j)
    ensures ReadUpTo(rs, ws, m, i + 1, current[j := ConvertedContent(rs[j], ws[i], m[i])], SeenWith(seen, j, m[i]))
    ensures (forall k :: k in seen ==> 0 <= k < |rs|) ==> forall k :: k in SeenWith(seen, j, m[i]) ==> 0 <= k < |rs|
  {
    FoundAt(ws, i);
    assert ConvertedField(rs[j], ws, m) == ConvertedContent(rs[j], ws[i], m[i]);
    TagsDiffer(rs, j);
    hide ConvertedField, ConvertedContent, SchemaOk, IsSent;
    forall k | 0 <= k < |rs|
      ensures Reached(ws, i + 1, rs[k].tag) <==> Reached(ws, i, rs[k].tag) || k == j
      ensures k == j ==> (Sends(ws, m, rs[k].tag) <==> IsSent(m[i]))
    {
    }
  }

  lemma {:induction false} ContentRead(rs: seq<Field>, r: Field, j: nat, w: Field, c: Content, tail: Slice, m: Message,
                                       seen: set<nat>)
    requires SchemaOk(rs) && j < |rs| == |m| && r == rs[j] && m[j] == DefaultContent(r)
    requires FieldOk(w) && w.tag == r.tag && FieldsAgree(r, w) && TypedContent(w, c) && |EncodeContent(w, c)| < TWO_32
    ensures DecodeFields(rs, EncodeContent(w, c) + tail, m, seen) ==
            if AcceptsContent(r, w, c)
            then DecodeFields(rs, tail, m[j := ConvertedContent(r, w, c)], SeenWith(seen, j, c))
            else None
    decreases w, 2
  {
    assert FieldOk(r);
    var s := EncodeContent(w, c);
    match c
    case Single(present, v) =>
      if present {
        var payload := EncodeValue(w.kind, v);
        assert s + tail == Tag(WireType(w.kind), r.tag) + (payload + tail);
        ValueRead(r.kind, w.kind, false, m[j].value, v, tail);
        TagRead(rs, j, WireType(w.kind), payload + tail, m, seen);
        hide DecodeFields, DecodeValue, AcceptsValue, Converted;
      } else {
        assert s + tail == tail && m[j := DefaultContent(r)] == m;
      }
    case Many(vs) =>
      if vs == [] {
        assert s + tail == tail && m[j := Many([])] == m && ConvertedAll(r.kind, w.kind, vs) == [];
      } else if Packable(w.kind) {
        PackedContentRead(rs, r, j, w, vs, tail, m, seen);
      } else {
        assert m[j := Many([])] == m;
        UnpackedRead(rs, r, j, w, vs, tail, m, seen);
      }
  }

  lemma PackedContentRead(rs: seq<Field>, r: Field, j: nat, w: Field, vs: seq<Value>, tail: Slice, m: Message,
                          seen: set<nat>)
    requires SchemaOk(rs) && j < |rs| == |m| && r == rs[j] && m[j] == Many([]) && r.rule.Repeated? && FieldOk(r)
    requires FieldOk(w) && w.tag == r.tag && KindsAgree(r.kind, w.kind) && Packable(w.kind) && vs != []
    requires |EncodeContent(w, Many(vs))| < TWO_32 && forall i :: 0 <= i < |vs| ==> Typed(w.kind, vs[i])
    ensures DecodeFields(rs, EncodeContent(w, Many(vs)) + tail, m, seen) ==
            if |vs| <= r.rule.arraySize && AcceptsAll(r.kind, w.kind, vs)
            then DecodeFields(rs, tail, m[j := Many(ConvertedAll(r.kind, w.kind, vs))], seen + {j})
            else None
  {
    var payload := Prefixed(EncodePacked(w.kind, vs));
    PackedShape(w, vs, tail);
    PackedDecoded(r, w, vs, tail);
    hide DecodeFields, DecodeContent, EncodeContent, ConvertedAll, AcceptsAll, Tag, Prefixed, EncodePacked, SchemaOk,
         FieldOk, Typed, KindsAgree;
    TagRead(rs, j, WIRE_STRING, payload + tail, m, seen);
  }

  lemma PackedDecoded(r: Field, w: Field, vs: seq<Value>, tail: Slice)
    requires FieldOk(r) && FieldOk(w) && r.rule.Repeated? && KindsAgree(r.kind, w.kind) && Packable(w.kind)
    requires |EncodePacked(w.kind, vs)| < TWO_32 && forall i :: 0 <= i < |vs| ==> Typed(w.kind, vs[i])
    ensures DecodeContent(r, WIRE_STRING, Prefixed(EncodePacked(w.kind, vs)) + tail, Many([])) ==
            if |vs| <= r.rule.arraySize && AcceptsAll(r.kind, w.kind, vs)
            then Some(Got(Many(ConvertedAll(r.kind, w.kind, vs)), tail))
            else None
  {
    PackedPayload(r.kind, w.kind, vs, tail, r.rule.arraySize);
    assert Packable(r.kind);
    hide ReadString, PackedIn, Prefixed, EncodePacked, Typed, AcceptsAll, ConvertedAll;
  }

  lemma PackedPayload(r: Kind, w: Kind, vs: seq<Value>, tail: Slice, arraySize: nat)
    requires KindOk(r) && KindOk(w) && KindsAgree(r, w) && Packable(w) && |EncodePacked(w, vs)| < TWO_32
    requires forall i :: 0 <= i < |vs| ==> Typed(w, vs[i])
    ensures PackedIn(r, ReadString(Prefixed(EncodePacked(w, vs)) + tail), [], arraySize) ==
            if |vs| <= arraySize && AcceptsAll(r, w, vs) then Some(Got(ConvertedAll(r, w, vs), tail)) else None
  {
    StringRoundTrip(EncodePacked(w, vs), tail);
    PackedRead(r, w, vs, [], [], arraySize);
    assert EncodePacked(w, vs) + [] == EncodePacked(w, vs);
    assert [] + ConvertedAll(r, w, vs) == ConvertedAll(r, w, vs);
    hide ReadString, Prefixed, EncodePacked, AcceptsAll, ConvertedAll;
    assert DecodePacked(r, [], ConvertedAll(r, w, vs), arraySize) == Some(ConvertedAll(r, w, vs));
  }

  /** Values under tags of their own are appended one by one, those that could be packed too. */
  lemma {:induction false} UnpackedRead(rs: seq<Field>, r: Field, j: nat, w: Field, vs: seq<Value>, tail: Slice,
                                        m: Message, seen: set<nat>)
    requires SchemaOk(rs) && j < |rs| == |m| && r == rs[j] && m[j] == Many([]) && r.rule.Repeated? && FieldOk(r)
    requires FieldOk(w) && w.tag == r.tag && KindsAgree(r.kind, w.kind)
    requires |EncodeUnpacked(w, vs)| < TWO_32 && forall i :: 0 <= i < |vs| ==> Typed(w.kind, vs[i])
    ensures DecodeFields(rs, EncodeUnpacked(w, vs) + tail, m, seen) ==
            if |vs| <= r.rule.arraySize && AcceptsAll(r.kind, w.kind, vs)
            then DecodeFields(rs, tail, m[j := Many(ConvertedAll(r.kind, w.kind, vs))],
                              if vs == [] then seen else seen + {j})
            else None
    decreases w, 1, |vs| + 1
  {
    if vs == [] {
      assert EncodeUnpacked(w, vs) + tail == tail && m[j := Many([])] == m && ConvertedAll(r.kind, w.kind, vs) == [];
    } else {
      var n := |vs| - 1;
      var rest := Tag(WireType(w.kind), w.tag) + (EncodeValue(w.kind, vs[n]) + tail);
      UnpackedSnoc(w, vs, tail);
      AcceptsSnoc(r.kind, w.kind, vs);
      ConvertedSnoc(r.kind, w.kind, vs);
      hide *;
      UnpackedRead(rs, r, j, w, vs[..n], rest, m, seen);
      var done := m[j := Many(ConvertedAll(r.kind, w.kind, vs[..n]))];
      if n <= r.rule.arraySize { OneMore(rs, r, j, w, vs[n], tail, done, if n == 0 then seen else seen + {j}); }
      var all := Many(ConvertedAll(r.kind, w.kind, vs));
      assert done[j := all] == m[j := all];
      assert seen + {j} + {j} == seen + {j};
    }
  }

  lemma {:induction false} OneMore(rs: seq<Field>, r: Field, j: nat, w: Field, v: Value, tail: Slice, m: Message,
                                   seen: set<nat>)
    requires SchemaOk(rs) && j < |rs| == |m| && r == rs[j] && r.rule.Repeated? && FieldOk(r)
    requires FieldOk(w) && w.tag == r.tag && KindsAgree(r.kind, w.kind)
    requires m[j].Many? && |m[j].values| <= r.rule.arraySize
    requires Typed(w.kind, v) && |EncodeValue(w.kind, v)| < TWO_32
    ensures DecodeFields(rs, Tag(WireType(w.kind), w.tag) + (EncodeValue(w.kind, v) + tail), m, seen) ==
            if |m[j].values| < r.rule.arraySize && AcceptsValue(r.kind, w.kind, v)
            then DecodeFields(rs, tail, m[j := Many(m[j].values + [Converted(r.kind, w.kind, v)])], seen + {j})
            else None
    decreases w, 1, 0
  {
    ValueRead(r.kind, w.kind, true, Initial(r), v, tail);
    TagRead(rs, j, WireType(w.kind), EncodeValue(w.kind, v) + tail, m, seen);
    assert WireType(w.kind) == WIRE_STRING ==> !Packable(r.kind);
    hide DecodeFields, DecodeValue, EncodeValue, Tag, AcceptsValue, Converted;
  }

  /** Of a field that is there more than once the last value counts, unless it is a message. */
  lemma LastCounts(rs: seq<Field>, j: nat, w: Field, v: Value, tail: Slice, m: Message, seen: set<nat>)
    requires SchemaOk(rs) && j < |rs| == |m| && m[j].Single? && !rs[j].rule.Repeated?
    requires FieldOk(w) && w.tag == rs[j].tag && !w.rule.Repeated? && !w.kind.MessageKind?
    requires KindsAgree(rs[j].kind, w.kind) && Typed(w.kind, v) && |EncodeValue(w.kind, v)| < TWO_32
    ensures DecodeFields(rs, EncodeContent(w, Single(true, v)) + tail, m, seen) ==
            if AcceptsValue(rs[j].kind, w.kind, v)
            then DecodeFields(rs, tail, m[j := Single(true, Converted(rs[j].kind, w.kind, v))], seen + {j})
            else None
  {
    var r, payload := rs[j], EncodeValue(w.kind, v);
    assert FieldOk(r);
    assert EncodeContent(w, Single(true, v)) + tail == Tag(WireType(w.kind), r.tag) + (payload + tail);
    ValueRead(r.kind, w.kind, false, m[j].value, v, tail);
    TagRead(rs, j, WireType(w.kind), payload + tail, m, seen);
    hide DecodeFields, DecodeValue, EncodeValue, AcceptsValue, Converted;
  }
}
