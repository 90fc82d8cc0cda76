/**
 The nanopb decoder as a function from bytes to messages: which bytes it takes, what it stores, and when it fails.
 */
module PbDecode {
  import opened Basics
  import opened Bits
  import opened Coding
  import opened PbSchema

  datatype Got<+T> = Got(value: T, rest: Slice)

  const MAX_REQUIRED: nat := 64

  // ---------------------------------------------------------------------------------------------------------------
  // Integers.

  function Shifted(v: nat, bitpos: nat): nat {
    v * Pow2(bitpos)
  }

  lemma SevenMore(n: nat)
    ensures Pow2(n + 7) == 128 * Pow2(n)
  {
    assert Pow2(n + 7) == 2 * Pow2(n + 6) == 4 * Pow2(n + 5) == 8 * Pow2(n + 4) == 16 * Pow2(n + 3);
    assert Pow2(n + 3) == 2 * Pow2(n + 2) == 4 * Pow2(n + 1) == 8 * Pow2(n);
  }

  /** `pb_decode_varint`: ten groups at most, of which 64 bits are kept. */
  function ReadVarint64(s: Slice): (r: Option<Got<nat>>)
    ensures r.Some? ==> |r.value.rest| < |s|
  {
    match ReadVarint(s, 10)
    case None => None
    case Some(p) => Some(Got(p.0 % TWO_64, s[p.1..]))
  }

  /** A group that brings nothing new: zeros, or the sign of a negative number. */
  predicate Overlong(b: Byte, result: nat, bitpos: nat) {
    bitpos >= 32 && b % 128 != 0 && (result < 0x8000_0000 || b != (if bitpos < 63 then 255 else 1))
  }

  function NextResult(b: Byte, result: nat, bitpos: nat): nat {
    if bitpos >= 32 then result else (result + Shifted(b % 128, bitpos)) % TWO_32
  }

  /** Bits of the fifth group that do not fit. */
  predicate TooHigh(b: Byte, bitpos: nat) {
    bitpos == 28 && b / 16 % 8 != 0
  }

  /** The multibyte loop of `pb_decode_varint32_eof`. */
  function ReadVarint32From(s: Slice, result: nat, bitpos: nat): (r: Option<Got<nat>>)
    ensures r.Some? ==> |r.value.rest| < |s|
  {
    if s == [] then None
    else if Overlong(s[0], result, bitpos) then None
    else
      var next := NextResult(s[0], result, bitpos);
      if s[0] >= 128 then ReadVarint32From(s[1..], next, bitpos + 7)
      else if TooHigh(s[0], bitpos) then None
      else Some(Got(next, s[1..]))
  }

  function ReadVarint32(s: Slice): (r: Option<Got<nat>>)
    ensures r.Some? ==> |r.value.rest| < |s|
  {
    if s == [] then None
    else if s[0] < 128 then Some(Got(s[0], s[1..]))
    else ReadVarint32From(s[1..], s[0] % 128, 7)
  }

  function ReadFixed(s: Slice, n: nat): (r: Option<Got<nat>>)
    requires n > 0
    ensures r.Some? ==> |r.value.rest| < |s|
  {
    if |s| < n then None else Some(Got(LittleEndian(s[..n]), s[n..]))
  }

  /** A length, and that many bytes. */
  function ReadString(s: Slice): (r: Option<Got<Slice>>)
    ensures r.Some? ==> |r.value.rest| + |r.value.value| < |s|
  {
    match ReadVarint32(s)
    case None => None
    case Some(g) => if |g.rest| < g.value then None else Some(Got(g.rest[..g.value], g.rest[g.value..]))
  }

  /** Conversion to a signed integer of so many bytes. */
  function Signed(v: int, width: nat): int
    requires IsWidth(width)
  {
    var n := Pow256(width);
    var r := v % (if n == 0 then 1 else n);
    if r < n / 2 then r else r - n
  }

  function Unzigzag(v: nat): int {
    if v % 2 == 1 then -(v / 2) - 1 else v / 2
  }

  function UpToNul(s: Slice): Slice {
    if s == [] || s[0] == 0 then [] else [s[0]] + UpToNul(s[1..])
  }

  function SkipVarint(s: Slice): (r: Option<Slice>)
    ensures r.Some? ==> |r.value| < |s|
  {
    if s == [] then None else if s[0] < 128 then Some(s[1..]) else SkipVarint(s[1..])
  }

  /** `pb_skip_field`. */
  function SkipField(wire: nat, s: Slice): (r: Option<Slice>)
    ensures r.Some? ==> |r.value| <= |s|
  {
    if wire == WIRE_VARINT then SkipVarint(s)
    else if wire == WIRE_64BIT then (if |s| < 8 then None else Some(s[8..]))
    else if wire == WIRE_STRING then (match ReadString(s) { case None => None case Some(g) => Some(g.rest) })
    else if wire == WIRE_32BIT then (if |s| < 4 then None else Some(s[4..]))
    else None
  }

  // ---------------------------------------------------------------------------------------------------------------
  // Values, fields and messages.

  function Find(fs: seq<Field>, tag: nat): (r: Option<nat>)
    ensures r.Some? ==> r.value < |fs| && fs[r.value].tag == tag && forall j :: 0 <= j < r.value ==> fs[j].tag != tag
    ensures r.None? ==> forall j :: 0 <= j < |fs| ==> fs[j].tag != tag
  {
    FindFrom(fs, tag, 0)
  }

  function FindFrom(fs: seq<Field>, tag: nat, i: nat): (r: Option<nat>)
    requires i <= |fs|
    ensures r.Some? ==> i <= r.value < |fs| && fs[r.value].tag == tag && forall j :: i <= j < r.value ==>
              fs[j].tag != tag
    ensures r.None? ==> forall j :: i <= j < |fs| ==> fs[j].tag != tag
    decreases |fs| - i
  {
    if i == |fs| then None else if fs[i].tag == tag then Some(i) else FindFrom(fs, tag, i + 1)
  }

  /** Whether no required field is missing, as far as the decoder keeps track of them. */
  ghost predicate AllSeen(fs: seq<Field>, seen: set<nat>) {
    forall i :: 0 <= i < |fs| && fs[i].rule.Required? && RequiredIndex(fs, i) < MAX_REQUIRED ==> i in seen
  }

  ghost function DecodeInteger(k: Kind, s: Slice): (r: Option<Got<Value>>)
    requires KindOk(k)
    ensures r.Some? ==> |r.value.rest| < |s|
  {
    match k
    case BoolKind =>
      (match ReadVarint32(s) { case None => None case Some(g) => Some(Got(BoolValue(g.value != 0), g.rest)) })
    case VarintKind(w) =>
      (match ReadVarint64(s) {
        case None => None
        case Some(g) =>
          var x := Signed(g.value, if w == 8 then 8 else 4);
          if Signed(x, w) != x then None else Some(Got(IntValue(x), g.rest))
      })
    case UVarintKind(w) =>
      (match ReadVarint64(s) {
        case None => None
        case Some(g) => if g.value >= Pow256(w) then None else Some(Got(IntValue(g.value), g.rest))
      })
    case SVarintKind(w) =>
      (match ReadVarint64(s) {
        case None => None
        case Some(g) =>
          var x := Unzigzag(g.value);
          if Signed(x, w) != x then None else Some(Got(IntValue(x), g.rest))
      })
    case Fixed32Kind =>
      (match ReadFixed(s, 4) { case None => None case Some(g) => Some(Got(IntValue(g.value), g.rest)) })
    case Fixed64Kind =>
      (match ReadFixed(s, 8) { case None => None case Some(g) => Some(Got(IntValue(g.value), g.rest)) })
    case _ => None
  }

  /**
   The structure that a message is decoded into: a new one is set to defaults, an old one has the fields of its type.
   */
  function Destination(fs: seq<Field>, isNew: bool, before: Value): (m: Message)
    ensures |m| == |fs|
  {
    if isNew || !before.MessageValue? || |before.contents| != |fs| then Defaults(fs) else before.contents
  }

  /** A value of kind `k`; a message that is not fresh is decoded into the one that is there. */
  ghost function DecodeValue(k: Kind, isNew: bool, before: Value, s: Slice): (r: Option<Got<Value>>)
    requires KindOk(k)
    ensures r.Some? ==> |r.value.rest| < |s|
    decreases |s|, 1, 0
  {
    if Packable(k) then DecodeInteger(k, s)
    else match ReadString(s)
      case None => None
      case Some(g) =>
        match k
        case BytesKind(n) => if |g.value| > n then None else Some(Got(BytesValue(g.value), g.rest))
        case StringKind(n) => if |g.value| + 1 > n then None else Some(Got(StringValue(UpToNul(g.value)), g.rest))
        case MessageKind(fs) =>
          (match DecodeInto(fs, g.value, Destination(fs, isNew, before))
           case None => None
           case Some(m) => Some(Got(MessageValue(m), g.rest)))
        case _ => None
  }

  ghost function DecodePacked(k: Kind, s: Slice, vs: seq<Value>, arraySize: nat): Option<seq<Value>>
    requires KindOk(k)
    decreases |s|
  {
    if s == [] then Some(vs)
    else if |vs| >= arraySize then None
    else match DecodeInteger(k, s)
      case None => None
      case Some(g) => DecodePacked(k, g.rest, vs + [g.value], arraySize)
  }

  ghost function PackedIn(k: Kind, r: Option<Got<Slice>>, vs: seq<Value>, arraySize: nat): (q: Option<Got<seq<Value>>>)
    requires KindOk(k)
    ensures q.Some? ==> r.Some? && q.value.rest == r.value.rest
  {
    match r
    case None => None
    case Some(g) =>
      match DecodePacked(k, g.value, vs, arraySize)
      case None => None
      case Some(all) => Some(Got(all, g.rest))
  }

  /** `decode_static_field`. */
  ghost function DecodeContent(f: Field, wire: nat, s: Slice, c: Content): (r: Option<Got<Content>>)
    requires FieldOk(f)
    ensures r.Some? ==> |r.value.rest| < |s|
    decreases |s|, 2, 0
  {
    if !f.rule.Repeated? then
      match DecodeValue(f.kind, false, if c.Single? then c.value else Initial(f), s)
      case None => None
      case Some(g) => Some(Got(Single(true, g.value), g.rest))
    else
      var vs := if c.Many? then c.values else [];
      if wire == WIRE_STRING && Packable(f.kind) then
        match PackedIn(f.kind, ReadString(s), vs, f.rule.arraySize)
        case None => None
        case Some(all) => Some(Got(Many(all.value), all.rest))
      else if |vs| >= f.rule.arraySize then None
      else match DecodeValue(f.kind, true, Initial(f), s)
        case None => None
        case Some(g) => Some(Got(Many(vs + [g.value]), g.rest))
  }

  /** The loop of `pb_decode_noinit`, and which fields it has come across. */
  ghost function DecodeFields(fs: seq<Field>, s: Slice, m: Message, seen: set<nat>): Option<(Message, set<nat>)>
    requires SchemaOk(fs) && |m| == |fs|
    decreases |s|, 3, 0
  {
    if s == [] then Some((m, seen))
    else match ReadVarint32(s)
      case None => None
      case Some(g) =>
        if g.value == 0 then Some((m, seen))
        else
          match Find(fs, g.value / 8)
          case None =>
            (match SkipField(g.value % 8, g.rest)
             case None => None
             case Some(rest) => DecodeFields(fs, rest, m, seen))
          case Some(i) =>
            assert FieldOk(fs[i]);
            match DecodeContent(fs[i], g.value % 8, g.rest, m[i])
            case None => None
            case Some(h) => DecodeFields(fs, h.rest, m[i := h.value], seen + {i})
  }

  /** `pb_decode_noinit`. */
  ghost function DecodeInto(fs: seq<Field>, s: Slice, m: Message): Option<Message>
    requires SchemaOk(fs) && |m| == |fs|
    decreases |s|, 4, 0
  {
    match DecodeFields(fs, s, m, {})
      case None => None
      case Some(r) => if AllSeen(fs, r.1) then Some(r.0) else None
  }

  /** `pb_decode`. */
  ghost function Decode(fs: seq<Field>, s: Slice): Option<Message>
    requires SchemaOk(fs)
  {
    DecodeInto(fs, s, Defaults(fs))
  }
}
