/**
 Messages of the nanopb library as trees of values, and what they are on the wire (Protocol Buffers Encoding, sections
 "Message Structure" and "Base 128 Varints"): fields of static allocation that are required, optional or repeated.
 */
module PbSchema {
  import opened Basics
  import opened Coding

  /** The types of a field; a width is in bytes, a size is that of the array in the C structure. */
  datatype Kind =
    | BoolKind
    | VarintKind(width: nat)
    | UVarintKind(width: nat)
    | SVarintKind(width: nat)
    | Fixed32Kind
    | Fixed64Kind
    | BytesKind(size: nat)
    | StringKind(size: nat)
    | MessageKind(fields: seq<Field>)

  datatype Rule = Required | Optional | Repeated(arraySize: nat)

  /** `initial` is the default value, for a field that is no message. */
  datatype Field = Field(tag: nat, rule: Rule, kind: Kind, initial: Value)

  /** A string is what is in its array before the first NUL, or the whole array if there is none. */
  datatype Value =
    | BoolValue(flag: bool)
    | IntValue(number: int)
    | BytesValue(bytes: Slice)
    | StringValue(chars: Slice)
    | MessageValue(contents: Message)

  /** A field in a structure: the flag says whether an optional field is there. */
  datatype Content = Single(present: bool, value: Value) | Many(values: seq<Value>)

  type Message = seq<Content>

  const WIRE_VARINT: nat := 0
  const WIRE_64BIT: nat := 1
  const WIRE_STRING: nat := 2
  const WIRE_32BIT: nat := 5

  predicate IsWidth(width: nat) {
    width == 1 || width == 2 || width == 4 || width == 8
  }

  function WireType(k: Kind): nat {
    match k
    case BoolKind => WIRE_VARINT
    case VarintKind(w) => WIRE_VARINT
    case UVarintKind(w) => WIRE_VARINT
    case SVarintKind(w) => WIRE_VARINT
    case Fixed32Kind => WIRE_32BIT
    case Fixed64Kind => WIRE_64BIT
    case BytesKind(n) => WIRE_STRING
    case StringKind(n) => WIRE_STRING
    case MessageKind(fs) => WIRE_STRING
  }

  predicate Packable(k: Kind) {
    !k.BytesKind? && !k.StringKind? && !k.MessageKind?
  }

  /** Which of the required fields the one at `i` is. */
  function RequiredIndex(fs: seq<Field>, i: nat): nat
    requires i <= |fs|
  {
    if i == 0 then 0 else RequiredIndex(fs, i - 1) + if fs[i - 1].rule.Required? then 1 else 0
  }

  // ---------------------------------------------------------------------------------------------------------------
  // Schemas, and values that fit them.

  ghost predicate SchemaOk(fs: seq<Field>)
    decreases fs
  {
    && (forall i, j :: 0 <= i < j < |fs| ==> fs[i].tag != fs[j].tag)
    && (forall i :: 0 <= i < |fs| ==> FieldOk(fs[i]))
  }

  ghost predicate FieldOk(f: Field)
    decreases f
  {
    0 < f.tag < 0x2000_0000 && KindOk(f.kind)
  }

  ghost predicate KindOk(k: Kind)
    decreases k
  {
    match k
    case VarintKind(w) => IsWidth(w)
    case UVarintKind(w) => IsWidth(w)
    case SVarintKind(w) => IsWidth(w)
    case MessageKind(fs) => SchemaOk(fs)
    case _ => true
  }

  predicate FitsSigned(x: int, width: nat) {
    -(Pow256(width) / 2) <= x < Pow256(width) / 2
  }

  /** The value is of the C type of its field. */
  ghost predicate Typed(k: Kind, v: Value)
    decreases k
  {
    match k
    case BoolKind => v.BoolValue?
    case VarintKind(w) => v.IntValue? && FitsSigned(v.number, w)
    case UVarintKind(w) => v.IntValue? && 0 <= v.number < Pow256(w)
    case SVarintKind(w) => v.IntValue? && FitsSigned(v.number, w)
    case Fixed32Kind => v.IntValue? && 0 <= v.number < TWO_32
    case Fixed64Kind => v.IntValue? && 0 <= v.number < TWO_64
    case BytesKind(n) => v.BytesValue?
    case StringKind(n) => v.StringValue? && |v.chars| <= n && 0 !in v.chars
    case MessageKind(fs) => v.MessageValue? && TypedMessage(fs, v.contents)
  }

  ghost predicate TypedMessage(fs: seq<Field>, m: Message)
    decreases fs
  {
    |m| == |fs| && forall i :: 0 <= i < |fs| ==> TypedContent(fs[i], m[i])
  }

  ghost predicate TypedContent(f: Field, c: Content)
    decreases f
  {
    match f.rule
    case Required => c.Single? && c.present && Typed(f.kind, c.value)
    case Optional => c.Single? && Typed(f.kind, c.value)
    case Repeated(n) => c.Many? && forall j :: 0 <= j < |c.values| ==> Typed(f.kind, c.values[j])
  }

  /** What is there keeps the limits of arrays; with `terminated`, strings have room for their NUL too. */
  ghost predicate Legal(k: Kind, v: Value, terminated: bool)
    decreases k
  {
    match k
    case BytesKind(n) => v.BytesValue? ==> |v.bytes| <= n
    case StringKind(n) => v.StringValue? && terminated ==> |v.chars| < n
    case MessageKind(fs) => v.MessageValue? ==> LegalMessage(fs, v.contents, terminated)
    case _ => true
  }

  ghost predicate LegalMessage(fs: seq<Field>, m: Message, terminated: bool)
    decreases fs
  {
    forall i :: 0 <= i < |fs| && i < |m| ==> LegalContent(fs[i], m[i], terminated)
  }

  ghost predicate LegalContent(f: Field, c: Content, terminated: bool)
    decreases f
  {
    match c
    case Single(present, v) => present ==> Legal(f.kind, v, terminated)
    case Many(vs) => (f.rule.Repeated? ==> |vs| <= f.rule.arraySize) && forall j :: 0 <= j < |vs| ==>
        Legal(f.kind, vs[j], terminated)
  }

  // ---------------------------------------------------------------------------------------------------------------
  // Default values, and what of a message survives the wire.

  function Initial(f: Field): Value
    decreases f, 0
  {
    if f.kind.MessageKind? then MessageValue(Defaults(f.kind.fields)) else f.initial
  }

  function DefaultContent(f: Field): Content
    decreases f, 1
  {
    match f.rule
    case Required => Single(true, Initial(f))
    case Optional => Single(false, Initial(f))
    case Repeated(n) => Many([])
  }

  /** `pb_message_set_to_defaults`. */
  function Defaults(fs: seq<Field>): (m: Message)
    ensures |m| == |fs|
    decreases fs
  {
    seq(|fs|, i requires 0 <= i < |fs| => DefaultContent(fs[i]))
  }

  /** The value with every optional part that is absent replaced by its default. */
  function Restored(k: Kind, v: Value): Value
    decreases k
  {
    if k.MessageKind? && v.MessageValue? then MessageValue(RestoredMessage(k.fields, v.contents)) else v
  }

  function RestoredContent(f: Field, c: Content): Content
    decreases f
  {
    match c
    case Single(present, v) => if present then Single(true, Restored(f.kind, v)) else DefaultContent(f)
    case Many(vs) => Many(seq(|vs|, j requires 0 <= j < |vs| => Restored(f.kind, vs[j])))
  }

  function RestoredMessage(fs: seq<Field>, m: Message): (r: Message)
    ensures |m| == |fs| ==> |r| == |fs|
    decreases fs
  {
    if |m| != |fs| then m else seq(|fs|, i requires 0 <= i < |fs| => RestoredContent(fs[i], m[i]))
  }

  // ---------------------------------------------------------------------------------------------------------------
  // What a message is on the wire.

  function Unsigned64(x: int): nat {
    if 0 <= x then x else if x >= -TWO_64 then x + TWO_64 else 0
  }

  function Zigzag(x: int): nat {
    if 0 <= x then 2 * x else -2 * x - 1
  }

  function Tag(wire: nat, tag: nat): Slice {
    Varint(tag * 8 + wire)
  }

  function Prefixed(s: Slice): Slice {
    Varint(|s|) + s
  }

  function EncodeValue(k: Kind, v: Value): Slice
    decreases k, 0
  {
    match v
    case BoolValue(b) => Varint(if b then 1 else 0)
    case IntValue(x) =>
      (match k
       case SVarintKind(w) => Varint(Zigzag(x))
       case Fixed32Kind => ToLittleEndian(Unsigned64(x), 4)
       case Fixed64Kind => ToLittleEndian(Unsigned64(x), 8)
       case _ => Varint(Unsigned64(x)))
    case BytesValue(b) => Prefixed(b)
    case StringValue(s) => Prefixed(s)
    case MessageValue(m) => if k.MessageKind? then Prefixed(EncodeMessage(k.fields, m, 0)) else []
  }

  /** Values one after the other, as in a packed array. */
  function EncodePacked(k: Kind, vs: seq<Value>): Slice
    decreases k, |vs| + 1
  {
    if vs == [] then [] else EncodePacked(k, vs[..|vs| - 1]) + EncodeValue(k, vs[|vs| - 1])
  }

  function Tagged(f: Field, v: Value): Slice
    decreases f, 0
  {
    Tag(WireType(f.kind), f.tag) + EncodeValue(f.kind, v)
  }

  /** Every value under a tag of its own. */
  function EncodeUnpacked(f: Field, vs: seq<Value>): Slice
    decreases f, |vs| + 1
  {
    if vs == [] then []
    else EncodeUnpacked(f, vs[..|vs| - 1]) + Tagged(f, vs[|vs| - 1])
  }

  function EncodeContent(f: Field, c: Content): Slice
    decreases f, if c.Many? then |c.values| + 2 else 1
  {
    match c
    case Single(present, v) => if present then Tagged(f, v) else []
    case Many(vs) =>
      if vs == [] then []
      else if Packable(f.kind) then Tag(WIRE_STRING, f.tag) + Prefixed(EncodePacked(f.kind, vs))
      else EncodeUnpacked(f, vs)
  }

  /** The fields from the one at `i` on. */
  function EncodeMessage(fs: seq<Field>, m: Message, i: nat): Slice
    decreases fs, |fs| - i
  {
    if i < |fs| && i < |m| then EncodeContent(fs[i], m[i]) + EncodeMessage(fs, m, i + 1) else []
  }
}
