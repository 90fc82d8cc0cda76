/**
 The nanopb decoder as it runs: a stream that is read step by step, substreams for what has a length in front, an
 iterator over the fields, and one bit for every required field that has come.
 */
module PbInput {
  import opened Basics
  import opened Bits
  import opened Coding
  import opened PbSchema
  import opened PbCommon
  import opened PbDecode

  class IStream {
    const data: Slice
    var pos: nat
    var bytesLeft: nat

    ghost predicate Valid()
      reads this
    {
      pos + bytesLeft <= |data|
    }

    ghost function End(): nat
      reads this
    {
      pos + bytesLeft
    }

    /** What is still to be read. */
    ghost function Rest(): (s: Slice)
      requires Valid()
      reads this
      ensures |s| == bytesLeft
    {
      data[pos..pos + bytesLeft]
    }

    /** The result and the bytes left are as `spec` says; after a failure the stream may stand anywhere. */
    ghost predicate As<T(!new)>(r: Option<T>, spec: Option<Got<T>>, end: nat)
      reads this
    {
      Valid() && End() == end && match spec {
        case None => r.None?
        case Some(g) => r == Some(g.value) && Rest() == g.rest
      }
    }

    /** `pb_istream_from_buffer`. */
    constructor (data: Slice)
      ensures Valid() && Rest() == data && this.data == data && pos == 0
    {
      this.data, pos, bytesLeft := data, 0, |data|;
    }

    constructor Part(data: Slice, pos: nat, bytesLeft: nat)
      requires pos + bytesLeft <= |data|
      ensures Valid() && this.data == data && this.pos == pos && this.bytesLeft == bytesLeft
    {
      this.data, this.pos, this.bytesLeft := data, pos, bytesLeft;
    }

    method ReadByte() returns (r: Option<Byte>)
      requires Valid()
      modifies this
      ensures As(r, if old(Rest()) == [] then None else Some(Got(old(Rest())[0], old(Rest())[1..])), old(End()))
    {
      if bytesLeft == 0 {
        return None;
      }
      r := Some(data[pos]);
      pos, bytesLeft := pos + 1, bytesLeft - 1;
    }

    /** `pb_read`. */
    method Read(n: nat) returns (r: Option<Slice>)
      requires Valid()
      modifies this
      ensures As(r, if |old(Rest())| < n then None else Some(Got(old(Rest())[..n], old(Rest())[n..])), old(End()))
    {
      if bytesLeft < n {
        return None;
      }
      r := Some(data[pos..pos + n]);
      assert data[pos..pos + n] == Rest()[..n];
      pos, bytesLeft := pos + n, bytesLeft - n;
    }

    /** `pb_decode_varint32`. The bits of a group and those below it are apart, so or is plus. */
    method DecodeVarint32() returns (r: Option<nat>)
      requires Valid()
      modifies this
      ensures As(r, ReadVarint32(old(Rest())), old(End()))
    {
      var b := ReadByte();
      if b.None? {
        return None;
      }
      if b.value < 0x80 {
        return Some(b.value);
      }
      hide Shifted, Overlong, NextResult, TooHigh;
      var result: nat, bitpos: nat := b.value % 0x80, 7;
      while true
        invariant bitpos >= 7
        invariant Valid() && End() == old(End())
        invariant ReadVarint32(old(Rest())) == ReadVarint32From(Rest(), result, bitpos)
        decreases bytesLeft
      {
        b := ReadByte();
        if b.None? {
          return None;
        }
        if Overlong(b.value, result, bitpos) {
          return None;
        }
        result := NextResult(b.value, result, bitpos);
        bitpos := bitpos + 7;
        if b.value < 0x80 {
          break;
        }
      }
      if TooHigh(b.value, bitpos - 7) {
        return None;
      }
      r := Some(result);
    }

    /** `pb_decode_varint`. */
    method DecodeVarint() returns (r: Option<nat>)
      requires Valid()
      modifies this
      ensures As(r, ReadVarint64(old(Rest())), old(End()))
    {
      ghost var s, k: nat := Rest(), 0;
      SoFarNothing(s);
      hide SoFar, Shifted, ReadVarint64;
      var bitpos: nat, result: nat := 0, 0;
      while true
        invariant Valid() && End() == old(End()) && bitpos == 7 * k && SoFar(s, k, Rest(), result)
        decreases bytesLeft
      {
        SoFarMore(s, k, Rest(), result);
        if bitpos >= 64 {
          return None;
        }
        var b := ReadByte();
        if b.None? {
          return None;
        }
        result := (result + Shifted(b.value % 0x80, bitpos)) % TWO_64;
        k := k + 1;
        bitpos := bitpos + 7;
        if b.value < 0x80 {
          break;
        }
      }
      r := Some(result);
    }

    /** `pb_decode_svarint`. */
    method DecodeSvarint() returns (r: Option<int>)
      requires Valid()
      modifies this
      ensures Valid() && End() == old(End()) && match ReadVarint64(old(Rest())) {
        case None => r.None?
        case Some(g) => r == Some(Unzigzag(g.value)) && Rest() == g.rest
      }
    {
      var v := DecodeVarint();
      if v.None? {
        return None;
      }
      var x: int := v.value;
      r := Some(if x % 2 == 1 then -(x / 2) - 1 else x / 2);
    }

    /** `pb_decode_fixed32` and `pb_decode_fixed64`. */
    method DecodeFixed(width: nat) returns (r: Option<nat>)
      requires Valid() && width > 0
      modifies this
      ensures As(r, ReadFixed(old(Rest()), width), old(End()))
    {
      var b := Read(width);
      if b.None? {
        return None;
      }
      r := Some(LittleEndian(b.value));
    }

    /** `pb_skip_varint`. */
    method SkipVarintBytes() returns (ok: bool)
      requires Valid()
      modifies this
      ensures Valid() && End() == old(End())
      ensures if ok then SkipVarint(old(Rest())) == Some(Rest()) else SkipVarint(old(Rest())).None?
    {
      while true
        invariant Valid() && End() == old(End()) && SkipVarint(old(Rest())) == SkipVarint(Rest())
        decreases bytesLeft
      {
        var b := ReadByte();
        if b.None? {
          return false;
        }
        if b.value < 0x80 {
          return true;
        }
      }
    }

    /** `pb_skip_field`. */
    method Skip(wire: nat) returns (ok: bool)
      requires Valid()
      modifies this
      ensures Valid() && End() == old(End())
      ensures if ok then SkipField(wire, old(Rest())) == Some(Rest()) else SkipField(wire, old(Rest())).None?
    {
      if wire == WIRE_VARINT {
        ok := SkipVarintBytes();
      } else if wire == WIRE_64BIT || wire == WIRE_32BIT {
        var b := Read(if wire == WIRE_64BIT then 8 else 4);
        ok := b.Some?;
      } else if wire == WIRE_STRING {
        var n := DecodeVarint32();
        if n.None? {
          return false;
        }
        var b := Read(n.value);
        ok := b.Some?;
      } else {
        ok := false;
      }
    }

    /** `pb_make_string_substream`: the next bytes, as many as the length in front says, on their own. */
    method MakeSubstream() returns (sub: IStream?)
      requires Valid()
      modifies this
      ensures sub == null <==> ReadString(old(Rest())).None?
      ensures sub == null ==> Valid() && End() == old(End())
      ensures sub != null ==> sub.End() + bytesLeft == old(End())
      ensures sub != null ==> fresh(sub) && sub.Valid() && sub.Rest() == ReadString(old(Rest())).value.value
      ensures sub != null ==> InFront(sub, ReadString(old(Rest())).value.rest)
    {
      var size := DecodeVarint32();
      if size.None? || bytesLeft < size.value {
        return null;
      }
      sub := new IStream.Part(data, pos, size.value);
      assert Rest()[..size.value] == sub.Rest();
      ghost var rest := Rest()[size.value..];
      bytesLeft := bytesLeft - size.value;
      assert data[sub.pos + sub.bytesLeft..][..bytesLeft] == rest;
    }

    /** The substream lies in front of what this stream has left, `rest`. */
    ghost predicate InFront(sub: IStream, rest: Slice)
      reads this, sub
    {
      && sub.data == data && sub.Valid() && sub.pos + sub.bytesLeft + bytesLeft <= |data|
      && data[sub.pos + sub.bytesLeft..sub.pos + sub.bytesLeft + bytesLeft] == rest
    }

    /** `pb_close_string_substream`. */
    method CloseSubstream(sub: IStream, ghost rest: Slice)
      requires sub != this && InFront(sub, rest)
      modifies this, sub
      ensures Valid() && Rest() == rest && End() == old(sub.End() + bytesLeft)
    {
      if sub.bytesLeft > 0 {
        var _ := sub.Read(sub.bytesLeft);
      }
      pos := sub.pos;
    }

    /** `pb_dec_bool`, `pb_dec_varint` and the other decoders of numbers. */
    method DecodeNumber(k: Kind) returns (r: Option<Value>)
      requires Valid() && KindOk(k) && Packable(k)
      modifies this
      ensures As(r, DecodeInteger(k, old(Rest())), old(End()))
    {
      match k
      case BoolKind =>
        var v := DecodeVarint32();
        if v.None? {
          return None;
        }
        return Some(BoolValue(v.value != 0));
      case VarintKind(w) =>
        var v := DecodeVarint();
        if v.None? {
          return None;
        }
        var x := Signed(v.value, if w == 8 then 8 else 4);
        if Signed(x, w) != x {
          return None;
        }
        return Some(IntValue(x));
      case UVarintKind(w) =>
        var v := DecodeVarint();
        if v.None? || v.value >= Pow256(w) {
          return None;
        }
        return Some(IntValue(v.value));
      case SVarintKind(w) =>
        var v := DecodeSvarint();
        if v.None? || Signed(v.value, w) != v.value {
          return None;
        }
        return Some(IntValue(v.value));
      case Fixed32Kind =>
        var v := DecodeFixed(4);
        if v.None? {
          return None;
        }
        return Some(IntValue(v.value));
      case Fixed64Kind =>
        var v := DecodeFixed(8);
        if v.None? {
          return None;
        }
        return Some(IntValue(v.value));
    }

    /** A length of at most `limit`, and so many bytes. */
    method ReadLimited(limit: nat) returns (r: Option<Slice>)
      requires Valid()
      modifies this
      ensures As(r, Limited(ReadString(old(Rest())), limit), old(End()))
    {
      var size := DecodeVarint32();
      if size.None? || size.value > limit {
        return None;
      }
      r := Read(size.value);
    }

    /** The decoder functions for the values of a field. */
    method DecodeTheValue(k: Kind, isNew: bool, before: Value) returns (r: Option<Value>)
      requires Valid() && KindOk(k)
      modifies this
      ensures As(r, DecodeValue(k, isNew, before, old(Rest())), old(End()))
      decreases bytesLeft, 1
    {
      match k
      case BytesKind(n) =>
        var b := ReadLimited(n);
        if b.None? {
          return None;
        }
        return Some(BytesValue(b.value));
      case StringKind(n) =>
        if n == 0 {
          var _ := ReadLimited(0);
          return None;
        }
        var b := ReadLimited(n - 1);
        if b.None? {
          return None;
        }
        return Some(StringValue(UpToNul(b.value)));
      case MessageKind(fs) =>
        r := DecodeSubmessage(fs, isNew, before);
      case _ =>
        r := DecodeNumber(k);
    }

    /** `pb_dec_submessage`. */
    method DecodeSubmessage(fs: seq<Field>, isNew: bool, before: Value) returns (r: Option<Value>)
      requires Valid() && SchemaOk(fs)
      modifies this
      ensures As(r, SubmessageIn(fs, ReadString(old(Rest())), isNew, before), old(End()))
      decreases bytesLeft, 0
    {
      hide ReadString, DecodeInto, SchemaOk, Destination;
      ghost var s := Rest();
      var sub := MakeSubstream();
      if sub == null {
        return None;
      }
      ghost var g := ReadString(s).value;
      var m := sub.DecodeNoInit(fs, Destination(fs, isNew, before));
      CloseSubstream(sub, g.rest);
      r := if m.None? then None else Some(MessageValue(m.value));
    }

    /** The packed branch of `decode_static_field`. */
    method DecodePackedItems(k: Kind, vs: seq<Value>, arraySize: nat) returns (r: Option<seq<Value>>)
      requires Valid() && KindOk(k) && Packable(k)
      modifies this
      ensures As(r, PackedIn(k, ReadString(old(Rest())), vs, arraySize), old(End()))
    {
      hide DecodePacked, DecodeInteger, ReadString, KindOk;
      ghost var s := Rest();
      var sub := MakeSubstream();
      if sub == null {
        return None;
      }
      ghost var g := ReadString(s).value;
      var status, items := sub.ReadItems(k, vs, arraySize);
      var left := sub.bytesLeft;
      CloseSubstream(sub, g.rest);
      r := if left != 0 || !status then None else Some(items);
    }

    /** The loop over the items of a packed array, until the substream or the array is used up or an item is bad. */
    method ReadItems(k: Kind, vs: seq<Value>, arraySize: nat) returns (status: bool, items: seq<Value>)
      requires Valid() && KindOk(k) && Packable(k)
      modifies this
      ensures Valid() && End() == old(End())
      ensures DecodePacked(k, old(Rest()), vs, arraySize) == if status && bytesLeft == 0 then Some(items) else None
    {
      hide DecodePacked, DecodeInteger, KindOk;
      items, status := vs, true;
      ghost var result := DecodePacked(k, Rest(), vs, arraySize);
      while bytesLeft > 0 && |items| < arraySize && status
        invariant Valid() && End() == old(End())
        invariant if status then result == DecodePacked(k, Rest(), items, arraySize) else result.None?
        decreases status, bytesLeft
      {
        PackedStep(k, Rest(), items, arraySize);
        var v := DecodeNumber(k);
        if v.None? {
          status := false;
        } else {
          items := items + [v.value];
        }
      }
      if status { PackedStep(k, Rest(), items, arraySize); }
    }

    /** `decode_static_field`. */
    method DecodeTheContent(f: Field, wire: nat, c: Content) returns (r: Option<Content>)
      requires Valid() && FieldOk(f)
      modifies this
      ensures As(r, DecodeContent(f, wire, old(Rest()), c), old(End()))
      decreases bytesLeft, 2
    {
      if !f.rule.Repeated? {
        var v := DecodeTheValue(f.kind, false, if c.Single? then c.value else Initial(f));
        if v.None? {
          return None;
        }
        return Some(Single(true, v.value));
      }
      var vs := if c.Many? then c.values else [];
      if wire == WIRE_STRING && Packable(f.kind) {
        var all := DecodePackedItems(f.kind, vs, f.rule.arraySize);
        if all.None? {
          return None;
        }
        return Some(Many(all.value));
      }
      if |vs| >= f.rule.arraySize {
        return None;
      }
      var v := DecodeTheValue(f.kind, true, Initial(f));
      if v.None? {
        return None;
      }
      r := Some(Many(vs + [v.value]));
    }

    /** `pb_decode_noinit`. */
    method DecodeNoInit(fs: seq<Field>, m: Message) returns (r: Option<Message>)
      requires Valid() && SchemaOk(fs) && |m| == |fs|
      modifies this
      ensures Valid() && End() == old(End()) && r == DecodeInto(fs, old(Rest()), m)
      decreases bytesLeft, 3
    {
      hide DecodeFields, ReadVarint32, SeenBits, SchemaOk, FieldOk, Find, SkipField, DecodeContent, AllSeen,
           RequiredIndex;
      ghost var result := DecodeFields(fs, Rest(), m, {});
      var fieldsSeen := new nat[2](i => 0);
      var iter := new FieldIter(fs);
      var dest, stopped := m, false;
      ghost var seen: set<nat> := {};
      NoneSeen(fs);
      assert fieldsSeen[..] == [0, 0];
      while bytesLeft > 0 && !stopped
        invariant Valid() && End() == old(End()) && bytesLeft <= old(bytesLeft)
        invariant iter.Valid() && iter.fields == fs && |dest| == |fs| && fieldsSeen.Length == 2
        invariant SeenBits(fs, fieldsSeen[..], seen)
        invariant if stopped then result == Some((dest, seen)) else result == DecodeFields(fs, Rest(), dest, seen)
        decreases bytesLeft, !stopped
      {
        ghost var s := Rest();
        KeyNeeded(fs, s, dest, seen);
        var key := DecodeVarint32();
        if key.None? {
          return None;
        }
        FieldStep(fs, s, dest, seen, Got(key.value, Rest()));
        if key.value == 0 {
          stopped := true;
        } else {
          var tag, wire, found := key.value / 8, key.value % 8, false;
          if tag != 0 {
            found := iter.Find(tag);
          }
          FoundIs(fs, tag, found, iter.pos);
          if !found {
            var ok := Skip(wire);
            if !ok {
              return None;
            }
          } else {
            ghost var i := iter.pos;
            MarkSeen(iter, fieldsSeen, seen);
            var c := DecodeTheContent(fs[iter.pos], wire, dest[iter.pos]);
            if c.None? {
              return None;
            }
            dest := dest[iter.pos := c.value];
            seen := seen + {i};
          }
        }
      }
      if !stopped { NoMoreFields(fs, dest, seen); }
      var ok := CheckRequired(iter, fieldsSeen, seen);
      r := if ok then Some(dest) else None;
    }

    /** `pb_decode`, with the defaults set first. */
    method DecodeMessage(fs: seq<Field>) returns (r: Option<Message>)
      requires Valid() && SchemaOk(fs)
      modifies this
      ensures Valid() && r == Decode(fs, old(Rest()))
    {
      r := DecodeNoInit(fs, Defaults(fs));
    }
  }

  /** What was read of a varint of which `k` groups, adding up to `sum`, came before. */
  function Behind(r: Option<(nat, nat)>, sum: nat, k: nat): Option<(nat, nat)> {
    match r
    case None => None
    case Some(p) => Some((sum + Shifted(p.0, 7 * k), p.1 + k))
  }

  /** After `k` groups of the varint at the start of `s`, of whose sum the low 64 bits are `result`. */
  ghost predicate SoFar(s: Slice, k: nat, rest: Slice, result: nat) {
    && k <= 10 && k <= |s| && rest == s[k..]
    && exists sum: nat :: Sums(s, k, sum) && result == sum % TWO_64
  }

  predicate Sums(s: Slice, k: nat, sum: nat)
    requires k <= 10 && k <= |s|
  {
    ReadVarint(s, 10) == Behind(ReadVarint(s[k..], 10 - k), sum, k)
  }

  lemma SoFarNothing(s: Slice)
    ensures SoFar(s, 0, s, 0)
  {
    assert Pow2(0) == 1 && s[0..] == s;
    assert Sums(s, 0, 0);
  }

  /** The loop fails where the specification does, ends where it ends, and else goes on. */
  lemma SoFarMore(s: Slice, k: nat, rest: Slice, result: nat)
    requires SoFar(s, k, rest, result)
    ensures 7 * k >= 64 || rest == [] ==> ReadVarint64(s).None?
    ensures 7 * k < 64 && rest != [] ==>
      var next := (result + Shifted(rest[0] % 0x80, 7 * k)) % TWO_64;
      if rest[0] < 0x80 then ReadVarint64(s) == Some(Got(next, rest[1..])) else SoFar(s, k + 1, rest[1..], next)
  {
    var sum: nat :| Sums(s, k, sum) && result == sum % TWO_64;
    if 7 * k < 64 && rest != [] {
      var part := Shifted(rest[0] % 0x80, 7 * k);
      BehindMore(rest, 10 - k, sum, k);
      SumWraps(sum, part);
      assert rest[1..] == s[k + 1..];
      hide Shifted, ReadVarint;
      if rest[0] >= 0x80 { assert Sums(s, k + 1, sum + part); }
    } else {
      assert ReadVarint(rest, 10 - k) == None;
    }
  }

  lemma SumWraps(sum: nat, part: nat)
    ensures (sum % TWO_64 + part) % TWO_64 == (sum + part) % TWO_64
  {
  }

  lemma BehindMore(s: Slice, n: nat, sum: nat, k: nat)
    requires n > 0 && s != []
    ensures s[0] >= 0x80 ==>
      Behind(ReadVarint(s, n), sum, k) == Behind(ReadVarint(s[1..], n - 1), sum + Shifted(s[0] % 0x80, 7 * k), k + 1)
    ensures s[0] < 0x80 ==> Behind(ReadVarint(s, n), sum, k) == Some((sum + Shifted(s[0] % 0x80, 7 * k), k + 1))
  {
    if s[0] >= 0x80 && ReadVarint(s[1..], n - 1).Some? {
      var v := ReadVarint(s[1..], n - 1).value.0;
      SevenMore(7 * k);
      assert 128 * v * Pow2(7 * k) == v * (128 * Pow2(7 * k));
      assert Shifted(s[0] % 0x80 + 128 * v, 7 * k) == Shifted(s[0] % 0x80, 7 * k) + Shifted(128 * v, 7 * k);
    }
  }

  ghost function AfterItem(k: Kind, r: Option<Got<Value>>, vs: seq<Value>, arraySize: nat): Option<seq<Value>>
    requires KindOk(k)
  {
    match r
    case None => None
    case Some(g) => DecodePacked(k, g.rest, vs + [g.value], arraySize)
  }

  ghost function AfterSkip(fs: seq<Field>, r: Option<Slice>, m: Message, seen: set<nat>): Option<(Message, set<nat>)>
    requires SchemaOk(fs) && |m| == |fs|
  {
    match r
    case None => None
    case Some(rest) => DecodeFields(fs, rest, m, seen)
  }

  ghost function AfterField(fs: seq<Field>, r: Option<Got<Content>>, m: Message, seen: set<nat>,
                            i: nat): Option<(Message, set<nat>)>
    requires SchemaOk(fs) && i < |m| == |fs|
  {
    match r
    case None => None
    case Some(h) => DecodeFields(fs, h.rest, m[i := h.value], seen + {i})
  }

  lemma PackedStep(k: Kind, s: Slice, vs: seq<Value>, arraySize: nat)
    requires KindOk(k)
    ensures s == [] ==> DecodePacked(k, s, vs, arraySize) == Some(vs)
    ensures s != [] && |vs| >= arraySize ==> DecodePacked(k, s, vs, arraySize).None?
    ensures s != [] && |vs| < arraySize ==>
              DecodePacked(k, s, vs, arraySize) == AfterItem(k, DecodeInteger(k, s), vs, arraySize)
  {
  }

  /** One round of the loop over fields, after the key has been read. */
  lemma FieldStep(fs: seq<Field>, s: Slice, m: Message, seen: set<nat>, g: Got<nat>)
    requires SchemaOk(fs) && |m| == |fs| && s != [] && ReadVarint32(s) == Some(g)
    ensures g.value == 0 ==> DecodeFields(fs, s, m, seen) == Some((m, seen))
    ensures g.value != 0 && Find(fs, g.value / 8).None? ==>
      DecodeFields(fs, s, m, seen) == AfterSkip(fs, SkipField(g.value % 8, g.rest), m, seen)
    ensures forall i: nat :: g.value != 0 && Find(fs, g.value / 8) == Some(i) ==>
      FieldOk(fs[i]) &&
          DecodeFields(fs, s, m, seen) == AfterField(fs, DecodeContent(fs[i], g.value % 8, g.rest, m[i]), m, seen, i)
  {
    if i :| g.value != 0 && Find(fs, g.value / 8) == Some(i) { assert FieldOk(fs[i]); }
  }

  lemma NoMoreFields(fs: seq<Field>, m: Message, seen: set<nat>)
    requires SchemaOk(fs) && |m| == |fs|
    ensures DecodeFields(fs, [], m, seen) == Some((m, seen))
  {
  }

  /** Tags being distinct, the field that the iterator finds is the one that the specification finds. */
  lemma FoundIs(fs: seq<Field>, tag: nat, found: bool, pos: nat)
    requires SchemaOk(fs)
    requires if found then pos < |fs| && fs[pos].tag == tag
             else tag == 0 || forall j :: 0 <= j < |fs| ==> fs[j].tag != tag
    ensures Find(fs, tag) == if found then Some(pos) else None
  {
    if !found && tag == 0 {
      forall j | 0 <= j < |fs| ensures fs[j].tag != tag { assert FieldOk(fs[j]); }
    }
  }

  function Limited(r: Option<Got<Slice>>, limit: nat): Option<Got<Slice>> {
    if r.Some? && |r.value.value| > limit then None else r
  }

  ghost function SubmessageIn(fs: seq<Field>, r: Option<Got<Slice>>, isNew: bool, before: Value): Option<Got<Value>>
    requires SchemaOk(fs)
  {
    match r
    case None => None
    case Some(g) =>
      match DecodeInto(fs, g.value, Destination(fs, isNew, before))
      case None => None
      case Some(m) => Some(Got(MessageValue(m), g.rest))
  }

  // ---------------------------------------------------------------------------------------------------------------
  // The bits for required fields.

  /** Field `i` is the required field number `b`. */
  predicate IsRequired(fs: seq<Field>, i: nat, b: nat) {
    i < |fs| && fs[i].rule.Required? && RequiredIndex(fs, i) == b
  }

  /** The bits that are set are those of the required fields that were seen. */
  ghost predicate SeenBits(fs: seq<Field>, words: seq<nat>, seen: set<nat>) {
    && |words| == 2 && words[0] < Pow2(32) && words[1] < Pow2(32)
    && forall b: nat :: b < MAX_REQUIRED ==>
         (Bit(words[b / 32], b % 32) <==> exists i: nat :: i in seen && IsRequired(fs, i, b))
  }

  lemma NoneSeen(fs: seq<Field>)
    ensures SeenBits(fs, [0, 0], {})
  {
    forall b: nat | b < MAX_REQUIRED ensures !Bit([0, 0][b / 32], b % 32) { ZeroHasNoBits(b % 32); }
  }

  lemma {:induction false} RequiredIndexMonotone(fs: seq<Field>, i: nat, j: nat)
    requires i <= j <= |fs|
    ensures RequiredIndex(fs, i) <= RequiredIndex(fs, j)
    ensures i < j && fs[i].rule.Required? ==> RequiredIndex(fs, i) < RequiredIndex(fs, j)
    decreases j
  {
    if i < j { RequiredIndexMonotone(fs, i, j - 1); }
  }

  predicate Counts(fs: seq<Field>, i: nat)
    requires i < |fs|
  {
    fs[i].rule.Required? && RequiredIndex(fs, i) < MAX_REQUIRED
  }

  lemma NoBitSeen(fs: seq<Field>, words: seq<nat>, seen: set<nat>, i: nat)
    requires SeenBits(fs, words, seen) && i < |fs| && !Counts(fs, i)
    ensures SeenBits(fs, words, seen + {i})
  {
    hide Bit, Pow2, RequiredIndex;
    forall c: nat | c < MAX_REQUIRED
      ensures Bit(words[c / 32], c % 32) <==> exists j: nat :: j in seen + {i} && IsRequired(fs, j, c)
    {
      assert !IsRequired(fs, i, c);
      if Bit(words[c / 32], c % 32) {
        var j: nat :| j in seen && IsRequired(fs, j, c);
        assert j in seen + {i};
      }
    }
  }

  lemma OneMoreSeen(fs: seq<Field>, words: seq<nat>, seen: set<nat>, i: nat, b: nat)
    requires SeenBits(fs, words, seen) && i < |fs| && Counts(fs, i) && b == RequiredIndex(fs, i)
    ensures SeenBits(fs, words[b / 32 := SetBit(words[b / 32], b % 32)], seen + {i})
  {
    var after := words[b / 32 := SetBit(words[b / 32], b % 32)];
    SetBitFits(words[b / 32], b % 32, 32);
    hide SetBit, Pow2, RequiredIndex;
    forall c: nat | c < MAX_REQUIRED
      ensures Bit(after[c / 32], c % 32) <==> exists j: nat :: j in seen + {i} && IsRequired(fs, j, c)
    {
      BitAfterSet(words[b / 32], b % 32, c % 32);
      hide Bit;
      assert Bit(after[c / 32], c % 32) <==> c == b || Bit(words[c / 32], c % 32);
      if c == b {
        assert i in seen + {i} && IsRequired(fs, i, c);
      } else if Bit(words[c / 32], c % 32) {
        var j: nat :| j in seen && IsRequired(fs, j, c);
        assert j in seen + {i};
      }
    }
  }

  /** Sets the bit of a required field, if there is one. */
  method MarkSeen(iter: FieldIter, fieldsSeen: array<nat>, ghost seen: set<nat>)
    requires iter.Valid() && iter.pos < |iter.fields| && fieldsSeen.Length == 2
    requires SeenBits(iter.fields, fieldsSeen[..], seen)
    modifies fieldsSeen
    ensures SeenBits(iter.fields, fieldsSeen[..], seen + {iter.pos})
  {
    if Counts(iter.fields, iter.pos) {
      OneMoreSeen(iter.fields, fieldsSeen[..], seen, iter.pos, iter.requiredIndex);
    } else {
      NoBitSeen(iter.fields, fieldsSeen[..], seen, iter.pos);
    }
    hide SeenBits;
    if iter.fields[iter.pos].rule.Required? && iter.requiredIndex < MAX_REQUIRED {
      var word := iter.requiredIndex / 32;
      ghost var after := fieldsSeen[..][word := SetBit(fieldsSeen[word], iter.requiredIndex % 32)];
      fieldsSeen[word] := SetBit(fieldsSeen[word], iter.requiredIndex % 32);
      assert fieldsSeen[..] == after;
    }
  }

  lemma KeyNeeded(fs: seq<Field>, s: Slice, m: Message, seen: set<nat>)
    requires SchemaOk(fs) && |m| == |fs| && s != []
    ensures ReadVarint32(s).None? ==> DecodeFields(fs, s, m, seen).None?
  {
  }

  /** There is a field for every number below the count. */
  lemma {:induction false} RequiredField(fs: seq<Field>, n: nat, b: nat) returns (i: nat)
    requires n <= |fs| && b < RequiredIndex(fs, n)
    ensures i < n && IsRequired(fs, i, b)
    decreases n
  {
    if b < RequiredIndex(fs, n - 1) {
      i := RequiredField(fs, n - 1, b);
    } else {
      i := n - 1;
    }
  }

  /** All required fields have been seen just if all bits below their number, as far as there are bits, are set. */
  lemma AllSeenIf(fs: seq<Field>, words: seq<nat>, seen: set<nat>)
    requires SeenBits(fs, words, seen)
    ensures AllSeen(fs, seen) <==>
              forall b: nat :: b < MAX_REQUIRED && b < RequiredIndex(fs, |fs|) ==> Bit(words[b / 32], b % 32)
    ensures forall b: nat :: RequiredIndex(fs, |fs|) <= b < MAX_REQUIRED ==> !Bit(words[b / 32], b % 32)
  {
    forall b: nat | RequiredIndex(fs, |fs|) <= b < MAX_REQUIRED ensures !Bit(words[b / 32], b % 32) {
      forall i: nat ensures !IsRequired(fs, i, b) {
        if i < |fs| { RequiredIndexMonotone(fs, i, |fs|); }
      }
    }
    if AllSeen(fs, seen) {
      forall b: nat | b < MAX_REQUIRED && b < RequiredIndex(fs, |fs|) ensures Bit(words[b / 32], b % 32) {
        var i := RequiredField(fs, |fs|, b);
        assert i in seen && IsRequired(fs, i, b);
      }
    }
    if forall b: nat :: b < MAX_REQUIRED && b < RequiredIndex(fs, |fs|) ==> Bit(words[b / 32], b % 32) {
      forall i | 0 <= i < |fs| && fs[i].rule.Required? && RequiredIndex(fs, i) < MAX_REQUIRED ensures i in seen {
        var b := RequiredIndex(fs, i);
        RequiredIndexMonotone(fs, i, |fs|);
        assert Bit(words[b / 32], b % 32);
        var j: nat :| j in seen && IsRequired(fs, j, b);
        if i < j { RequiredIndexMonotone(fs, i, j); }
        if j < i { RequiredIndexMonotone(fs, j, i); }
      }
    }
  }

  predicate OnlyLowBits(w: nat, n: nat, width: nat) {
    forall i: nat :: i < width ==> (Bit(w, i) <==> i < n)
  }

  lemma HalfLowBits(w: nat, n: nat, width: nat)
    requires width > 0
    ensures OnlyLowBits(w, n, width) <==>
              (w % 2 == 1 <==> 0 < n) && OnlyLowBits(w / 2, if n == 0 then 0 else n - 1, width - 1)
  {
    var k := if n == 0 then 0 else n - 1;
    assert Bit(w, 0) <==> w % 2 == 1;
    forall i: nat ensures Bit(w, i + 1) == Bit(w / 2, i) {
    }
    if OnlyLowBits(w, n, width) {
      forall i: nat | i < width - 1 ensures Bit(w / 2, i) <==> i < k { assert Bit(w, i + 1) <==> i + 1 < n; }
    }
    if (w % 2 == 1 <==> 0 < n) && OnlyLowBits(w / 2, k, width - 1) {
      forall i: nat | i < width ensures Bit(w, i) <==> i < n {
        if i > 0 { assert Bit(w, i - 1 + 1) == Bit(w / 2, i - 1); }
      }
    }
  }

  /** A word is one less than a power of two just if its low bits and no others are set. */
  lemma {:induction false} LowBits(w: nat, n: nat, width: nat)
    requires w < Pow2(width) && n <= width
    ensures w == Pow2(n) - 1 <==> OnlyLowBits(w, n, width)
    decreases width
  {
    if width > 0 {
      LowBits(w / 2, if n == 0 then 0 else n - 1, width - 1);
      HalfLowBits(w, n, width);
      hide OnlyLowBits;
    }
  }

  predicate HasLowBits(w: nat, n: nat) {
    forall j: nat :: j < n ==> Bit(w, j)
  }

  /** With no bit above, a word has all of its low bits just if it is one less than a power of two. */
  lemma FullWord(w: nat, n: nat)
    requires w < Pow2(32) && n <= 32 && forall j: nat :: n <= j < 32 ==> !Bit(w, j)
    ensures w == Pow2(n) - 1 <==> HasLowBits(w, n)
  {
    LowBits(w, n, 32);
    assert HasLowBits(w, n) <==> OnlyLowBits(w, n, 32);
  }

  /** The end of `pb_decode_noinit`: counts the required fields and compares the words with that many ones. */
  method CheckRequired(iter: FieldIter, fieldsSeen: array<nat>, ghost seen: set<nat>) returns (ok: bool)
    requires iter.Valid() && fieldsSeen.Length == 2 && SeenBits(iter.fields, fieldsSeen[..], seen)
    modifies iter
    ensures ok <==> AllSeen(iter.fields, seen)
  {
    var fs := iter.fields;
    var count, last := iter.requiredIndex, iter.pos;
    while true
      invariant iter.Valid() && count == iter.requiredIndex && last == iter.pos
      decreases |fs| - iter.pos
    {
      var more := iter.Next();
      if !more {
        break;
      }
      count, last := iter.requiredIndex, iter.pos;
    }
    if fs != [] && fs[last].rule.Required? {
      count := count + 1;
    }
    assert count == RequiredIndex(fs, |fs|);
    if count > MAX_REQUIRED {
      count := MAX_REQUIRED;
    }
    AllSeenIf(fs, fieldsSeen[..], seen);
    ok := WordsFull(fieldsSeen, count);
  }

  method WordsFull(words: array<nat>, count: nat) returns (ok: bool)
    requires words.Length == 2 && words[0] < Pow2(32) && words[1] < Pow2(32) && count <= MAX_REQUIRED
    requires forall b: nat :: count <= b < MAX_REQUIRED ==> !Bit(words[b / 32], b % 32)
    ensures ok <==> forall b: nat :: b < count ==> Bit(words[b / 32], b % 32)
  {
    hide Pow2, Bit;
    for i := 0 to count / 32
      invariant forall b: nat :: b < 32 * i ==> Bit(words[b / 32], b % 32)
    {
      FullWord(words[i], 32);
      if words[i] != Pow2(32) - 1 {
        var j: nat :| j < 32 && !Bit(words[i], j);
        assert !Bit(words[(32 * i + j) / 32], (32 * i + j) % 32);
        return false;
      }
      forall b: nat | 32 * i <= b < 32 * (i + 1) ensures Bit(words[b / 32], b % 32) {
      }
    }
    var q, rem := count / 32, count % 32;
    if rem != 0 {
      forall j: nat | rem <= j < 32 ensures !Bit(words[q], j) {
        assert !Bit(words[(32 * q + j) / 32], (32 * q + j) % 32);
      }
      FullWord(words[q], rem);
      if words[q] != Pow2(rem) - 1 {
        var j: nat :| j < rem && !Bit(words[q], j);
        assert !Bit(words[(32 * q + j) / 32], (32 * q + j) % 32);
        return false;
      }
      forall b: nat | 32 * q <= b < count ensures Bit(words[b / 32], b % 32) {
      }
    }
    ok := true;
  }
}
