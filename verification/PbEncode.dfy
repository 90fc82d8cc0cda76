/**
 The nanopb encoder: a stream that writes into a buffer of limited size, or only counts. A message within a message is
 encoded twice, once to learn its size and once to write it.
 */
module PbEncode {
  import opened Basics
  import opened Coding
  import opened PbSchema
  import opened PbCommon

  /** The counter has gone up by the length of `s`, and a buffer that is there has got `s`. */
  predicate Appended(sizing: bool, count: nat, before: Slice, s: Slice, newCount: nat, after: Slice) {
    newCount == count + |s| && after == if sizing then before else before + s
  }

  /** Two writes in a row are one of both. */
  lemma Chain(sizing: bool, count: nat, before: Slice, a: Slice, midCount: nat, mid: Slice, b: Slice, newCount: nat,
              after: Slice)
    requires Appended(sizing, count, before, a, midCount, mid) && Appended(sizing, midCount, mid, b, newCount, after)
    ensures Appended(sizing, count, before, a + b, newCount, after)
    ensures midCount == count + |a| && newCount == count + |a| + |b|
  {
    assert before + a + b == before + (a + b);
  }

  lemma NothingYet(sizing: bool, count: nat, before: Slice)
    ensures Appended(sizing, count, before, [], count, before)
  {
  }

  function First(vs: seq<Value>, n: nat): seq<Value>
    requires n <= |vs|
  {
    vs[..n]
  }

  lemma NoItems(k: Kind, vs: seq<Value>)
    ensures EncodePacked(k, First(vs, 0)) == [] && First(vs, |vs|) == vs
  {
  }

  lemma NoTaggedItems(f: Field, vs: seq<Value>)
    ensures EncodeUnpacked(f, First(vs, 0)) == [] && AllLegal(f.kind, First(vs, 0)) && First(vs, |vs|) == vs
  {
  }

  lemma NoFields(fs: seq<Field>, m: Message)
    requires fs == []
    ensures EncodeMessage(fs, m, 0) == [] && LegalMessage(fs, m, false)
  {
  }

  ghost predicate AllTyped(k: Kind, vs: seq<Value>) {
    forall j :: 0 <= j < |vs| ==> Typed(k, vs[j])
  }

  ghost predicate AllLegal(k: Kind, vs: seq<Value>) {
    forall j :: 0 <= j < |vs| ==> Legal(k, vs[j], false)
  }

  lemma ItemAt(k: Kind, vs: seq<Value>, i: nat)
    requires i < |vs| && AllTyped(k, vs)
    ensures Typed(k, vs[i])
    ensures AllLegal(k, vs) ==> Legal(k, vs[i], false)
    ensures AllLegal(k, First(vs, i)) && Legal(k, vs[i], false) ==> AllLegal(k, First(vs, i + 1))
  {
  }

  class OStream {
    const sizing: bool
    const maxSize: nat
    var bytesWritten: nat
    var output: Slice

    ghost predicate Valid()
      reads this
    {
      !sizing ==> bytesWritten <= maxSize
    }

    ghost predicate Room(n: nat)
      reads this
    {
      sizing || bytesWritten + n <= maxSize
    }

    /** Since the counter was at `count` and the buffer held `before`, exactly `s` has come. */
    ghost predicate Wrote(count: nat, before: Slice, s: Slice)
      reads this
    {
      Appended(sizing, count, before, s, bytesWritten, output)
    }

    constructor (sizing: bool, maxSize: nat)
      ensures Valid() && this.sizing == sizing && this.maxSize == maxSize && bytesWritten == 0 && output == []
    {
      this.sizing, this.maxSize, bytesWritten, output := sizing, maxSize, 0, [];
    }

    /** `pb_write`. */
    method Write(buf: Slice) returns (ok: bool)
      requires Valid()
      modifies this
      ensures Valid() && (ok <==> old(Room(|buf|))) && (ok ==> Wrote(old(bytesWritten), old(output), buf))
    {
      if |buf| > 0 && !sizing {
        if bytesWritten + |buf| > maxSize {
          return false;
        }
        output := output + buf;
      }
      bytesWritten := bytesWritten + |buf|;
      ok := true;
    }

    /** `pb_write` without a buffer, on a stream that only counts. */
    method Count(n: nat)
      requires Valid() && sizing
      modifies this
      ensures Valid() && bytesWritten == old(bytesWritten) + n && output == old(output)
    {
      bytesWritten := bytesWritten + n;
    }

    /** `pb_encode_varint`. */
    method EncodeVarint(v: nat) returns (ok: bool)
      requires Valid() && v < TWO_64
      modifies this
      ensures Valid() && (ok <==> old(Room(|Varint(v)|))) && (ok ==> Wrote(old(bytesWritten), old(output), Varint(v)))
    {
      if v <= 0x7f {
        ok := Write([v]);
        return;
      }
      var groups := Groups(v);
      ok := Write(groups);
    }

    /** The multibyte case: groups of seven bits into a buffer of ten bytes. */
    static method Groups(v: nat) returns (s: Slice)
      requires 0x7f < v < TWO_64
      ensures s == Varint(v)
    {
      var buffer := new Byte[10](i => 0);
      var i: nat, x: nat := 0, v;
      Pow128Ten();
      hide Pow128, Varint;
      while x != 0
        invariant 0 <= i <= 10 && x < Pow128(10 - i)
        invariant x > 0 ==> Varint(v) == buffer[..i] + Varint(x)
        invariant x == 0 ==> i > 0 && buffer[i - 1] >= 0x80 && Varint(v) == buffer[..i - 1] + [buffer[i - 1] - 0x80]
        decreases x
      {
        FewerGroups(x, 10 - i);
        buffer[i] := x % 0x80 + 0x80;
        assert buffer[..i + 1] == buffer[..i] + [x % 0x80 + 0x80];
        MoreGroups(v, x, buffer[..i]);
        x := x / 0x80;
        i := i + 1;
      }
      buffer[i - 1] := buffer[i - 1] % 0x80;
      s := buffer[..i];
    }

    /** `pb_encode_svarint`. */
    method EncodeSvarint(x: int) returns (ok: bool)
      requires Valid() && -0x8000_0000_0000_0000 <= x < 0x8000_0000_0000_0000
      modifies this
      ensures Valid() && (ok <==> old(Room(|Varint(Zigzag(x))|)))
      ensures ok ==> Wrote(old(bytesWritten), old(output), Varint(Zigzag(x)))
    {
      var shifted := (2 * (if x < 0 then x + TWO_64 else x)) % TWO_64;
      var zigzagged := if x < 0 then TWO_64 - 1 - shifted else shifted;
      assert zigzagged == Zigzag(x);
      ok := EncodeVarint(zigzagged);
    }

    /** `pb_encode_fixed32` and `pb_encode_fixed64`. */
    method EncodeFixed(v: nat, width: nat) returns (ok: bool)
      requires Valid() && (width == 4 || width == 8)
      modifies this
      ensures Valid() && (ok <==> old(Room(width)))
      ensures ok ==> Wrote(old(bytesWritten), old(output), ToLittleEndian(v, width))
    {
      var bytes := FixedBytes(v, width);
      ok := Write(bytes);
    }

    static method FixedBytes(v: nat, width: nat) returns (bytes: Slice)
      ensures bytes == ToLittleEndian(v, width)
    {
      hide ToLittleEndian;
      var x: nat, i := v, 0;
      bytes := [];
      while i < width
        invariant 0 <= i <= width && ToLittleEndian(v, width) == bytes + ToLittleEndian(x, width - i)
      {
        NextByte(ToLittleEndian(v, width), bytes, x, width - i);
        bytes, x, i := bytes + [x % 0x100], x / 0x100, i + 1;
      }
    }

    method EncodeTag(wire: nat, tag: nat) returns (ok: bool)
      requires Valid() && wire < 8 && tag < 0x2000_0000
      modifies this
      ensures Valid() && (ok <==> old(Room(|Tag(wire, tag)|)))
      ensures ok ==> Wrote(old(bytesWritten), old(output), Tag(wire, tag))
    {
      ok := EncodeVarint(tag * 8 + wire);
    }

    /** `pb_encode_string`. */
    method EncodeString(s: Slice) returns (ok: bool)
      requires Valid() && |s| < TWO_64
      modifies this
      ensures Valid() && (ok <==> old(Room(|Prefixed(s)|)))
      ensures ok ==> Wrote(old(bytesWritten), old(output), Prefixed(s))
    {
      ok := EncodeVarint(|s|);
      if !ok {
        return;
      }
      ghost var countL, outL := bytesWritten, output;
      ok := Write(s);
      if ok { Chain(sizing, old(bytesWritten), old(output), Varint(|s|), countL, outL, s, bytesWritten, output); }
    }

    /** The encoder functions for the values of a field: `pb_enc_bool` and so on. */
    method EncodeTheValue(k: Kind, v: Value) returns (ok: bool)
      requires Valid() && KindOk(k) && Typed(k, v) && |EncodeValue(k, v)| < TWO_64
      modifies this
      ensures Valid() && (ok <==> Legal(k, v, false) && old(Room(|EncodeValue(k, v)|)))
      ensures ok ==> Wrote(old(bytesWritten), old(output), EncodeValue(k, v))
      decreases k, 0, 0
    {
      match k
      case BytesKind(n) =>
        if |v.bytes| > n {
          return false;
        }
        ok := EncodeString(v.bytes);
      case StringKind(n) =>
        var size := 0;
        while size < n && size < |v.chars| && v.chars[size] != 0
          invariant 0 <= size <= |v.chars|
        {
          size := size + 1;
        }
        NoNulBefore(v.chars, size);
        ok := EncodeString(v.chars[..size]);
        assert v.chars[..size] == v.chars;
      case MessageKind(fs) =>
        ok := EncodeSubmessage(fs, v.contents);
      case _ =>
        ok := EncodeInteger(k, v);
    }

    method EncodeInteger(k: Kind, v: Value) returns (ok: bool)
      requires Valid() && KindOk(k) && Packable(k) && Typed(k, v)
      modifies this
      ensures Valid() && (ok <==> old(Room(|EncodeValue(k, v)|)))
      ensures ok ==> Wrote(old(bytesWritten), old(output), EncodeValue(k, v))
    {
      PowBytes();
      hide Valid, Room, Wrote, Pow256;
      match k
      case BoolKind =>
        ok := EncodeVarint(if v.flag then 1 else 0);
      case SVarintKind(w) =>
        ok := EncodeSvarint(v.number);
      case Fixed32Kind =>
        ok := EncodeFixed(v.number, 4);
      case Fixed64Kind =>
        ok := EncodeFixed(v.number, 8);
      case VarintKind(w) =>
        ok := EncodeVarint(if v.number < 0 then v.number + TWO_64 else v.number);
      case UVarintKind(w) =>
        ok := EncodeVarint(v.number);
    }

    /** `pb_encode_submessage`: the message is encoded for its size first, and then to be written. */
    method EncodeSubmessage(fs: seq<Field>, m: Message) returns (ok: bool)
      requires Valid() && SchemaOk(fs) && TypedMessage(fs, m) && |Prefixed(EncodeMessage(fs, m, 0))| < TWO_64
      modifies this
      ensures Valid() && (ok <==> LegalMessage(fs, m, false) && old(Room(|Prefixed(EncodeMessage(fs, m, 0))|)))
      ensures ok ==> Wrote(old(bytesWritten), old(output), Prefixed(EncodeMessage(fs, m, 0)))
      decreases fs, |fs| + 2, 0
    {
      ghost var s := EncodeMessage(fs, m, 0);
      var sizeStream := new OStream(true, 0);
      ok := sizeStream.Encode(fs, m);
      if !ok {
        return;
      }
      var size := sizeStream.bytesWritten;
      ok := EncodeVarint(size);
      if !ok {
        return;
      }
      ghost var countL, outL := bytesWritten, output;
      if sizing {
        Count(size);
        Chain(sizing, old(bytesWritten), old(output), Varint(size), countL, outL, s, bytesWritten, output);
        return true;
      }
      if bytesWritten + size > maxSize {
        return false;
      }
      var substream := new OStream(false, size);
      var status := substream.Encode(fs, m);
      bytesWritten := bytesWritten + substream.bytesWritten;
      output := output + substream.output;
      if substream.bytesWritten != size {
        return false;
      }
      Chain(sizing, old(bytesWritten), old(output), Varint(size), countL, outL, s, bytesWritten, output);
      ok := status;
    }

    /** `encode_array`. */
    method EncodeArray(f: Field, vs: seq<Value>) returns (ok: bool)
      requires Valid() && FieldOk(f) && f.rule.Repeated? && TypedContent(f, Many(vs))
      requires |EncodeContent(f, Many(vs))| < TWO_64
      modifies this
      ensures Valid() && (ok <==> LegalContent(f, Many(vs), false) && old(Room(|EncodeContent(f, Many(vs))|)))
      ensures ok ==> Wrote(old(bytesWritten), old(output), EncodeContent(f, Many(vs)))
      decreases f, 1, 1
    {
      if vs == [] {
        return true;
      }
      if |vs| > f.rule.arraySize {
        return false;
      }
      if Packable(f.kind) {
        ok := EncodePackedArray(f, vs);
      } else {
        ok := EncodeUnpackedArray(f, vs);
      }
    }

    method EncodePackedArray(f: Field, vs: seq<Value>) returns (ok: bool)
      requires Valid() && FieldOk(f) && Packable(f.kind) && AllTyped(f.kind, vs)
      requires |Tag(WIRE_STRING, f.tag) + Prefixed(EncodePacked(f.kind, vs))| < TWO_64
      modifies this
      ensures Valid() && (ok <==> old(Room(|Tag(WIRE_STRING, f.tag) + Prefixed(EncodePacked(f.kind, vs))|)))
      ensures ok ==> Wrote(old(bytesWritten), old(output), Tag(WIRE_STRING, f.tag) + Prefixed(EncodePacked(f.kind, vs)))
    {
      ghost var packed := EncodePacked(f.kind, vs);
      ok := EncodeTag(WIRE_STRING, f.tag);
      if !ok {
        return;
      }
      var size := PackedSize(f.kind, vs);
      ghost var countL, outL := bytesWritten, output;
      ok := EncodeVarint(size);
      if !ok {
        return;
      }
      Chain(sizing, old(bytesWritten), old(output), Tag(WIRE_STRING, f.tag), countL, outL, Varint(size), bytesWritten,
            output);
      ghost var countM, outM := bytesWritten, output;
      if sizing {
        Count(size);
        ok := true;
      } else {
        ok := EncodeItems(f.kind, vs);
      }
      if ok {
        Chain(sizing, old(bytesWritten), old(output), Tag(WIRE_STRING, f.tag) + Varint(size), countM, outM, packed,
              bytesWritten, output);
        TagThenPrefixed(Tag(WIRE_STRING, f.tag), packed);
      }
    }

    static method PackedSize(k: Kind, vs: seq<Value>) returns (size: nat)
      requires KindOk(k) && Packable(k) && AllTyped(k, vs)
      ensures size == |EncodePacked(k, vs)|
    {
      if k.Fixed32Kind? {
        FixedPacked(k, vs, 4);
        return 4 * |vs|;
      }
      if k.Fixed64Kind? {
        FixedPacked(k, vs, 8);
        return 8 * |vs|;
      }
      var sizeStream := new OStream(true, 0);
      var _ := sizeStream.EncodeItems(k, vs);
      size := sizeStream.bytesWritten;
    }

    method EncodeItems(k: Kind, vs: seq<Value>) returns (ok: bool)
      requires Valid() && KindOk(k) && Packable(k) && AllTyped(k, vs)
      modifies this
      ensures Valid() && (ok <==> old(Room(|EncodePacked(k, vs)|)))
      ensures ok ==> Wrote(old(bytesWritten), old(output), EncodePacked(k, vs))
    {
      var i := 0;
      hide KindOk, SchemaOk, FieldOk, Typed, TypedMessage, TypedContent, FitsSigned, First, EncodePacked, EncodeValue,
           AllTyped, Appended;
      NothingYet(sizing, bytesWritten, output);
      NoItems(k, vs);
      while i < |vs|
        invariant 0 <= i <= |vs| && Valid() && Wrote(old(bytesWritten), old(output), EncodePacked(k, First(vs, i)))
        invariant bytesWritten == old(bytesWritten) + |EncodePacked(k, First(vs, i))|
      {
        PackedPrefix(k, vs, i);
        ItemAt(k, vs, i);
        ghost var countL, outL := bytesWritten, output;
        ok := EncodeInteger(k, vs[i]);
        if !ok {
          return;
        }
        Chain(sizing, old(bytesWritten), old(output), EncodePacked(k, First(vs, i)), countL, outL,
              EncodeValue(k, vs[i]), bytesWritten, output);
        i := i + 1;
      }
      ok := true;
    }

    method EncodeTagged(f: Field, v: Value) returns (ok: bool)
      requires Valid() && FieldOk(f) && Typed(f.kind, v) && |Tagged(f, v)| < TWO_64
      modifies this
      ensures Valid() && (ok <==> Legal(f.kind, v, false) && old(Room(|Tagged(f, v)|)))
      ensures ok ==> Wrote(old(bytesWritten), old(output), Tagged(f, v))
      decreases f, 0, 0
    {
      ok := EncodeTag(WireType(f.kind), f.tag);
      if !ok {
        return;
      }
      ghost var countL, outL := bytesWritten, output;
      ok := EncodeTheValue(f.kind, v);
      if ok {
        Chain(sizing, old(bytesWritten), old(output), Tag(WireType(f.kind), f.tag), countL, outL,
              EncodeValue(f.kind, v), bytesWritten, output);
      }
    }

    method EncodeUnpackedArray(f: Field, vs: seq<Value>) returns (ok: bool)
      requires Valid() && FieldOk(f) && |EncodeUnpacked(f, vs)| < TWO_64
      requires AllTyped(f.kind, vs)
      modifies this
      ensures Valid() && (ok <==> AllLegal(f.kind, vs) && old(Room(|EncodeUnpacked(f, vs)|)))
      ensures ok ==> Wrote(old(bytesWritten), old(output), EncodeUnpacked(f, vs))
      decreases f, 1, 0
    {
      var i := 0;
      hide KindOk, SchemaOk, FieldOk, Typed, TypedMessage, TypedContent, FitsSigned, First, Legal, EncodeUnpacked,
           Tagged, AllTyped, AllLegal, Appended;
      NothingYet(sizing, bytesWritten, output);
      NoTaggedItems(f, vs);
      while i < |vs|
        invariant 0 <= i <= |vs| && Valid() && Wrote(old(bytesWritten), old(output), EncodeUnpacked(f, First(vs, i)))
        invariant bytesWritten == old(bytesWritten) + |EncodeUnpacked(f, First(vs, i))|
        invariant AllLegal(f.kind, First(vs, i))
      {
        UnpackedPrefix(f, vs, i);
        ItemAt(f.kind, vs, i);
        ghost var countL, outL := bytesWritten, output;
        ok := EncodeTagged(f, vs[i]);
        if !ok {
          return;
        }
        Chain(sizing, old(bytesWritten), old(output), EncodeUnpacked(f, First(vs, i)), countL, outL, Tagged(f, vs[i]),
              bytesWritten, output);
        i := i + 1;
      }
      ok := true;
    }

    /** `encode_basic_field`. */
    method EncodeField(f: Field, c: Content) returns (ok: bool)
      requires Valid() && FieldOk(f) && TypedContent(f, c) && |EncodeContent(f, c)| < TWO_64
      modifies this
      ensures Valid() && (ok <==> LegalContent(f, c, false) && old(Room(|EncodeContent(f, c)|)))
      ensures ok ==> Wrote(old(bytesWritten), old(output), EncodeContent(f, c))
      decreases f, 2, 0
    {
      if f.rule.Repeated? {
        ok := EncodeArray(f, c.values);
        return;
      }
      if f.rule.Optional? && !c.present {
        return true;
      }
      ok := EncodeTagged(f, c.value);
    }

    /** `pb_encode`: succeeds if and only if all that is present keeps its limits and the buffer has room. */
    method Encode(fs: seq<Field>, m: Message) returns (ok: bool)
      requires Valid() && SchemaOk(fs) && TypedMessage(fs, m) && |EncodeMessage(fs, m, 0)| < TWO_64
      modifies this
      ensures Valid() && (ok <==> LegalMessage(fs, m, false) && old(Room(|EncodeMessage(fs, m, 0)|)))
      ensures ok ==> Wrote(old(bytesWritten), old(output), EncodeMessage(fs, m, 0))
      decreases fs, |fs| + 1, 0
    {
      hide KindOk, FieldOk, SchemaOk, Typed, TypedContent, TypedMessage, FitsSigned, LegalContent, LegalMessage,
           EncodeContent, EncodeMessage, DoneUpTo, RequiredIndex, Appended;
      NothingDone(fs, m);
      var iter := new FieldIter(fs);
      if fs == [] {
        NoFields(fs, m);
        NothingYet(sizing, bytesWritten, output);
        return true;
      }
      ghost var done: Slice := [];
      NothingYet(sizing, bytesWritten, output);
      while true
        invariant iter.Valid() && iter.fields == fs && Valid()
        invariant DoneUpTo(fs, m, done, iter.pos)
        invariant Wrote(old(bytesWritten), old(output), done) && bytesWritten == old(bytesWritten) + |done|
        decreases |fs| - iter.pos
      {
        var i := iter.pos;
        ghost var content := EncodeContent(fs[i], m[i]);
        assert TypedContent(fs[i], m[i]) && FieldOk(fs[i]) by { FieldAt(fs, m, i); }
        OneField(fs, m, i, done);
        ghost var countL, outL := bytesWritten, output;
        ok := EncodeField(fs[i], m[i]);
        if !ok {
          return;
        }
        Chain(sizing, old(bytesWritten), old(output), done, countL, outL, content, bytesWritten, output);
        done := done + content;
        var more := iter.Next();
        if !more {
          AllDone(fs, m, done);
          break;
        }
      }
    }
  }

  lemma {:induction false} FixedPacked(k: Kind, vs: seq<Value>, width: nat)
    requires (k.Fixed32Kind? && width == 4) || (k.Fixed64Kind? && width == 8)
    requires AllTyped(k, vs)
    ensures |EncodePacked(k, vs)| == width * |vs|
    decreases |vs|
  {
    if vs != [] { FixedPacked(k, vs[..|vs| - 1], width); }
  }

  lemma {:induction false} PackedPrefix(k: Kind, vs: seq<Value>, n: nat)
    requires n < |vs|
    ensures EncodePacked(k, First(vs, n + 1)) == EncodePacked(k, First(vs, n)) + EncodeValue(k, vs[n])
    ensures |EncodePacked(k, First(vs, n + 1))| <= |EncodePacked(k, vs)|
    decreases |vs|
  {
    assert vs[..n + 1][..n] == vs[..n];
    if n + 1 < |vs| {
      assert vs[..|vs| - 1][..n] == vs[..n] && vs[..|vs| - 1][..n + 1] == vs[..n + 1];
      PackedPrefix(k, vs[..|vs| - 1], n);
    } else {
      assert vs[..n + 1] == vs;
    }
  }

  lemma {:induction false} UnpackedPrefix(f: Field, vs: seq<Value>, n: nat)
    requires n < |vs|
    ensures EncodeUnpacked(f, First(vs, n + 1)) == EncodeUnpacked(f, First(vs, n)) + Tagged(f, vs[n])
    ensures |EncodeUnpacked(f, First(vs, n + 1))| <= |EncodeUnpacked(f, vs)|
    decreases |vs|
  {
    assert vs[..n + 1][..n] == vs[..n];
    if n + 1 < |vs| {
      assert vs[..|vs| - 1][..n] == vs[..n] && vs[..|vs| - 1][..n + 1] == vs[..n + 1];
      UnpackedPrefix(f, vs[..|vs| - 1], n);
    } else {
      assert vs[..n + 1] == vs;
    }
  }

  /** The fields before `i` are legal, and `done` is what they are on the wire. */
  ghost predicate DoneUpTo(fs: seq<Field>, m: Message, done: Slice, i: nat) {
    && i <= |fs| == |m| && EncodeMessage(fs, m, 0) == done + EncodeMessage(fs, m, i)
    && forall j :: 0 <= j < i ==> LegalContent(fs[j], m[j], false)
  }

  lemma NothingDone(fs: seq<Field>, m: Message)
    requires TypedMessage(fs, m)
    ensures |m| == |fs| && DoneUpTo(fs, m, [], 0)
  {
    hide LegalContent, EncodeMessage;
    assert [] + EncodeMessage(fs, m, 0) == EncodeMessage(fs, m, 0);
  }

  lemma FieldAt(fs: seq<Field>, m: Message, i: nat)
    requires SchemaOk(fs) && TypedMessage(fs, m) && i < |fs|
    ensures TypedContent(fs[i], m[i]) && FieldOk(fs[i])
  {
    hide TypedContent, FieldOk;
  }

  lemma OneField(fs: seq<Field>, m: Message, i: nat, done: Slice)
    requires i < |fs| == |m| && DoneUpTo(fs, m, done, i)
    ensures |done| + |EncodeContent(fs[i], m[i])| <= |EncodeMessage(fs, m, 0)|
    ensures !LegalContent(fs[i], m[i], false) ==> !LegalMessage(fs, m, false)
    ensures LegalContent(fs[i], m[i], false) ==> DoneUpTo(fs, m, done + EncodeContent(fs[i], m[i]), i + 1)
  {
    var content, more := EncodeContent(fs[i], m[i]), EncodeMessage(fs, m, i + 1);
    assert EncodeMessage(fs, m, i) == content + more;
    hide LegalContent, EncodeContent, EncodeMessage;
    assert done + (content + more) == done + content + more;
  }

  lemma AllDone(fs: seq<Field>, m: Message, done: Slice)
    requires DoneUpTo(fs, m, done, |fs|)
    ensures LegalMessage(fs, m, false) && done == EncodeMessage(fs, m, 0)
  {
    assert EncodeMessage(fs, m, |fs|) == [];
    hide LegalContent, EncodeMessage;
  }

  lemma NextByte(all: Slice, bytes: Slice, x: nat, n: nat)
    requires n > 0 && all == bytes + ToLittleEndian(x, n)
    ensures all == bytes + [x % 0x100] + ToLittleEndian(x / 0x100, n - 1)
  {
  }

  lemma TagThenPrefixed(tag: Slice, s: Slice)
    ensures tag + Varint(|s|) + s == tag + Prefixed(s)
  {
  }

  lemma NoNulBefore(s: Slice, n: nat)
    requires 0 !in s && n <= |s|
    ensures n < |s| ==> s[n] != 0
  {
  }

  lemma MoreGroups(v: nat, x: nat, s: Slice)
    requires x > 0 && Varint(v) == s + Varint(x)
    ensures x >= 0x80 ==> Varint(v) == s + [x % 0x80 + 0x80] + Varint(x / 0x80)
    ensures x < 0x80 ==> Varint(v) == s + [x]
  {
  }

  lemma FewerGroups(x: nat, n: nat)
    requires 0 < x < Pow128(n)
    ensures n > 0 && x / 0x80 < Pow128(n - 1)
  {
  }
}
