/**
 Decoding what was encoded: with the same schema the message comes back, with one that lacks some of the fields it
 comes back without them; and what some messages are in bytes.
 */
module PbRoundTrip {
  import opened Basics
  import opened Coding
  import opened PbSchema
  import opened PbDecode
  import opened PbIntegers
  import opened PbEvolution

  // ---------------------------------------------------------------------------------------------------------------
  // A schema agrees with itself, and nothing is converted.

  lemma {:induction false} SelfAgree(fs: seq<Field>)
    requires SchemaOk(fs)
    ensures Agree(fs, fs)
    decreases fs, 1
  {
    forall i, j | 0 <= i < |fs| && 0 <= j < |fs| && fs[i].tag == fs[j].tag ensures FieldsAgree(fs[i], fs[j]) {
      assert i == j && FieldOk(fs[i]);
      FieldSelfAgrees(fs[i]);
    }
  }

  lemma {:induction false} FieldSelfAgrees(f: Field)
    requires FieldOk(f)
    ensures FieldsAgree(f, f)
    decreases f, 1
  {
    KindSelfAgrees(f.kind);
  }

  lemma {:induction false} KindSelfAgrees(k: Kind)
    requires KindOk(k)
    ensures KindsAgree(k, k)
    decreases k, 0
  {
    if k.MessageKind? { SelfAgree(k.fields); }
  }

  lemma SelfInt(width: nat, x: int)
    requires IsWidth(width) && FitsSigned(x, width)
    ensures ConvertedInt(VarintKind(width), x) == x
  {
    SignedRoundTrip(x, width);
    PowBytes();
    assert width != 8 ==> FitsSigned(x, 4);
    SignedFits(x, 4);
    hide Signed;
  }

  /** Within one schema a value is restored, and it is accepted as far as it is legal. */
  ghost predicate SelfReads(k: Kind, v: Value) {
    && Converted(k, k, v) == Restored(k, v)
    && (AcceptsValue(k, k, v) <==> Legal(k, v, true))
  }

  lemma {:induction false} SelfValue(k: Kind, v: Value)
    requires KindOk(k) && Typed(k, v)
    ensures SelfReads(k, v)
    decreases k, 0
  {
    match k
    case VarintKind(width) => SelfInt(width, v.number);
    case MessageKind(fs) => SelfMessage(fs, v.contents);
    case _ =>
  }

  lemma {:induction false} SelfContent(f: Field, c: Content)
    requires FieldOk(f) && TypedContent(f, c)
    ensures ConvertedContent(f, f, c) == RestoredContent(f, c)
    ensures AcceptsContent(f, f, c) <==> LegalContent(f, c, true)
    ensures f.rule.Required? ==> IsSent(c)
    decreases f, 2
  {
    match c
    case Single(present, v) => SelfValue(f.kind, v);
    case Many(vs) =>
      forall j | 0 <= j < |vs| ensures SelfReads(f.kind, vs[j]) {
        SelfValue(f.kind, vs[j]);
      }
      hide Converted, Restored, AcceptsValue, Legal;
      assert ConvertedAll(f.kind, f.kind, vs) == RestoredContent(f, c).values;
  }

  lemma {:induction false} SelfMessage(fs: seq<Field>, m: Message)
    requires SchemaOk(fs) && TypedMessage(fs, m)
    ensures ConvertedMessage(fs, fs, m) == RestoredMessage(fs, m)
    ensures Accepts(fs, fs, m) <==> LegalMessage(fs, m, true)
    decreases fs, 3
  {
    forall i | 0 <= i < |fs|
      ensures Find(fs, fs[i].tag) == Some(i)
      ensures ConvertedContent(fs[i], fs[i], m[i]) == RestoredContent(fs[i], m[i])
      ensures AcceptsContent(fs[i], fs[i], m[i]) <==> LegalContent(fs[i], m[i], true)
      ensures fs[i].rule.Required? ==> IsSent(m[i])
    {
      FoundAt(fs, i);
      SelfContent(fs[i], m[i]);
    }
    hide ConvertedContent, RestoredContent, AcceptsContent, LegalContent, IsSent, SchemaOk, TypedMessage;
    assert ConvertedMessage(fs, fs, m) == RestoredMessage(fs, m);
  }

  // ---------------------------------------------------------------------------------------------------------------
  // The results.

  /**
   A string that fills its array is encoded all the same, but the decoder wants room for a NUL: then, and only then, it
   fails.
   */
  lemma StringNeedsNul(n: nat, isNew: bool, before: Value, v: Value, rest: Slice)
    requires Typed(StringKind(n), v) && |v.chars| < TWO_32
    ensures Legal(StringKind(n), v, false)
    ensures DecodeValue(StringKind(n), isNew, before, EncodeValue(StringKind(n), v) + rest).None? <==> |v.chars| == n
  {
    StringRoundTrip(v.chars, rest);
  }

  /**
   The main result for one schema: of a message that the encoder takes, decoding the encoding gives back all that is
   present, with defaults for what is not, exactly when every array limit is kept and every string at every depth has
   room for its NUL; otherwise decoding fails.
   */
  lemma RoundTrip(fs: seq<Field>, m: Message)
    requires SchemaOk(fs) && TypedMessage(fs, m) && |EncodeMessage(fs, m, 0)| < TWO_32
    ensures Decode(fs, EncodeMessage(fs, m, 0)) == Some(RestoredMessage(fs, m)) <==> LegalMessage(fs, m, true)
    ensures Decode(fs, EncodeMessage(fs, m, 0)).None? <==> !LegalMessage(fs, m, true)
  {
    SelfAgree(fs);
    MessageRead(fs, fs, m);
    SelfMessage(fs, m);
    hide DecodeInto, EncodeMessage, Agree, Accepts, ConvertedMessage, RestoredMessage, LegalMessage;
  }

  function Selected<T>(s: seq<T>, keep: seq<nat>): (r: seq<T>)
    requires forall j :: 0 <= j < |keep| ==> keep[j] < |s|
    ensures |r| == |keep|
  {
    seq(|keep|, j requires 0 <= j < |keep| => s[keep[j]])
  }

  /** Some of the fields, each once, in any order. */
  predicate IsSelection(keep: seq<nat>, n: nat) {
    && (forall j :: 0 <= j < |keep| ==> keep[j] < n)
    && forall i, j :: 0 <= i < j < |keep| ==> keep[i] != keep[j]
  }

  lemma SelectionOk(fs: seq<Field>, keep: seq<nat>)
    requires SchemaOk(fs) && IsSelection(keep, |fs|)
    ensures SchemaOk(Selected(fs, keep)) && Agree(Selected(fs, keep), fs)
  {
    SelfAgree(fs);
    hide FieldOk, FieldsAgree;
    var rs := Selected(fs, keep);
    forall i, j | 0 <= i < |rs| && 0 <= j < |fs| && rs[i].tag == fs[j].tag ensures FieldsAgree(rs[i], fs[j]) {
      assert rs[i] == fs[keep[i]];
    }
  }

  /** What a reader that knows some of the fields makes of the one at `j`, and of the writer's at `k`. */
  lemma SelectedRead(fs: seq<Field>, keep: seq<nat>, m: Message, j: nat)
    requires SchemaOk(fs) && IsSelection(keep, |fs|) && TypedMessage(fs, m) && j < |keep|
    ensures Find(Selected(fs, keep), fs[keep[j]].tag) == Some(j)
    ensures ConvertedField(Selected(fs, keep)[j], fs, m) == RestoredContent(fs[keep[j]], m[keep[j]])
    ensures fs[keep[j]].rule.Required? ==> Sends(fs, m, fs[keep[j]].tag)
  {
    SelectionOk(fs, keep);
    FoundAt(Selected(fs, keep), j);
    FoundAt(fs, keep[j]);
    assert FieldOk(fs[keep[j]]);
    SelfContent(fs[keep[j]], m[keep[j]]);
    hide ConvertedContent, RestoredContent, AcceptsContent, LegalContent, IsSent;
  }

  lemma SelectedField(fs: seq<Field>, keep: seq<nat>, m: Message, k: nat)
    requires SchemaOk(fs) && IsSelection(keep, |fs|) && TypedMessage(fs, m) && k < |fs|
    ensures AcceptsField(Selected(fs, keep), fs[k], m[k]) <==>
            match Find(Selected(fs, keep), fs[k].tag)
            case None => true
            case Some(j) => LegalContent(Selected(fs, keep)[j], Selected(m, keep)[j], true)
  {
    var place := Find(Selected(fs, keep), fs[k].tag);
    if place.Some? {
      FoundAt(fs, k);
      FoundAt(fs, keep[place.value]);
      assert FieldOk(fs[k]);
      SelfContent(fs[k], m[k]);
      hide ConvertedContent, RestoredContent, AcceptsContent, LegalContent, IsSent;
    }
  }

  lemma SelectedAccepts(fs: seq<Field>, keep: seq<nat>, m: Message)
    requires SchemaOk(fs) && IsSelection(keep, |fs|) && TypedMessage(fs, m)
    ensures Accepts(Selected(fs, keep), fs, m) <==> LegalMessage(Selected(fs, keep), Selected(m, keep), true)
  {
    var rs, n := Selected(fs, keep), Selected(m, keep);
    forall j | 0 <= j < |rs|
      ensures Find(rs, fs[keep[j]].tag) == Some(j) && (rs[j].rule.Required? ==> Sends(fs, m, rs[j].tag))
    {
      SelectedRead(fs, keep, m, j);
    }
    forall k | 0 <= k < |fs|
      ensures AcceptsField(rs, fs[k], m[k]) <==>
              match Find(rs, fs[k].tag) { case None => true case Some(j) => LegalContent(rs[j], n[j], true) }
    {
      SelectedField(fs, keep, m, k);
    }
    hide AcceptsField, LegalContent, Sends, SchemaOk, TypedMessage, Find;
    if Accepts(rs, fs, m) {
      forall j | 0 <= j < |rs| ensures LegalContent(rs[j], n[j], true) {
        assert AcceptsField(rs, fs[keep[j]], m[keep[j]]);
      }
    }
  }

  /**
   Forward compatibility: a reader whose schema lacks some of the fields gets the message without them, exactly when the
   fields that it has are legal, whatever is in the others.
   */
  lemma UnknownFieldsAreSkipped(fs: seq<Field>, keep: seq<nat>, m: Message)
    requires SchemaOk(fs) && IsSelection(keep, |fs|) && TypedMessage(fs, m) && |EncodeMessage(fs, m, 0)| < TWO_32
    ensures SchemaOk(Selected(fs, keep))
    ensures Decode(Selected(fs, keep), EncodeMessage(fs, m, 0)) ==
            if LegalMessage(Selected(fs, keep), Selected(m, keep), true)
            then Some(RestoredMessage(Selected(fs, keep), Selected(m, keep)))
            else None
  {
    SelectionOk(fs, keep);
    var rs, n := Selected(fs, keep), Selected(m, keep);
    MessageRead(rs, fs, m);
    SelectedAccepts(fs, keep, m);
    forall j | 0 <= j < |rs| ensures ConvertedField(rs[j], fs, m) == RestoredContent(rs[j], n[j]) {
      SelectedRead(fs, keep, m, j);
    }
    hide DecodeInto, EncodeMessage, Accepts, ConvertedField, RestoredContent, LegalMessage, SchemaOk;
    assert ConvertedMessage(rs, fs, m) == RestoredMessage(rs, n);
  }

  // ---------------------------------------------------------------------------------------------------------------
  // What is on the wire, in bytes (Protocol Buffers Encoding).

  /** The encoding of a message of one field. */
  function Alone(tag: nat, kind: Kind, v: Value): Slice {
    EncodeMessage([Field(tag, Optional, kind, v)], [Single(true, v)], 0)
  }

  lemma AloneIsTagged(tag: nat, kind: Kind, v: Value)
    requires tag < 16
    ensures Alone(tag, kind, v) == [tag * 8 + WireType(kind)] + EncodeValue(kind, v)
  {
    var f := Field(tag, Optional, kind, v);
    hide EncodeValue;
    assert Tag(WireType(kind), tag) == [tag * 8 + WireType(kind)];
    assert EncodeContent(f, Single(true, v)) == [tag * 8 + WireType(kind)] + EncodeValue(kind, v);
    assert EncodeMessage([f], [Single(true, v)], 1) == [];
  }

  /** Numbers of fixed length: the low byte first, under wire types 5 and 1. */
  lemma FixedBytes()
    ensures Alone(1, Fixed32Kind, IntValue(7)) == [0x0D, 7, 0, 0, 0]
    ensures Alone(1, Fixed64Kind, IntValue(7)) == [0x09, 7, 0, 0, 0, 0, 0, 0, 0]
    ensures Alone(1, Fixed32Kind, IntValue(0x0403_0201)) == [0x0D, 1, 2, 3, 4]
  {
    AloneIsTagged(1, Fixed32Kind, IntValue(7));
    AloneIsTagged(1, Fixed64Kind, IntValue(7));
    AloneIsTagged(1, Fixed32Kind, IntValue(0x0403_0201));
    SmallBytes(7, 3);
    SmallBytes(7, 7);
    assert ToLittleEndian(0x0403_0201, 4) == [1] + ToLittleEndian(0x04_0302, 3);
    assert ToLittleEndian(0x04_0302, 3) == [2] + ToLittleEndian(0x0403, 2);
    assert ToLittleEndian(0x0403, 2) == [3] + ToLittleEndian(4, 1);
    assert ToLittleEndian(4, 1) == [4] + ToLittleEndian(0, 0);
  }

  lemma SmallBytes(v: nat, n: nat)
    requires v < 256
    ensures ToLittleEndian(v, n + 1) == [v] + seq(n, i => 0)
    decreases n
  {
    if n > 0 { SmallBytes(0, n - 1); }
    assert ToLittleEndian(v, n + 1) == [v] + ToLittleEndian(0, n);
  }

  /** Numbers of variable length, zigzag, strings. */
  lemma VariableBytes()
    ensures Alone(1, VarintKind(4), IntValue(150)) == [0x08, 0x96, 0x01]
    ensures Alone(1, UVarintKind(8), IntValue(300)) == [0x08, 0xAC, 0x02]
    ensures Alone(1, SVarintKind(4), IntValue(-2)) == [0x08, 0x03]
    ensures Alone(1, SVarintKind(4), IntValue(1)) == [0x08, 0x02]
    ensures Alone(1, BoolKind, BoolValue(true)) == [0x08, 0x01]
    ensures Alone(2, StringKind(8), StringValue([0x74, 0x65, 0x73, 0x74])) == [0x12, 0x04, 0x74, 0x65, 0x73, 0x74]
  {
    AloneIsTagged(1, VarintKind(4), IntValue(150));
    AloneIsTagged(1, UVarintKind(8), IntValue(300));
    AloneIsTagged(1, SVarintKind(4), IntValue(-2));
    AloneIsTagged(1, SVarintKind(4), IntValue(1));
    AloneIsTagged(1, BoolKind, BoolValue(true));
    AloneIsTagged(2, StringKind(8), StringValue([0x74, 0x65, 0x73, 0x74]));
  }

  /** Negative numbers take ten bytes without zigzag, in 32 bits too. */
  lemma MinusOneTakesTen()
    ensures Alone(1, VarintKind(4), IntValue(-1)) == [0x08] + seq(9, i => 0xFF) + [0x01]
  {
    AloneIsTagged(1, VarintKind(4), IntValue(-1));
    assert Pow128(9) == 128 * Pow128(8) == 128 * 128 * Pow128(7) == 128 * 128 * 128 * Pow128(6);
    assert Pow128(6) == 128 * Pow128(5) == 128 * 128 * Pow128(4) == 128 * 128 * 128 * Pow128(3);
    assert Pow128(3) == 128 * Pow128(2) == 128 * 128 * Pow128(1) == 128 * 128 * 128;
    OnesBytes(TWO_64 - 1, 9, 1);
  }

  lemma {:induction false} OnesBytes(v: nat, n: nat, top: nat)
    requires 0 < top < 128 && v + 1 == (top + 1) * Pow128(n)
    ensures Varint(v) == seq(n, i => 0xFF) + [top]
    decreases n
  {
    if n == 0 {
      assert Pow128(0) == 1;
    } else {
      var w := (top + 1) * Pow128(n - 1);
      Regroup(top + 1, Pow128(n - 1));
      hide Varint, Pow128;
      OnesBytes(w - 1, n - 1, top);
      OnesHead(w - 1);
    }
  }

  lemma Regroup(a: nat, p: nat)
    ensures a * (128 * p) == 128 * (a * p)
    ensures a > 1 && p > 0 ==> a * p > 1
  {
  }

  lemma OnesHead(w: nat)
    requires w > 0
    ensures Varint(128 * w + 127) == [0xFF] + Varint(w)
  {
  }

  /** A packed array is one string. */
  lemma PackedBytes()
    ensures EncodeContent(Field(6, Repeated(3), VarintKind(4), IntValue(0)),
                          Many([IntValue(3), IntValue(270), IntValue(86942)])) ==
            [0x32, 0x06, 0x03, 0x8E, 0x02, 0x9E, 0xA7, 0x05]
  {
    var k, vs := VarintKind(4), [IntValue(3), IntValue(270), IntValue(86942)];
    PackedAppends(k, [], vs[0]);
    PackedAppends(k, [vs[0]], vs[1]);
    PackedAppends(k, [vs[0], vs[1]], vs[2]);
    assert [vs[0], vs[1]] + [vs[2]] == vs && [vs[0]] + [vs[1]] == [vs[0], vs[1]] && [] + [vs[0]] == [vs[0]];
    GroupExamples();
    hide EncodePacked, Varint;
    assert EncodePacked(k, [vs[0]]) == [0x03];
    assert EncodePacked(k, [vs[0], vs[1]]) == [0x03, 0x8E, 0x02];
    assert EncodePacked(k, vs) == [0x03, 0x8E, 0x02, 0x9E, 0xA7, 0x05];
  }

  lemma GroupExamples()
    ensures Varint(3) == [0x03]
    ensures Varint(6) == [0x06]
    ensures Varint(50) == [0x32]
    ensures Varint(270) == [0x8E, 0x02]
    ensures Varint(86942) == [0x9E, 0xA7, 0x05]
  {
    assert Varint(270) == [0x8E] + Varint(2) == [0x8E, 0x02];
    assert Varint(679) == [0xA7] + Varint(5) == [0xA7, 0x05];
    assert Varint(86942) == [0x9E] + Varint(679);
  }

  lemma PackedAppends(k: Kind, vs: seq<Value>, v: Value)
    ensures EncodePacked(k, []) == [] && EncodePacked(k, vs + [v]) == EncodePacked(k, vs) + EncodeValue(k, v)
  {
    assert (vs + [v])[..|vs|] == vs;
    assert EncodePacked(k, []) == [];
  }
}
