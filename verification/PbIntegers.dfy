/**
 Integers and strings on the wire: what is written comes back, and what is unknown is skipped exactly.
 */
module PbIntegers {
  import opened Basics
  import opened Bits
  import opened Coding
  import opened PbSchema
  import opened PbDecode

  // ---------------------------------------------------------------------------------------------------------------
  // Integers.

  lemma Varint64RoundTrip(v: nat, rest: Slice)
    requires v < TWO_64
    ensures ReadVarint64(Varint(v) + rest) == Some(Got(v, rest))
  {
    Pow128Ten();
    VarintRoundTrip(v, 10, rest);
    assert (Varint(v) + rest)[|Varint(v)|..] == rest;
  }

  lemma Pow2Values()
    ensures Pow2(0) == 1 && Pow2(7) == 128 && Pow2(14) == 128 * 128 && Pow2(21) == 128 * 128 * 128
    ensures Pow2(28) == 128 * 128 * 128 * 128
  {
    SevenMore(0);
    SevenMore(7);
    SevenMore(14);
    SevenMore(21);
  }

  lemma GroupSplit(v: nat, bitpos: nat)
    ensures Shifted(v, bitpos) == Shifted(v % 128, bitpos) + Shifted(v / 128, bitpos + 7)
  {
    var p := Pow2(bitpos);
    SevenMore(bitpos);
    assert v * p == (v % 128 + v / 128 * 128) * p == v % 128 * p + v / 128 * 128 * p;
  }

  /** The top group of 32 bits has four bits at most. */
  lemma TopGroup(v: nat)
    requires Shifted(v, 28) < TWO_32
    ensures v < 16
  {
    Pow2Values();
  }

  /** One group, when nothing of it is lost. */
  lemma ReadGroup(s: Slice, result: nat, bitpos: nat, part: nat)
    requires s != [] && bitpos < 32 && part == Shifted(s[0] % 128, bitpos) && result + part < TWO_32
    requires bitpos == 28 && s[0] < 128 ==> s[0] < 16
    ensures s[0] >= 128 ==> ReadVarint32From(s, result, bitpos) == ReadVarint32From(s[1..], result + part, bitpos + 7)
    ensures s[0] < 128 ==> ReadVarint32From(s, result, bitpos) == Some(Got(result + part, s[1..]))
  {
    hide Shifted;
  }

  lemma VarintHead(v: nat, rest: Slice)
    ensures v < 128 ==> (Varint(v) + rest)[0] == v && (Varint(v) + rest)[1..] == rest
    ensures v >= 128 ==> (Varint(v) + rest)[0] == v % 128 + 128 && (Varint(v) + rest)[1..] == Varint(v / 128) + rest
    ensures (Varint(v) + rest)[0] % 128 == v % 128
  {
    if v >= 128 {
      var head, more := v % 128 + 128, Varint(v / 128);
      assert Varint(v) == [head] + more;
      hide Varint;
      assert Varint(v) + rest == [head] + (more + rest);
    }
  }

  lemma {:induction false} Varint32Groups(v: nat, result: nat, bitpos: nat, rest: Slice)
    requires bitpos == 7 || bitpos == 14 || bitpos == 21 || bitpos == 28
    requires result + Shifted(v, bitpos) < TWO_32
    ensures ReadVarint32From(Varint(v) + rest, result, bitpos) == Some(Got(result + Shifted(v, bitpos), rest))
    decreases 35 - bitpos
  {
    if bitpos == 28 { TopGroup(v); }
    var lo, hi := v % 128, v / 128;
    GroupSplit(v, bitpos);
    VarintHead(v, rest);
    hide Shifted, ReadVarint32From, Varint;
    if v < 128 {
      ReadGroup(Varint(v) + rest, result, bitpos, Shifted(v, bitpos));
    } else if bitpos < 28 {
      ReadGroup(Varint(v) + rest, result, bitpos, Shifted(lo, bitpos));
      Varint32Groups(hi, result + Shifted(lo, bitpos), bitpos + 7, rest);
    }
  }

  lemma Varint32RoundTrips(v: nat, rest: Slice)
    requires v < TWO_32
    ensures ReadVarint32(Varint(v) + rest) == Some(Got(v, rest))
  {
    VarintHead(v, rest);
    if v >= 128 {
      Pow2Values();
      Varint32Groups(v / 128, v % 128, 7, rest);
    }
  }

  /** The least number from the group at `7 * g` on that is too large for 32 bits. */
  function LeastTooLarge(g: nat): nat {
    if g == 1 then 0x200_0000 else if g == 2 then 0x4_0000 else if g == 3 then 0x800 else if g == 4 then 16 else 1
  }

  lemma {:induction false} TooLargeFrom(v: nat, result: nat, g: nat, rest: Slice)
    requires 1 <= g <= 8 && LeastTooLarge(g) <= v < Pow128(9 - g)
    ensures ReadVarint32From(Varint(v) + rest, result, 7 * g).None?
    decreases 9 - g
  {
    VarintHead(v, rest);
    hide Varint, Shifted;
    if g == 8 { assert Pow128(1) == 128 * Pow128(0); }
    if v >= 128 && g < 8 {
      TooLargeFrom(v / 128, NextResult(v % 128 + 128, result, 7 * g), g + 1, rest);
    }
  }

  /** A number of more than 32 bits is no 32-bit number, ... */
  lemma TooLargeIsRejected(v: nat, rest: Slice)
    requires TWO_32 <= v < 0x8000_0000_0000_0000
    ensures ReadVarint32(Varint(v) + rest).None?
  {
    assert Pow128(8) == 0x100_0000_0000_0000 by { Pow128Eight(); }
    VarintHead(v, rest);
    TooLargeFrom(v / 128, v % 128, 1, rest);
  }

  lemma Pow128Eight()
    ensures Pow128(8) == 0x100_0000_0000_0000
  {
    assert Pow128(4) == 128 * Pow128(3) == 128 * 128 * Pow128(2) == 128 * 128 * 128 * Pow128(1) == 0x1000_0000;
    assert Pow128(8) == 128 * Pow128(7) == 128 * 128 * Pow128(6) == 128 * 128 * 128 * Pow128(5);
    assert Pow128(5) == 128 * Pow128(4);
  }

  /** The groups that are all sign. */
  lemma SignGroups(result: nat, rest: Slice)
    requires 0x8000_0000 <= result < TWO_32
    ensures ReadVarint32From(Varint(0x1FFF_FFFF) + rest, result, 35) == Some(Got(result, rest))
  {
    VarintHead(0x1FFF_FFFF, rest);
    VarintHead(0x3F_FFFF, rest);
    VarintHead(0x7FFF, rest);
    VarintHead(0xFF, rest);
    VarintHead(1, rest);
    hide Varint;
    assert ReadVarint32From(Varint(1) + rest, result, 63) == Some(Got(result, rest));
    assert ReadVarint32From(Varint(0xFF) + rest, result, 56) == Some(Got(result, rest));
    assert ReadVarint32From(Varint(0x7FFF) + rest, result, 49) == Some(Got(result, rest));
    assert ReadVarint32From(Varint(0x3F_FFFF) + rest, result, 42) == Some(Got(result, rest));
  }

  /** The group with the top bits of 32 and the first of those that are sign. */
  lemma MixedGroup(v: nat, result: nat, rest: Slice)
    requires v / 128 == 0x1FFF_FFFF && v % 128 >= 120 && result < 0x1000_0000
    ensures ReadVarint32From(Varint(v) + rest, result, 28) == Some(Got(result + (v % 128 - 112) * 0x1000_0000, rest))
  {
    Pow2Values();
    VarintHead(v, rest);
    SignGroups(result + (v % 128 - 112) * 0x1000_0000, rest);
    hide Varint;
  }

  /** ... except that a negative one may be there in full length, as the sign of 64 bits. */
  lemma NegativeIsCut(v: nat, rest: Slice)
    requires TWO_64 - 0x8000_0000 <= v < TWO_64
    ensures ReadVarint32(Varint(v) + rest) == Some(Got(v - (TWO_64 - TWO_32), rest))
  {
    var v1, v2, v3, v4 := v / 128, v / 128 / 128, v / 128 / 128 / 128, v / 128 / 128 / 128 / 128;
    var r4 := v % 128 + v1 % 128 * 128 + v2 % 128 * 0x4000 + v3 % 128 * 0x20_0000;
    TopGroups(v1, v2, v3, v4, v);
    SumOfGroups(v1, v2, v3, v4, v);
    LowGroups(v, v1, v2, v3, rest);
    hide *;
    MixedGroup(v4, r4, rest);
  }

  lemma LowGroups(v: nat, v1: nat, v2: nat, v3: nat, rest: Slice)
    requires v1 == v / 128 && v2 == v1 / 128 && v3 == v2 / 128 && v3 >= 128
    ensures ReadVarint32(Varint(v) + rest) ==
            ReadVarint32From(Varint(v3 / 128) + rest,
                             v % 128 + v1 % 128 * 128 + v2 % 128 * 0x4000 + v3 % 128 * 0x20_0000, 28)
  {
    var r1 := v % 128;
    var r2 := r1 + v1 % 128 * 128;
    var r3 := r2 + v2 % 128 * 0x4000;
    Pow2Values();
    VarintHead(v, rest);
    VarintHead(v1, rest);
    VarintHead(v2, rest);
    VarintHead(v3, rest);
    hide Varint, ReadVarint32From;
    ReadGroup(Varint(v1) + rest, r1, 7, v1 % 128 * 128);
    ReadGroup(Varint(v2) + rest, r2, 14, v2 % 128 * 0x4000);
    ReadGroup(Varint(v3) + rest, r3, 21, v3 % 128 * 0x20_0000);
  }

  lemma TopGroups(v1: nat, v2: nat, v3: nat, v4: nat, v: nat)
    requires TWO_64 - 0x8000_0000 <= v < TWO_64 && v1 == v / 128 && v2 == v1 / 128 && v3 == v2 / 128 && v4 == v3 / 128
    ensures v3 >= 128 && v4 / 128 == 0x1FFF_FFFF && v4 % 128 >= 120
  {
  }

  lemma SumOfGroups(v1: nat, v2: nat, v3: nat, v4: nat, v: nat)
    requires v1 == v / 128 && v2 == v1 / 128 && v3 == v2 / 128 && v4 == v3 / 128
    ensures v == v % 128 + v1 % 128 * 128 + v2 % 128 * 0x4000 + v3 % 128 * 0x20_0000 + v4 * 0x1000_0000
  {
  }

  lemma FixedRoundTrip(v: nat, n: nat, rest: Slice)
    requires (n == 4 && v < TWO_32) || (n == 8 && v < TWO_64)
    ensures ReadFixed(ToLittleEndian(v, n) + rest, n) == Some(Got(v, rest))
  {
    var s := ToLittleEndian(v, n) + rest;
    assert s[..n] == ToLittleEndian(v, n) && s[n..] == rest;
    assert Pow256(4) == 0x100 * Pow256(3) == 0x1_0000 * Pow256(2) == 0x100_0000 * Pow256(1) == TWO_32 * Pow256(0);
    LittleEndianRoundTrip(v, n);
  }

  /** A number that fits comes back from its two's complement of 64 bits, through 32 bits if it is no wider. */
  lemma SignedRoundTrip(x: int, width: nat)
    requires IsWidth(width) && FitsSigned(x, width)
    ensures 0 <= Unsigned64(x) < TWO_64 && Signed(Unsigned64(x), if width == 8 then 8 else 4) == x
    ensures Signed(x, width) == x
  {
    PowBytes();
  }

  lemma UnzigzagZigzag(x: int)
    requires FitsSigned(x, 8)
    ensures 0 <= Zigzag(x) < TWO_64 && Unzigzag(Zigzag(x)) == x
  {
    PowBytes();
  }

  lemma StringRoundTrip(b: Slice, rest: Slice)
    requires |b| < TWO_32
    ensures ReadString(Prefixed(b) + rest) == Some(Got(b, rest))
  {
    assert Prefixed(b) + rest == Varint(|b|) + (b + rest);
    Varint32RoundTrips(|b|, b + rest);
  }

  lemma {:induction false} NoNul(s: Slice)
    requires 0 !in s
    ensures UpToNul(s) == s
  {
    if s != [] {
      assert s[0] in s;
      assert forall b :: b in s[1..] ==> b in s;
      NoNul(s[1..]);
      assert s == [s[0]] + s[1..];
    }
  }

  // ---------------------------------------------------------------------------------------------------------------
  // Skipping.

  lemma {:induction false} SkipsVarint(v: nat, rest: Slice)
    ensures SkipVarint(Varint(v) + rest) == Some(rest)
    decreases v
  {
    VarintHead(v, rest);
    if v >= 128 { SkipsVarint(v / 128, rest); }
  }

  /** An unknown value is skipped to its end, whatever its type: what is written under a wire type is of its length. */
  lemma SkipsValue(k: Kind, v: Value, rest: Slice)
    requires Typed(k, v) && |EncodeValue(k, v)| < TWO_32
    ensures SkipField(WireType(k), EncodeValue(k, v) + rest) == Some(rest)
  {
    match v
    case BoolValue(flag) => SkipsVarint(if flag then 1 else 0, rest);
    case IntValue(x) =>
      if k.SVarintKind? {
        SkipsVarint(Zigzag(x), rest);
      } else if k.Fixed32Kind? {
        assert (ToLittleEndian(Unsigned64(x), 4) + rest)[4..] == rest;
      } else if k.Fixed64Kind? {
        assert (ToLittleEndian(Unsigned64(x), 8) + rest)[8..] == rest;
      } else {
        SkipsVarint(Unsigned64(x), rest);
      }
    case BytesValue(b) => StringRoundTrip(b, rest);
    case StringValue(b) => StringRoundTrip(b, rest);
    case MessageValue(m) => StringRoundTrip(EncodeMessage(k.fields, m, 0), rest);
  }

  /** So is a packed array, which is one string. */
  lemma SkipsPacked(k: Kind, vs: seq<Value>, rest: Slice)
    requires |EncodePacked(k, vs)| < TWO_32
    ensures SkipField(WIRE_STRING, Prefixed(EncodePacked(k, vs)) + rest) == Some(rest)
  {
    StringRoundTrip(EncodePacked(k, vs), rest);
  }
}
