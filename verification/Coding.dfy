/**
 Fixed and variable length integers, and the masked checksum stored in log headers and block trailers.
 */
module Coding {
  import opened Basics
  import opened Bits

  const TWO_32 := 0x1_0000_0000

  type U32 = x: int | 0 <= x < TWO_32

  /** The checksum, of which nothing else needs to be known. */
  type Crc = seq<Byte> -> U32

  function EncodeFixed32(v: U32): (s: seq<Byte>)
    ensures |s| == 4
  {
    [LowByte(v), LowByte(v / 0x100), LowByte(v / 0x1_0000), LowByte(v / 0x100_0000)]
  }

  function LowByte(v: nat): Byte { v % 0x100 }

  function DecodeFixed32(s: seq<Byte>): U32
    requires |s| >= 4
  {
    s[0] as int + s[1] as int * 0x100 + s[2] as int * 0x1_0000 + s[3] as int * 0x100_0000
  }

  lemma Fixed32RoundTrip(v: U32, rest: seq<Byte>)
    ensures DecodeFixed32(EncodeFixed32(v) + rest) == v
  {
    var s := EncodeFixed32(v);
    assert forall i :: 0 <= i < 4 ==> (s + rest)[i] == s[i];
    assert v / 0x1_0000 == v / 0x100_0000 * 0x100 + v / 0x1_0000 % 0x100;
    assert v / 0x100 == v / 0x1_0000 * 0x100 + v / 0x100 % 0x100;
  }

  /** Fixed32 values one after the other. */
  function Fixed32Array(vs: seq<U32>): (s: seq<Byte>)
    ensures |s| == 4 * |vs|
  {
    if vs == [] then [] else Fixed32Array(vs[..|vs| - 1]) + EncodeFixed32(vs[|vs| - 1])
  }

  lemma {:induction false} Fixed32ArrayAt(vs: seq<U32>, r: nat, rest: seq<Byte>)
    requires r < |vs|
    ensures 4 * r + 4 <= |Fixed32Array(vs)| && DecodeFixed32((Fixed32Array(vs) + rest)[4 * r..]) == vs[r]
  {
    var n := |vs| - 1;
    var front, last := Fixed32Array(vs[..n]), EncodeFixed32(vs[n]);
    if r == n {
      assert (Fixed32Array(vs) + rest)[4 * r..] == last + rest;
      Fixed32RoundTrip(vs[n], rest);
    } else {
      Fixed32ArrayAt(vs[..n], r, last + rest);
      assert Fixed32Array(vs) + rest == front + (last + rest);
    }
  }

  const TWO_64 := 0x1_0000_0000_0000_0000

  function LittleEndian(s: seq<Byte>): nat {
    if s == [] then 0 else s[0] as nat + 0x100 * LittleEndian(s[1..])
  }

  function ToLittleEndian(v: nat, n: nat): (s: seq<Byte>)
    ensures |s| == n
  {
    if n == 0 then [] else [LowByte(v)] + ToLittleEndian(v / 0x100, n - 1)
  }

  function Pow256(n: nat): nat {
    if n == 0 then 1 else 0x100 * Pow256(n - 1)
  }

  lemma PowBytes()
    ensures Pow256(1) == 0x100 && Pow256(2) == 0x1_0000 && Pow256(4) == TWO_32 && Pow256(8) == TWO_64
  {
    assert Pow256(1) == 0x100 * Pow256(0);
    assert Pow256(4) == 0x100 * Pow256(3) == 0x1_0000 * Pow256(2);
    assert Pow256(6) == 0x100 * Pow256(5) == 0x1_0000 * Pow256(4);
    assert Pow256(8) == 0x100 * Pow256(7) == 0x1_0000 * Pow256(6);
  }

  lemma {:induction false} LittleEndianRoundTrip(v: nat, n: nat)
    requires v < Pow256(n) || (n == 8 && v < TWO_64)
    ensures LittleEndian(ToLittleEndian(v, n)) == v
  {
    if n == 8 {
      assert Pow256(8) == 0x100 * Pow256(7) == 0x1_0000 * Pow256(6) == 0x100_0000 * Pow256(5) == TWO_32 * Pow256(4);
      assert Pow256(4) == 0x100 * Pow256(3) == 0x1_0000 * Pow256(2) == 0x100_0000 * Pow256(1) == TWO_32;
    }
    if n > 0 {
      assert v / 0x100 < Pow256(n - 1);
      LittleEndianRoundTrip(v / 0x100, n - 1);
      assert ToLittleEndian(v, n)[1..] == ToLittleEndian(v / 0x100, n - 1);
    }
  }

  lemma {:induction false} LittleEndianInjective(a: seq<Byte>, b: seq<Byte>)
    requires |a| == |b| && LittleEndian(a) == LittleEndian(b)
    ensures a == b
  {
    if a != [] {
      var m, n := LittleEndian(a[1..]), LittleEndian(b[1..]);
      assert LittleEndian(a) == a[0] + 0x100 * m && LittleEndian(b) == b[0] + 0x100 * n;
      hide LittleEndian;
      assert a[0] == b[0] && m == n;
      LittleEndianInjective(a[1..], b[1..]);
      assert a == [a[0]] + a[1..] && b == [b[0]] + b[1..];
    }
  }

  // ---------------------------------------------------------------------------------------------------------------
  // Base-128 groups, least significant first, the high bit marking that more follow.

  function Varint(v: nat): (s: seq<Byte>)
    ensures |s| > 0
  {
    if v < 128 then [v] else [v % 128 + 128] + Varint(v / 128)
  }

  /** Value and length of the groups at the start of `p`, of which at most `n` are read. */
  function ReadVarint(p: seq<Byte>, n: nat): (r: Option<(nat, nat)>)
    ensures r.Some? ==> 0 < r.value.1 <= n && r.value.1 <= |p|
  {
    if n == 0 || p == [] then None
    else if p[0] < 128 then Some((p[0], 1))
    else match ReadVarint(p[1..], n - 1)
      case None => None
      case Some(r) => Some((p[0] - 128 + 128 * r.0, r.1 + 1))
  }

  function Pow128(n: nat): nat {
    if n == 0 then 1 else 128 * Pow128(n - 1)
  }

  lemma Pow128Ten()
    ensures Pow128(10) > TWO_64
  {
    assert Pow128(2) == 128 * Pow128(1) == 16384 * Pow128(0);
    assert Pow128(4) == 128 * Pow128(3) == 16384 * Pow128(2);
    assert Pow128(6) == 128 * Pow128(5) == 16384 * Pow128(4);
    assert Pow128(8) == 128 * Pow128(7) == 16384 * Pow128(6);
    assert Pow128(10) == 128 * Pow128(9) == 16384 * Pow128(8);
  }

  lemma {:induction false} VarintRoundTrip(v: nat, n: nat, rest: seq<Byte>)
    requires n > 0 && v < Pow128(n)
    ensures ReadVarint(Varint(v) + rest, n) == Some((v, |Varint(v)|))
  {
    if v >= 128 {
      assert Pow128(1) == 128 * Pow128(0);
      VarintRoundTrip(v / 128, n - 1, rest);
      assert (Varint(v) + rest)[1..] == Varint(v / 128) + rest;
      assert v == 128 * (v / 128) + v % 128;
    }
  }

  /** `PutVarint32`, and `GetVarint32Ptr` with its limit of five groups and 32-bit shifts. */
  function GetVarint32(p: seq<Byte>): (r: Option<(U32, nat)>)
    ensures r.Some? ==> 0 < r.value.1 <= |p|
  {
    match ReadVarint(p, 5)
    case None => None
    case Some(r) => Some((r.0 % TWO_32, r.1))
  }

  lemma Varint32RoundTrip(v: U32, rest: seq<Byte>)
    ensures GetVarint32(Varint(v) + rest) == Some((v, |Varint(v)|))
  {
    assert Pow128(5) == 128 * Pow128(4) == 128 * 128 * Pow128(3) == 128 * 128 * 128 * Pow128(2);
    assert Pow128(2) == 128 * Pow128(1) == 128 * 128 * Pow128(0);
    VarintRoundTrip(v, 5, rest);
  }

  // ---------------------------------------------------------------------------------------------------------------

  const MASK_DELTA := 0xa282ead8

  /** Rotation right by 15 bits, plus a constant, in 32 bits. */
  function Mask(crc: U32): U32 {
    (crc / 0x8000 + crc % 0x8000 * 0x2_0000 + MASK_DELTA) % TWO_32
  }

  function Unmask(masked: U32): U32 {
    var rot := (masked - MASK_DELTA) % TWO_32;
    rot / 0x2_0000 + rot % 0x2_0000 * 0x8000
  }

  /** Less the constant, the bits of the checksum, each 15 places further down. */
  lemma MaskRotates(crc: U32, i: nat)
    requires i < 32
    ensures Bit((Mask(crc) - 0xa282_ead8) % TWO_32, i) <==> Bit(crc, (i + 15) % 32)
  {
    var rot := crc / 0x8000 + crc % 0x8000 * 0x2_0000;
    assert (Mask(crc) - MASK_DELTA) % TWO_32 == rot;
    RotationPowers();
    RotatedBit(crc % 0x8000, crc / 0x8000, 15, i);
  }

  lemma UnmaskMask(crc: U32)
    ensures Unmask(Mask(crc)) == crc
  {
    var rot := crc / 0x8000 + crc % 0x8000 * 0x2_0000;
    assert (Mask(crc) - MASK_DELTA) % TWO_32 == rot;
    assert rot / 0x2_0000 == crc % 0x8000 && rot % 0x2_0000 == crc / 0x8000;
  }
}
