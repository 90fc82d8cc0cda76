/** The Bloom filter: which bits a list of keys sets, and that no key put in is ever rejected. */
module Bloom {
  import opened Basics
  import opened Coding
  import opened Bits

  /** Bit `pos` of an array of bytes. */
  predicate BitAt(a: seq<Byte>, pos: nat)
    requires pos / 8 < |a|
  {
    Bit(a[pos / 8], pos % 8)
  }

  function WithBit(a: seq<Byte>, pos: nat): (r: seq<Byte>)
    requires pos / 8 < |a|
    ensures |r| == |a|
    ensures forall q: nat :: q / 8 < |a| ==> (BitAt(r, q) <==> q == pos || BitAt(a, q))
  {
    BytePow();
    SetBitFits(a[pos / 8], pos % 8, 8);
    assert forall q: nat {:trigger BitAt(a, q)} :: q / 8 == pos / 8 && q % 8 == pos % 8 ==> q == pos;
    var r := a[pos / 8 := SetBit(a[pos / 8], pos % 8)];
    assert forall q: nat :: q / 8 < |a| ==> (BitAt(r, q) <==> q == pos || BitAt(a, q)) by {
      forall q: nat | q / 8 < |a| ensures BitAt(r, q) <==> q == pos || BitAt(a, q) {
        BitAfterSet(a[pos / 8], pos % 8, q % 8);
      }
    }
    r
  }

  /** Rotation right by 17 bits: the step of the double hashing. */
  function Delta(h: U32): U32 {
    h / 0x2_0000 + h % 0x2_0000 * 0x8000
  }

  /** Every bit goes 17 places down, those at the end come in again at the top. */
  lemma DeltaRotates(h: U32, i: nat)
    requires i < 32
    ensures Bit(Delta(h), i) <==> Bit(h, (i + 17) % 32)
  {
    RotationPowers();
    RotatedBit(h % 0x2_0000, h / 0x2_0000, 17, i);
  }

  /** The hash value of probe `j`, in 32 bits. */
  function Advance(h: U32, delta: U32): U32 {
    (h + delta) % TWO_32
  }

  function ProbeHash(h: U32, j: nat): U32 {
    if j == 0 then h else Advance(ProbeHash(h, j - 1), Delta(h))
  }

  /** The bit that a hash value stands for. */
  function BitOf(h: U32, bits: nat): (pos: nat)
    requires bits > 0
    ensures pos < bits
  {
    h % bits
  }

  ghost predicate Probed(hash: Slice -> U32, key: Slice, k: nat, bits: nat, pos: nat)
    requires bits > 0
  {
    exists j :: 0 <= j < k && BitOf(ProbeHash(hash(key), j), bits) == pos
  }

  class BloomFilterPolicy {
    const hash: Slice -> U32
    const bitsPerKey: nat
    const k: nat

    /** The number of probes is rounded from the bits per key by the caller and kept between 1 and 30 here. */
    constructor (hash: Slice -> U32, bitsPerKey: nat, probes: nat)
      ensures this.hash == hash && this.bitsPerKey == bitsPerKey && 1 <= k <= 30
    {
      this.hash, this.bitsPerKey := hash, bitsPerKey;
      this.k := if probes < 1 then 1 else if probes > 30 then 30 else probes;
    }

    function BitsFor(n: nat): (bits: nat)
      ensures bits % 8 == 0 && bits >= 64 && bits >= n * bitsPerKey
      ensures bits < 72 || bits < n * bitsPerKey + 8
    {
      var bits := n * bitsPerKey;
      ((if bits < 64 then 64 else bits) + 7) / 8 * 8
    }

    /** The filter has exactly the bits set that some key probes; the number of probes is stored behind them. */
    ghost predicate IsFilter(keys: seq<Slice>, filter: seq<Byte>) {
      var bits := BitsFor(|keys|);
      |filter| == bits / 8 + 1 && filter[bits / 8] as nat == k &&
      forall pos: nat :: pos < bits ==>
        (BitAt(filter[..bits / 8], pos) <==> Covered(keys, bits, pos))
    }

    ghost predicate Covered(keys: seq<Slice>, bits: nat, pos: nat)
      requires bits > 0
    {
      exists i :: 0 <= i < |keys| && Probed(hash, keys[i], k, bits, pos)
    }

    /** Appends the filter of the keys. */
    method CreateFilter(keys: seq<Slice>, dst: seq<Byte>) returns (r: seq<Byte>)
      requires 1 <= k <= 30
      ensures |dst| <= |r| && r[..|dst|] == dst && IsFilter(keys, r[|dst|..])
    {
      var bits := BitsFor(|keys|);
      var a: seq<Byte> := seq(bits / 8, _ => 0);
      forall pos: nat | pos < bits ensures !BitAt(a, pos) { ZeroHasNoBits(pos % 8); }
      for i := 0 to |keys|
        invariant |a| == bits / 8
        invariant forall pos: nat :: pos < bits ==> (BitAt(a, pos) <==> Covered(keys[..i], bits, pos))
      {
        a := AddKey(a, bits, keys[i]);
        assert keys[..i + 1] == keys[..i] + [keys[i]];
        forall pos: nat | pos < bits
          ensures Covered(keys[..i + 1], bits, pos) <==>
                    Covered(keys[..i], bits, pos) || Probed(hash, keys[i], k, bits, pos)
        {
          CoveredByOneMore(keys[..i], keys[i], bits, pos);
        }
      }
      assert keys[..|keys|] == keys;
      r := dst + (a + [k]);
      assert r[|dst|..] == a + [k];
      assert (a + [k])[..bits / 8] == a;
    }

    lemma CoveredByOneMore(keys: seq<Slice>, key: Slice, bits: nat, pos: nat)
      requires bits > 0
      ensures Covered(keys + [key], bits, pos) <==> Covered(keys, bits, pos) || Probed(hash, key, k, bits, pos)
    {
      if Covered(keys, bits, pos) {
        var i :| 0 <= i < |keys| && Probed(hash, keys[i], k, bits, pos);
        assert (keys + [key])[i] == keys[i];
      }
      assert (keys + [key])[|keys|] == key;
    }

    method AddKey(a: seq<Byte>, bits: nat, key: Slice) returns (r: seq<Byte>)
      requires bits > 0 && |a| == bits / 8 && bits % 8 == 0
      ensures |r| == |a|
      ensures forall pos: nat :: pos < bits ==> (BitAt(r, pos) <==> BitAt(a, pos) || Probed(hash, key, k, bits, pos))
    {
      r := a;
      var h := hash(key);
      var delta := Delta(h);
      for j := 0 to k
        invariant |r| == |a| && h == ProbeHash(hash(key), j)
        invariant forall pos: nat :: pos < bits ==>
                    (BitAt(r, pos) <==> BitAt(a, pos) || Probed(hash, key, j, bits, pos))
      {
        var bitPos := BitOf(h, bits);
        ghost var was := r;
        r := WithBit(r, bitPos);
        forall pos: nat | pos < bits ensures BitAt(r, pos) <==> BitAt(a, pos) || Probed(hash, key, j + 1, bits, pos) {
          ProbedOnceMore(key, j, bits, pos);
          assert BitAt(r, pos) <==> pos == bitPos || BitAt(was, pos);
        }
        h := Advance(h, delta);
      }
    }

    lemma ProbedOnceMore(key: Slice, j: nat, bits: nat, pos: nat)
      requires bits > 0
      ensures Probed(hash, key, j + 1, bits, pos) <==>
                Probed(hash, key, j, bits, pos) || BitOf(ProbeHash(hash(key), j), bits) == pos
    {
      if Probed(hash, key, j + 1, bits, pos) {
        var i :| 0 <= i < j + 1 && BitOf(ProbeHash(hash(key), i), bits) == pos;
        assert i < j || i == j;
      }
    }

    /** All probes of the key hit a set bit; filters too short match nothing, unknown encodings everything. */
    ghost predicate Matches(key: Slice, filter: seq<Byte>) {
      |filter| >= 2 &&
      (filter[|filter| - 1] > 30 ||
       forall pos: nat :: Probed(hash, key, filter[|filter| - 1] as nat, (|filter| - 1) * 8, pos) ==>
           BitAt(filter, pos))
    }

    /** The first `j` probes hit. */
    ghost predicate AllHit(filter: seq<Byte>, h: U32, j: nat, bits: nat)
      requires bits > 0 && bits <= 8 * |filter|
    {
      forall i :: 0 <= i < j ==> BitAt(filter, BitOf(ProbeHash(h, i), bits))
    }

    lemma MatchesIf(key: Slice, filter: seq<Byte>)
      requires |filter| >= 2 && filter[|filter| - 1] <= 30
      ensures Matches(key, filter) <==> AllHit(filter, hash(key), filter[|filter| - 1] as nat, (|filter| - 1) * 8)
    {
      var n, bits := filter[|filter| - 1] as nat, (|filter| - 1) * 8;
      hide BitOf, BitAt, ProbeHash;
      if Matches(key, filter) {
        forall i | 0 <= i < n ensures BitAt(filter, BitOf(ProbeHash(hash(key), i), bits)) {
          assert Probed(hash, key, n, bits, BitOf(ProbeHash(hash(key), i), bits));
        }
      }
    }

    method KeyMayMatch(key: Slice, filter: seq<Byte>) returns (r: bool)
      ensures r <==> Matches(key, filter)
    {
      var len := |filter|;
      if len < 2 {
        return false;
      }
      var bits := (len - 1) * 8;
      var n := filter[len - 1] as nat;
      if n > 30 {
        return true;
      }
      MatchesIf(key, filter);
      hide BitOf, Delta, BitAt, Matches, Advance;
      var h := hash(key);
      var delta := Delta(h);
      for j := 0 to n
        invariant h == ProbeHash(hash(key), j)
        invariant AllHit(filter, hash(key), j, bits)
      {
        var bitPos := BitOf(h, bits);
        var hit := BitAt(filter, bitPos);
        if !hit {
          return false;
        }
        h := Advance(h, delta);
      }
      return true;
    }

    /** No false negatives: a filter matches every key it was made of. */
    lemma NeverRejects(keys: seq<Slice>, filter: seq<Byte>, key: Slice)
      requires 1 <= k <= 30 && IsFilter(keys, filter) && key in keys
      ensures Matches(key, filter)
    {
      var bits := BitsFor(|keys|);
      var i :| 0 <= i < |keys| && keys[i] == key;
      forall pos: nat | Probed(hash, key, k, bits, pos) ensures BitAt(filter, pos) {
        assert pos < bits;
        assert Covered(keys, bits, pos);
        assert BitAt(filter[..bits / 8], pos);
      }
    }
  }
}
