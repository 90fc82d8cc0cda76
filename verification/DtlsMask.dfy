/**
 The bitmask over the bytes of a handshake message that says which of them have come in.
 */
module DtlsMask {

  /** `bit_range`: bits `start`, inclusive, to `end`, exclusive. */
  function BitRange(start: nat, end: nat): bv8
    requires start <= 8 && end <= 8
  {
    (!(((1 as bv32) << start) - 1) & (((1 as bv32) << end) - 1) & 0xff) as bv8
  }

  predicate Bit(b: bv8, i: nat)
    requires i < 8
  {
    b & (1 << i) != 0
  }

  lemma BitRangeBits(start: nat, end: nat, i: nat)
    requires start <= 8 && end <= 8 && i < 8
    ensures Bit(BitRange(start, end), i) <==> start <= i < end
  {
  }

  lemma OrBits(b: bv8, c: bv8, i: nat)
    requires i < 8
    ensures Bit(b | c, i) <==> Bit(b, i) || Bit(c, i)
  {
  }

  /** A byte is all ones if and only if all of its bits are set, and so on: bytes are as their bits are. */
  lemma SameBits(b: bv8, c: bv8)
    requires forall i: nat :: i < 8 ==> Bit(b, i) == Bit(c, i)
    ensures b == c
  {
    assert Bit(b, 0) == Bit(c, 0) && Bit(b, 1) == Bit(c, 1) && Bit(b, 2) == Bit(c, 2) && Bit(b, 3) == Bit(c, 3);
    assert Bit(b, 4) == Bit(c, 4) && Bit(b, 5) == Bit(c, 5) && Bit(b, 6) == Bit(c, 6) && Bit(b, 7) == Bit(c, 7);
  }

  lemma AllOnes(b: bv8)
    ensures b == 0xff <==> forall i: nat :: i < 8 ==> Bit(b, i)
  {
    forall i: nat | i < 8 ensures Bit(0xff, i) {
    }
    if forall i: nat :: i < 8 ==> Bit(b, i) { SameBits(b, 0xff); }
  }

  lemma LowOnes(b: bv8, n: nat)
    requires n <= 8
    ensures b == BitRange(0, n) <==> forall i: nat :: i < 8 ==> (Bit(b, i) <==> i < n)
  {
    forall i: nat | i < 8 ensures Bit(BitRange(0, n), i) <==> i < n { BitRangeBits(0, n, i); }
    hide BitRange;
    if forall i: nat :: i < 8 ==> (Bit(b, i) <==> i < n) { SameBits(b, BitRange(0, n)); }
  }

  /** Byte `p` of the message has come in. */
  predicate Marked(mask: seq<bv8>, p: nat)
    requires p / 8 < |mask|
  {
    Bit(mask[p / 8], p % 8)
  }

  /** A mask for `len` bytes, with no bit set beyond. */
  ghost predicate MaskFor(mask: seq<bv8>, len: nat) {
    && |mask| == (len + 7) / 8
    && forall p: nat :: len <= p < 8 * |mask| ==> !Marked(mask, p)
  }

  ghost predicate Complete(mask: seq<bv8>, len: nat)
    requires |mask| == (len + 7) / 8
  {
    forall p: nat :: p < len ==> Marked(mask, p)
  }

  /** The byte at `k` after the range has been marked. */
  function MarkedByte(b: bv8, k: nat, start: nat, end: nat): bv8
    requires start < end
  {
    if start / 8 == end / 8 then
      if k == start / 8 then b | BitRange(start % 8, end % 8) else b
    else if k == start / 8 then b | BitRange(start % 8, 8)
    else if start / 8 < k < end / 8 then 0xff
    else if k == end / 8 && end % 8 != 0 then b | BitRange(0, end % 8)
    else b
  }

  lemma MarkedByteBits(b: bv8, k: nat, start: nat, end: nat, i: nat)
    requires start < end && i < 8
    ensures Bit(MarkedByte(b, k, start, end), i) <==> Bit(b, i) || start <= 8 * k + i < end
  {
    hide BitRange, Bit;
    if k == start / 8 == end / 8 {
      RangeBits(b, start % 8, end % 8, i);
    } else if k == start / 8 {
      RangeBits(b, start % 8, 8, i);
    } else if start / 8 < k < end / 8 {
      AllOnes(0xff);
    } else if k == end / 8 && end % 8 != 0 {
      RangeBits(b, 0, end % 8, i);
    }
  }

  lemma RangeBits(b: bv8, start: nat, end: nat, i: nat)
    requires start <= 8 && end <= 8 && i < 8
    ensures Bit(b | BitRange(start, end), i) <==> Bit(b, i) || start <= i < end
  {
    BitRangeBits(start, end, i);
    OrBits(b, BitRange(start, end), i);
  }

  lemma MarksRange(before: seq<bv8>, after: seq<bv8>, start: nat, end: nat)
    requires start < end && |after| == |before|
    requires forall k :: 0 <= k < |before| ==> after[k] == MarkedByte(before[k], k, start, end)
    ensures forall p: nat :: p < 8 * |before| ==> (Marked(after, p) <==> Marked(before, p) || start <= p < end)
  {
    hide MarkedByte, Bit;
    forall p: nat | p < 8 * |before| ensures Marked(after, p) <==> Marked(before, p) || start <= p < end {
      MarkedByteBits(before[p / 8], p / 8, start, end, p % 8);
    }
  }

  /** All whole bytes of the mask are ones, and so are as many bits of the last one as the message has left. */
  predicate LooksComplete(mask: seq<bv8>, len: nat)
    requires |mask| == (len + 7) / 8
  {
    && (forall i :: 0 <= i < len / 8 ==> mask[i] == 0xff)
    && (len % 8 != 0 ==> mask[len / 8] == BitRange(0, len % 8))
  }

  lemma CompleteIf(mask: seq<bv8>, len: nat)
    requires MaskFor(mask, len)
    ensures LooksComplete(mask, len) <==> Complete(mask, len)
  {
    hide Bit, BitRange;
    var r := len % 8;
    if LooksComplete(mask, len) {
      forall p: nat | p < len ensures Marked(mask, p) {
        AllOnes(mask[p / 8]);
        if p / 8 == len / 8 { LowOnes(mask[p / 8], r); }
      }
    }
    if Complete(mask, len) {
      forall i | 0 <= i < len / 8 ensures mask[i] == 0xff {
        forall j: nat | j < 8 ensures Bit(mask[i], j) { assert Marked(mask, 8 * i + j); }
        AllOnes(mask[i]);
      }
      if r != 0 {
        forall j: nat | j < 8 ensures Bit(mask[len / 8], j) <==> j < r {
          assert Marked(mask, 8 * (len / 8) + j) <==> j < r;
        }
        LowOnes(mask[len / 8], r);
      }
    }
  }

  /** `dtls1_hm_fragment_mark` on a mask that is there: marks the range, and says whether all bytes are marked now. */
  method Mark(mask: array<bv8>, msgLen: nat, start: nat, end: nat) returns (complete: bool)
    requires start <= end <= msgLen && MaskFor(mask[..], msgLen) && !Complete(mask[..], msgLen)
    modifies mask
    ensures forall p: nat :: p < 8 * mask.Length ==>
              (Marked(mask[..], p) <==> old(Marked(mask[..], p)) || start <= p < end)
    ensures MaskFor(mask[..], msgLen) && (complete <==> Complete(mask[..], msgLen))
  {
    ghost var before := mask[..];
    if start == end {
      return false;
    }
    MarkBytes(mask, start, end);
    MarksRange(before, mask[..], start, end);
    hide MarkedByte;
    CompleteIf(mask[..], msgLen);
    for i := 0 to msgLen / 8
      invariant forall k :: 0 <= k < i ==> mask[k] == 0xff
    {
      if mask[i] != 0xff {
        return false;
      }
    }
    complete := msgLen % 8 == 0 || mask[msgLen / 8] == BitRange(0, msgLen % 8);
  }

  method MarkBytes(mask: array<bv8>, start: nat, end: nat)
    requires start < end <= 8 * mask.Length
    modifies mask
    ensures forall k :: 0 <= k < mask.Length ==> mask[k] == MarkedByte(old(mask[k]), k, start, end)
  {
    if start / 8 == end / 8 {
      mask[start / 8] := mask[start / 8] | BitRange(start % 8, end % 8);
    } else {
      mask[start / 8] := mask[start / 8] | BitRange(start % 8, 8);
      for i := start / 8 + 1 to end / 8
        invariant forall k :: 0 <= k < mask.Length ==> mask[k] == if k < i then MarkedByte(old(mask[k]), k, start, end)
                                                                  else old(mask[k])
      {
        mask[i] := 0xff;
      }
      if end % 8 != 0 {
        mask[end / 8] := mask[end / 8] | BitRange(0, end % 8);
      }
    }
  }
}
