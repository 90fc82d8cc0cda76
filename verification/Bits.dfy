/** Single bits of a number: `b & (1 << i)` and `b | (1 << i)`. */
module Bits {

  predicate Bit(b: nat, i: nat) {
    if i == 0 then b % 2 == 1 else Bit(b / 2, i - 1)
  }

  function SetBit(b: nat, i: nat): nat {
    if i == 0 then b - b % 2 + 1 else 2 * SetBit(b / 2, i - 1) + b % 2
  }

  function Pow2(n: nat): (p: nat)
    ensures p > 0
  {
    if n == 0 then 1 else 2 * Pow2(n - 1)
  }

  lemma {:induction false} BitAfterSet(b: nat, i: nat, j: nat)
    ensures Bit(SetBit(b, i), j) == (i == j || Bit(b, j))
  {
    if i > 0 && j > 0 {
      BitAfterSet(b / 2, i - 1, j - 1);
      assert SetBit(b, i) / 2 == SetBit(b / 2, i - 1);
    } else if i == 0 && j > 0 {
      assert SetBit(b, 0) / 2 == b / 2;
    }
  }

  lemma {:induction false} SetBitFits(b: nat, i: nat, n: nat)
    requires b < Pow2(n) && i < n
    ensures SetBit(b, i) < Pow2(n)
  {
    if i > 0 { SetBitFits(b / 2, i - 1, n - 1); }
  }

  lemma {:induction false} ZeroHasNoBits(i: nat)
    ensures !Bit(0, i)
  {
    if i > 0 { ZeroHasNoBits(i - 1); }
  }

  lemma BytePow()
    ensures Pow2(8) == 256
  {
    assert Pow2(4) == 2 * Pow2(3) == 4 * Pow2(2) == 8 * Pow2(1) == 16 * Pow2(0);
    assert Pow2(8) == 2 * Pow2(7) == 4 * Pow2(6) == 8 * Pow2(5) == 16 * Pow2(4);
  }

  /** A number put together of its low `k` bits and the rest. */
  lemma {:induction false} BitOfSum(low: nat, high: nat, k: nat, i: nat)
    requires low < Pow2(k)
    ensures Bit(low + high * Pow2(k), i) <==> if i < k then Bit(low, i) else Bit(high, i - k)
    decreases k
  {
    if k > 0 {
      var p := Pow2(k - 1);
      assert high * Pow2(k) == 2 * (high * p);
      assert (low + 2 * (high * p)) % 2 == low % 2 && (low + 2 * (high * p)) / 2 == low / 2 + high * p;
      if i > 0 { BitOfSum(low / 2, high, k - 1, i - 1); }
    }
  }

  /** Rotation right by `k` in 32 bits: the two parts change places. */
  lemma RotatedBit(low: nat, high: nat, k: nat, i: nat)
    requires k <= 32 && i < 32 && low < Pow2(k) && high < Pow2(32 - k)
    ensures Bit(high + low * Pow2(32 - k), i) <==> Bit(low + high * Pow2(k), (i + k) % 32)
  {
    BitOfSum(high, low, 32 - k, i);
    BitOfSum(low, high, k, (i + k) % 32);
  }

  lemma RotationPowers()
    ensures Pow2(15) == 0x8000 && Pow2(17) == 0x2_0000 && Pow2(32) == 0x1_0000_0000
  {
    BytePow();
    SixteenTimes(8);
    SixteenTimes(12);
    SixteenTimes(16);
    SixteenTimes(20);
    SixteenTimes(24);
    SixteenTimes(28);
  }

  lemma SixteenTimes(n: nat)
    ensures Pow2(n + 4) == 16 * Pow2(n) && Pow2(n + 3) == 8 * Pow2(n) && Pow2(n + 1) == 2 * Pow2(n)
  {
    assert Pow2(n + 4) == 2 * Pow2(n + 3) == 4 * Pow2(n + 2) == 8 * Pow2(n + 1);
  }

  /** `a & b`. */
  function And(a: nat, b: nat): (r: nat)
    ensures r <= b
  {
    if a == 0 || b == 0 then 0 else 2 * And(a / 2, b / 2) + if a % 2 == 1 && b % 2 == 1 then 1 else 0
  }

  lemma {:induction false} BitOfAnd(a: nat, b: nat, i: nat)
    ensures Bit(And(a, b), i) <==> Bit(a, i) && Bit(b, i)
  {
    if a == 0 || b == 0 {
      ZeroHasNoBits(i);
    } else if i > 0 {
      assert And(a, b) / 2 == And(a / 2, b / 2);
      BitOfAnd(a / 2, b / 2, i - 1);
    }
  }
}
