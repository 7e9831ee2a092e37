/** Single bits of a natural number, counted from the least significant one. */
module Bits {

  function Pow2(w: nat): (p: nat)
    ensures p > 0
  {
    if w == 0 then 1 else 2 * Pow2(w - 1)
  }

  /** `b & (1 << k)` is not zero */
  predicate HasBit(b: nat, k: nat) {
    if k == 0 then b % 2 == 1 else HasBit(b / 2, k - 1)
  }

  /** `b | (1 << k)` */
  function WithBit(b: nat, k: nat): nat {
    if k == 0 then b / 2 * 2 + 1 else b % 2 + 2 * WithBit(b / 2, k - 1)
  }

  /** `b & ~(1 << k)` */
  function WithoutBit(b: nat, k: nat): nat {
    if k == 0 then b / 2 * 2 else b % 2 + 2 * WithoutBit(b / 2, k - 1)
  }

  lemma {:induction false} InRange(b: nat, k: nat, w: nat)
    requires b < Pow2(w) && k < w
    ensures WithBit(b, k) < Pow2(w) && WithoutBit(b, k) < Pow2(w)
  {
    if k == 0 {
    } else {
      InRange(b / 2, k - 1, w - 1);
    }
  }

  lemma Digits(r: nat, h: nat)
    requires r < 2
    ensures (r + 2 * h) % 2 == r && (r + 2 * h) / 2 == h
  {}

  /** Setting or clearing bit `k` decides that bit and no other. */
  lemma {:induction false} BitLaws(b: nat, k: nat, j: nat)
    ensures HasBit(WithBit(b, k), j) == (j == k || HasBit(b, j))
    ensures HasBit(WithoutBit(b, k), j) == (j != k && HasBit(b, j))
  {
    if k == 0 {
      Digits(1, b / 2);
      Digits(0, b / 2);
    } else {
      Digits(b % 2, WithBit(b / 2, k - 1));
      Digits(b % 2, WithoutBit(b / 2, k - 1));
      if j > 0 {
        BitLaws(b / 2, k - 1, j - 1);
      }
    }
  }

  /** Bit `k` is the digit of weight `2^k`. */
  lemma {:induction false} BitMeans(b: nat, k: nat) returns (high: nat, low: nat)
    ensures low < Pow2(k) && b == Pow2(k) * (2 * high + if HasBit(b, k) then 1 else 0) + low
  {
    if k == 0 {
      high, low := b / 2, 0;
    } else {
      high, low := BitMeans(b / 2, k - 1);
      var z := 2 * high + if HasBit(b, k) then 1 else 0;
      Twice(Pow2(k - 1), z);
      low := 2 * low + b % 2;
    }
  }

  lemma Twice(p: nat, z: nat)
    ensures 2 * p * z == 2 * (p * z)
  {}

  lemma {:induction false} ZeroHasNoBit(k: nat)
    ensures !HasBit(0, k)
  {
    if k == 0 {
    } else {
      ZeroHasNoBit(k - 1);
    }
  }

  lemma ByteWidth()
    ensures Pow2(8) == 256
  {
    assert Pow2(4) == 16;
  }
}
