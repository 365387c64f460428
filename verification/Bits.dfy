/** Binary digits of numbers: shifts, remainders, and that the digits determine the number. */
module Bits {
  import opened Arithmetic

  /** Binary digit `k` of `x`. */
  function Bit(x: nat, k: nat): nat
    decreases k
  {
    if k == 0 then x % 2 else Bit(x / 2, k - 1)
  }

  lemma {:induction false} BitOfZero(k: nat)
    ensures Bit(0, k) == 0
  {
    if k > 0 { BitOfZero(k - 1); }
  }

  lemma {:induction false} BitRange(x: nat, k: nat)
    ensures Bit(x, k) <= 1
    decreases k
  {
    if k > 0 { BitRange(x / 2, k - 1); }
  }

  lemma Digits(a: nat, d: nat)
    requires d < 2
    ensures (2 * a + d) / 2 == a && (2 * a + d) % 2 == d
  {}

  lemma {:induction false} BitShifted(x: nat, j: nat, m: nat, q: nat, k: nat)
    requires m == Pow2(j) && m > 0 && q == x / m
    ensures Bit(q, k) == Bit(x, j + k)
    decreases j
  {
    if j > 0 {
      var h := Pow2(j - 1);
      Pow2Positive(j - 1);
      assert m == 2 * h && Bit(x, j + k) == Bit(x / 2, j - 1 + k);
      DivDiv(x, h);
      BitShifted(x / 2, j - 1, h, q, k);
    }
  }

  lemma DivDiv(x: nat, m: nat)
    requires m > 0
    ensures x / (2 * m) == x / 2 / m && x % (2 * m) == 2 * (x / 2 % m) + x % 2
  {
    var q, r := x / 2 / m, x / 2 % m;
    assert x / 2 == q * m + r;
    assert x == q * (2 * m) + (2 * r + x % 2);
    Remainder(x, q, 2 * r + x % 2, 2 * m);
  }

  lemma {:induction false} BitCut(x: nat, j: nat, m: nat, k: nat)
    requires m == Pow2(j) && m > 0
    ensures Bit(x % m, k) == if k < j then Bit(x, k) else 0
    decreases j
  {
    if j == 0 {
      BitOfZero(k);
    } else {
      var h := Pow2(j - 1);
      Pow2Positive(j - 1);
      if k > 0 { BitCut(x / 2, j - 1, h, k - 1); }
      DivDiv(x, h);
      var y, z := x % m, x / 2 % h;
      hide Pow2;
      assert m == 2 * h;
      Digits(z, x % 2);
      assert y / 2 == z && y % 2 == x % 2;
    }
  }

  lemma {:induction false} BitScaled(x: nat, j: nat, m: nat, k: nat)
    requires m == Pow2(j)
    ensures Bit(x * m, k) == if k < j then 0 else Bit(x, k - j)
    decreases j
  {
    if j > 0 {
      var h := Pow2(j - 1);
      assert m == 2 * h;
      assert x * m == 2 * (x * h) + 0;
      Digits(x * h, 0);
      if k > 0 { BitScaled(x, j - 1, h, k - 1); }
    }
  }

  lemma Powers()
    ensures Pow2(16) == 0x1_0000 && Pow2(32) == MAX_UINT32
  {
    assert Pow2(8) == 0x100;
    Pow2Sum(8, 8);
    Pow2Sum(16, 16);
  }

  /** Digits determine a number. */
  lemma {:induction false} SameBits(x: nat, y: nat)
    requires forall k: nat :: Bit(x, k) == Bit(y, k)
    ensures x == y
    decreases x + y
  {
    if x + y > 0 {
      assert Bit(x, 0) == Bit(y, 0);
      forall k: nat ensures Bit(x / 2, k) == Bit(y / 2, k) {
        assert Bit(x, k + 1) == Bit(y, k + 1);
      }
      SameBits(x / 2, y / 2);
    }
  }
}
