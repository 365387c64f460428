/** Machine bounds, powers of two, and two facts about division that the solver needs spelled out. */
module Arithmetic {
  const MAX_UINT32: nat := 0x1_0000_0000
  const MAX_INT32: nat := 0x8000_0000

  lemma MulAtLeast(d: int, m: nat)
    requires d >= 1
    ensures d * m >= m
  {}

  /** The remainder of a division is determined by any quotient that leaves a small rest. */
  lemma Remainder(x: nat, q: nat, r: nat, m: nat)
    requires r < m && x == q * m + r
    ensures x % m == r && x / m == q
  {
    var p, t := x / m, x % m;
    assert x == p * m + t && 0 <= t < m;
    assert (q - p) * m == t - r;
    if p < q {
      MulAtLeast(q - p, m);
    } else if p > q {
      MulAtLeast(p - q, m);
    }
  }

  function Pow2(k: nat): nat {
    if k == 0 then 1 else 2 * Pow2(k - 1)
  }

  lemma {:induction false} Pow2Sum(a: nat, b: nat)
    ensures Pow2(a + b) == Pow2(a) * Pow2(b)
  {
    if a > 0 {
      Pow2Sum(a - 1, b);
      assert Pow2(a + b) == 2 * Pow2(a - 1 + b);
    }
  }

  lemma {:induction false} Pow2Positive(k: nat)
    ensures Pow2(k) >= 1
  {
    if k > 0 { Pow2Positive(k - 1); }
  }
}
