/** 64-bit unsigned words: arithmetic modulo 2^64 and bitwise operations on binary digits. */
module Word64 {
  import opened Arithmetic
  import opened Bits

  const MODULUS: nat := 0x1_0000_0000_0000_0000

  type Word = w: nat | w < MODULUS

  function Add(a: int, b: int): Word { (a + b) % MODULUS }
  function Sub(a: int, b: int): Word { (a - b) % MODULUS }
  function Mul(a: int, b: int): Word { (a * b) % MODULUS }

  function Shr(a: nat, k: nat): nat
    decreases k
  {
    if k == 0 then a else Shr(a / 2, k - 1)
  }

  function Shl(a: nat, k: nat): Word { Mul(a, Pow2(k)) }

  function Xor(a: nat, b: nat): nat {
    if a == 0 && b == 0 then 0 else 2 * Xor(a / 2, b / 2) + (a % 2 + b % 2) % 2
  }

  function Or(a: nat, b: nat): nat {
    if a == 0 && b == 0 then 0
    else 2 * Or(a / 2, b / 2) + if a % 2 == 1 || b % 2 == 1 then 1 else 0
  }

  lemma {:induction false} XorBound(a: nat, b: nat, k: nat)
    requires a < Pow2(k) && b < Pow2(k)
    ensures Xor(a, b) < Pow2(k) && Or(a, b) < Pow2(k)
    decreases k
  {
    if k > 0 && (a > 0 || b > 0) {
      XorBound(a / 2, b / 2, k - 1);
    }
  }

  lemma ModulusIsPow2()
    ensures Pow2(64) == MODULUS
  {
    assert Pow2(8) == 0x100;
    Pow2Sum(8, 8);
    Pow2Sum(16, 16);
    Pow2Sum(32, 32);
  }

  /** Exclusive or of words */
  function WordXor(a: Word, b: Word): Word {
    ModulusIsPow2();
    XorBound(a, b, 64);
    Xor(a, b)
  }

  function WordOr(a: Word, b: Word): Word {
    ModulusIsPow2();
    XorBound(a, b, 64);
    Or(a, b)
  }

  lemma {:induction false} ShrBound(a: nat, k: nat)
    ensures Shr(a, k) <= a
    decreases k
  {
    if k > 0 { ShrBound(a / 2, k - 1); }
  }

  function WordShr(a: Word, k: nat): Word {
    ShrBound(a, k);
    Shr(a, k)
  }

  lemma XorDigits(a: nat, b: nat)
    ensures Xor(a, b) / 2 == Xor(a / 2, b / 2) && Xor(a, b) % 2 == (a % 2 + b % 2) % 2
  {}

  lemma {:induction false} XorCancel(a: nat, b: nat)
    ensures Xor(Xor(a, b), b) == a
    decreases a + b
  {
    if a > 0 || b > 0 {
      XorCancel(a / 2, b / 2);
      XorDigits(a, b);
      XorDigits(Xor(a, b), b);
      hide Xor;
      SameDigits(a % 2, b % 2);
    }
  }

  lemma SameDigits(x: nat, y: nat)
    requires x < 2 && y < 2
    ensures ((x + y) % 2 + y) % 2 == x
  {}

  lemma {:induction false} XorCommutes(a: nat, b: nat)
    ensures Xor(a, b) == Xor(b, a)
    decreases a + b
  {
    if a > 0 || b > 0 { XorCommutes(a / 2, b / 2); }
  }

  // ---------- Digit by digit ----------

  lemma {:induction false} XorBit(a: nat, b: nat, k: nat)
    ensures Bit(Xor(a, b), k) == (Bit(a, k) + Bit(b, k)) % 2
    decreases k
  {
    if a == 0 && b == 0 {
      BitOfZero(k);
    } else {
      Digits(Xor(a / 2, b / 2), (a % 2 + b % 2) % 2);
      if k > 0 { XorBit(a / 2, b / 2, k - 1); }
    }
  }

  lemma {:induction false} OrBit(a: nat, b: nat, k: nat)
    ensures Bit(Or(a, b), k) == if Bit(a, k) == 1 || Bit(b, k) == 1 then 1 else 0
    decreases k
  {
    if a == 0 && b == 0 {
      BitOfZero(k);
    } else {
      Digits(Or(a / 2, b / 2), if a % 2 == 1 || b % 2 == 1 then 1 else 0);
      if k > 0 { OrBit(a / 2, b / 2, k - 1); }
    }
  }

  lemma {:induction false} ShrBit(a: nat, j: nat, k: nat)
    ensures Bit(Shr(a, j), k) == Bit(a, j + k)
    decreases j
  {
    if j > 0 { ShrBit(a / 2, j - 1, k); }
  }

  lemma ShlBit(a: nat, j: nat, k: nat)
    ensures Bit(Shl(a, j), k) == if j <= k < 64 then Bit(a, k - j) else 0
  {
    hide Bit, Pow2;
    ModulusIsPow2();
    BitCut(a * Pow2(j), 64, MODULUS, k);
    BitScaled(a, j, Pow2(j), k);
  }

  /** A word has no digits from the 64th on. */
  lemma WordBit(a: Word, k: nat)
    requires k >= 64
    ensures Bit(a, k) == 0
  {
    hide Bit, Pow2;
    ModulusIsPow2();
    BitCut(a, 64, MODULUS, k);
  }

  lemma {:induction false} XorShr(a: nat, b: nat, k: nat)
    ensures Shr(Xor(a, b), k) == Xor(Shr(a, k), Shr(b, k))
    decreases k
  {
    if k > 0 {
      XorShr(a / 2, b / 2, k - 1);
      assert Xor(a, b) / 2 == Xor(a / 2, b / 2);
    }
  }

  lemma {:induction false} ShrShr(a: nat, j: nat, k: nat)
    ensures Shr(Shr(a, j), k) == Shr(a, j + k)
    decreases j
  {
    if j > 0 { ShrShr(a / 2, j - 1, k); }
  }

  lemma {:induction false} ShrSmall(a: nat, k: nat)
    requires a < Pow2(k)
    ensures Shr(a, k) == 0
    decreases k
  {
    if k > 0 { ShrSmall(a / 2, k - 1); }
  }

  /** Two shifts that together leave the word. */
  lemma ShrWide(a: Word, j: nat, k: nat)
    requires j + k >= 64
    ensures Shr(Shr(a, j), k) == 0
  {
    hide Shr, Pow2;
    ShrShr(a, j, k);
    ModulusIsPow2();
    Pow2Sum(64, j + k - 64);
    Pow2Positive(j + k - 64);
    MulAtLeast(Pow2(j + k - 64), MODULUS);
    ShrSmall(a, j + k);
  }

  lemma {:induction false} XorZero(a: nat)
    ensures Xor(a, 0) == a
  {
    if a > 0 { XorZero(a / 2); }
  }

  /** Multiplying by two factors whose product is 1 modulo 2^64 changes nothing. */
  lemma MulInverse(x: Word, a: nat, b: nat)
    requires a * b % MODULUS == 1
    ensures Mul(Mul(x, a), b) == x
  {
    var q := x * a / MODULUS;
    var r := Mul(x, a);
    var p := a * b / MODULUS;
    assert x * a == q * MODULUS + r;
    assert a * b == p * MODULUS + 1;
    MulRegroup(x, a, b, q, r, p);
    var d := x * p - q * b;
    if d >= 0 {
      Remainder(r * b, d, x, MODULUS);
    } else {
      MulAtLeast(-d, MODULUS);
    }
  }

  lemma MulRegroup(x: nat, a: nat, b: nat, q: nat, r: nat, p: nat)
    requires x * a == q * MODULUS + r && a * b == p * MODULUS + 1
    ensures r * b == (x * p - q * b) * MODULUS + x
  {
    assert x * a * b == x * (a * b);
    assert (q * MODULUS + r) * b == q * b * MODULUS + r * b;
    assert x * (p * MODULUS + 1) == x * p * MODULUS + x;
  }
}
