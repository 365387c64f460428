/** The portions of a key's hash that the index uses: which bits select the main bucket, and when two
    hashes share a bucket or a tag. */
module HashPortions {
  import opened Arithmetic
  import opened Bits
  import opened BucketPool

  /** Conjunction goes digit by digit. */
  lemma {:induction false} BitAndBit(x: nat, y: nat, k: nat)
    ensures Bit(BitAnd(x, y), k) == Bit(x, k) * Bit(y, k)
    decreases k
  {
    if x == 0 || y == 0 {
      BitOfZero(k);
    } else {
      Digits(BitAnd(x / 2, y / 2), (x % 2) * (y % 2));
      if k > 0 { BitAndBit(x / 2, y / 2, k - 1); }
    }
  }

  lemma BucketIs(keyhash: nat, mainSize: nat)
    requires mainSize > 0
    ensures BucketOf(keyhash, mainSize) == BitAnd(Portion(keyhash), mainSize - 1)
  {}

  /** 32 bits of the hash, from bit 16 on. */
  function Portion(keyhash: nat): nat {
    keyhash / 0x1_0000 % MAX_UINT32
  }

  lemma PortionBit(keyhash: nat, j: nat)
    ensures Bit(Portion(keyhash), j) == if j < 32 then Bit(keyhash, j + 16) else 0
  {
    hide Bit, Pow2;
    Powers();
    BitCut(keyhash / 0x1_0000, 32, MAX_UINT32, j);
    BitShifted(keyhash, 16, 0x1_0000, keyhash / 0x1_0000, j);
  }

  /** Bit `j` of the bucket is bit `j + 16` of the hash, if the table's size less one has that bit. */
  lemma BucketBits(keyhash: nat, mainSize: nat, j: nat)
    requires mainSize > 0
    ensures Bit(BucketOf(keyhash, mainSize), j) == if j < 32 && Bit(mainSize - 1, j) == 1 then Bit(keyhash, j + 16) else 0
  {
    hide *;
    BucketIs(keyhash, mainSize);
    PortionBit(keyhash, j);
    BitAndBit(Portion(keyhash), mainSize - 1, j);
    BitRange(mainSize - 1, j);
  }

  /** The hashes agree in every bit that the table's size selects. */
  ghost predicate SamePortion(g: nat, h: nat, mainSize: nat)
    requires mainSize > 0
  {
    forall j: nat {:trigger Bit(mainSize - 1, j)} | j < 32 && Bit(mainSize - 1, j) == 1 :: Bit(g, j + 16) == Bit(h, j + 16)
  }

  /** So two hashes select the same bucket exactly if they agree in those bits; bits 0 to 15 and bits
      from 48 on do not matter. */
  lemma SameBucket(g: nat, h: nat, mainSize: nat)
    requires mainSize > 0
    ensures BucketOf(g, mainSize) == BucketOf(h, mainSize) <==> SamePortion(g, h, mainSize)
  {
    hide BucketOf, Bit;
    var a, b := BucketOf(g, mainSize), BucketOf(h, mainSize);
    if a == b {
      forall j: nat {:trigger Bit(mainSize - 1, j)} | j < 32 && Bit(mainSize - 1, j) == 1 ensures Bit(g, j + 16) == Bit(h, j + 16) {
        BucketBits(g, mainSize, j);
        BucketBits(h, mainSize, j);
      }
    }
    if SamePortion(g, h, mainSize) {
      forall j: nat ensures Bit(a, j) == Bit(b, j) {
        BucketBits(g, mainSize, j);
        BucketBits(h, mainSize, j);
      }
      SameBits(a, b);
    }
  }

  lemma {:induction false} BitAndMask(x: nat, k: nat, m: nat)
    requires m == Pow2(k) && m > 0
    ensures BitAnd(x, m - 1) == x % m
    decreases k
  {
    if k > 0 {
      var h := Pow2(k - 1);
      Pow2Positive(k - 1);
      assert m == 2 * h;
      BitAndMask(x / 2, k - 1, h);
      hide Pow2;
      DivDiv(x, h);
      MaskDigits(x, h);
    }
  }

  lemma MaskDigits(x: nat, h: nat)
    requires h > 0
    ensures BitAnd(x, 2 * h - 1) == 2 * BitAnd(x / 2, h - 1) + x % 2
  {
    Digits(h - 1, 1);
    assert (2 * h - 1) / 2 == h - 1 && (2 * h - 1) % 2 == 1;
  }

  /** In a table of 2^k main buckets the bucket is the 32-bit portion, which starts at bit 16, modulo
      the table's size. */
  lemma BucketOfPowerOfTwo(keyhash: nat, k: nat)
    ensures Pow2(k) > 0 && BucketOf(keyhash, Pow2(k)) == keyhash / 0x1_0000 % MAX_UINT32 % Pow2(k)
  {
    Pow2Positive(k);
    var m := Pow2(k);
    BucketIs(keyhash, m);
    BitAndMask(Portion(keyhash), k, m);
  }

  ghost predicate Selects(mainSize: nat, m: nat) {
    mainSize > 0 && exists keyhash: nat :: BucketOf(keyhash, mainSize) == m
  }

  lemma {:induction false} BitAndTwice(x: nat, y: nat)
    ensures BitAnd(BitAnd(x, y), y) == BitAnd(x, y)
    decreases x
  {
    if x != 0 && y != 0 {
      BitAndTwice(x / 2, y / 2);
      Digits(BitAnd(x / 2, y / 2), (x % 2) * (y % 2));
    }
  }

  lemma {:induction false} FullMask(n: nat) returns (k: nat)
    requires n > 0 && forall m {:trigger BitAnd(m, n - 1)} | 0 <= m < n :: BitAnd(m, n - 1) == m
    ensures n == Pow2(k)
    decreases n
  {
    if n == 1 {
      k := 0;
    } else {
      assert BitAnd(1, n - 1) == 1;
      assert (n - 1) % 2 == 1;
      forall m {:trigger BitAnd(m, n / 2 - 1)} | 0 <= m < n / 2 ensures BitAnd(m, n / 2 - 1) == m {
        assert BitAnd(2 * m, n - 1) == 2 * m;
      }
      k := FullMask(n / 2);
      k := k + 1;
    }
  }

  /** Every main bucket is selected by some hash exactly if their number is a power of two. */
  lemma AllSelected(mainSize: nat)
    requires 0 < mainSize <= MAX_UINT32
    ensures (forall m {:trigger Selects(mainSize, m)} | 0 <= m < mainSize :: Selects(mainSize, m)) <==> exists k :: mainSize == Pow2(k)
  {
    hide Pow2, BitAnd, BucketOf, Selects;
    if forall m {:trigger Selects(mainSize, m)} | 0 <= m < mainSize :: Selects(mainSize, m) {
      forall m {:trigger BitAnd(m, mainSize - 1)} | 0 <= m < mainSize ensures BitAnd(m, mainSize - 1) == m {
        assert Selects(mainSize, m);
        SelectedFits(mainSize, m);
      }
      var k := FullMask(mainSize);
    }
    if k :| mainSize == Pow2(k) {
      forall m {:trigger Selects(mainSize, m)} | 0 <= m < mainSize ensures Selects(mainSize, m) {
        SelectedBy(k, m);
      }
    }
  }

  lemma SelectedFits(mainSize: nat, m: nat)
    requires Selects(mainSize, m)
    ensures BitAnd(m, mainSize - 1) == m
  {
    var h: nat :| BucketOf(h, mainSize) == m;
    hide BitAnd;
    BucketIs(h, mainSize);
    BitAndTwice(Portion(h), mainSize - 1);
  }

  lemma SelectedBy(k: nat, m: nat)
    requires m < Pow2(k) <= MAX_UINT32
    ensures Selects(Pow2(k), m)
  {
    hide Pow2, BitAnd, BucketOf;
    BucketOfPowerOfTwo(m * 0x1_0000, k);
    Remainder(m, 0, m, Pow2(k));
    assert BucketOf(m * 0x1_0000, Pow2(k)) == m;
  }

  /** Two hashes share a tag exactly if they agree in their low 16 bits, or one has none of these bits
      and the other all. */
  lemma SameTag(g: nat, h: nat)
    ensures TagOf(g) == TagOf(h) <==>
            g % 0x1_0000 == h % 0x1_0000 || {g % 0x1_0000, h % 0x1_0000} == {0, 0xffff}
  {}
}
