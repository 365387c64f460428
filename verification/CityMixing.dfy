/** The words of CityHash and its mixing primitives.

    Buffers are byte sequences and pointers are indices into them: the precondition of every fetch
    says that it stays inside the buffer. */
module CityMixing {
  import opened Arithmetic
  import opened Bits
  import opened Word64
  import opened LogEntry

  const K0: Word := 0xc3a5c85c97cb3127
  const K1: Word := 0xb492b66fbe98f273
  const K2: Word := 0x9ae16a3b2f90404f
  const K3: Word := 0xc949d7c7509e6557
  const KMUL: Word := 0x9ddfea08eb382d69

  /** The inverse of KMUL modulo 2^64. */
  const KMUL_INVERSE: Word := 0xdc56e6f5090b32d9

  datatype Pair<T> = Pair(first: T, second: T)

  type Buffer = seq<Byte>

  function Fetch32(s: Buffer, i: int): (w: Word)
    requires 0 <= i && i + 4 <= |s|
    ensures w < MAX_UINT32
  {
    s[i] as nat + 0x100 * (s[i + 1] as nat) + 0x1_0000 * (s[i + 2] as nat) + 0x100_0000 * (s[i + 3] as nat)
  }

  function Fetch64(s: Buffer, i: int): Word
    requires 0 <= i && i + 8 <= |s|
  {
    Fetch32(s, i) + MAX_UINT32 * Fetch32(s, i + 4)
  }

  /** Bitwise right rotation by 1 to 63 places */
  function Rotate(val: Word, shift: nat): Word
    requires 0 < shift < 64
  {
    WordOr(WordShr(val, shift), Shl(val, 64 - shift))
  }

  function ShiftMix(val: Word): Word {
    WordXor(val, WordShr(val, 47))
  }

  function Hash128to64(x: Pair<Word>): Word {
    var a := ShiftMix(Mul(WordXor(x.first, x.second), KMUL));
    var b := ShiftMix(Mul(WordXor(x.second, a), KMUL));
    Mul(b, KMUL)
  }

  function HashWords(u: Word, v: Word): Word {
    Hash128to64(Pair(u, v))
  }

  // ---------- The mixing loses nothing ----------

  /** Mixing twice gives the value back. */
  lemma ShiftMixInvolution(v: Word)
    ensures ShiftMix(ShiftMix(v)) == v
  {
    hide Xor, Shr;
    var s := Shr(v, 47);
    XorShr(v, s, 47);
    ShrWide(v, 47, 47);
    XorZero(s);
    XorCancel(v, s);
  }

  /** Rotating by `k` moves every digit `k` places down, and the low ones to the top. */
  lemma RotateBit(v: Word, k: nat, j: nat)
    requires 0 < k < 64
    ensures Bit(Rotate(v, k), j) == if j < 64 then Bit(v, (j + k) % 64) else 0
  {
    hide Or, Shr, Shl, Bit;
    OrBit(Shr(v, k), Shl(v, 64 - k), j);
    ShrBit(v, k, j);
    ShlBit(v, 64 - k, j);
    if j + k >= 64 { WordBit(v, j + k); }
    BitRange(v, (j + k) % 64);
  }

  /** So two opposite rotations give the value back. */
  lemma RotateBack(v: Word, k: nat)
    requires 0 < k < 64
    ensures Rotate(Rotate(v, k), 64 - k) == v
  {
    hide Rotate, Bit;
    forall j: nat ensures Bit(Rotate(Rotate(v, k), 64 - k), j) == Bit(v, j) {
      RotateBit(Rotate(v, k), 64 - k, j);
      if j < 64 {
        RotateBit(v, k, (j + 64 - k) % 64);
      } else {
        WordBit(v, j);
      }
    }
    SameBits(Rotate(Rotate(v, k), 64 - k), v);
  }

  /** The first argument that HashWords maps to `h` for a given second one. */
  function Unhash(h: Word, v: Word): Word {
    var b := ShiftMix(Mul(h, KMUL_INVERSE));
    var a := WordXor(v, Mul(b, KMUL_INVERSE));
    WordXor(Mul(ShiftMix(a), KMUL_INVERSE), v)
  }

  lemma MulKmul(x: Word)
    ensures Mul(Mul(x, KMUL), KMUL_INVERSE) == x && Mul(Mul(x, KMUL_INVERSE), KMUL) == x
  {
    MulInverse(x, KMUL, KMUL_INVERSE);
    MulInverse(x, KMUL_INVERSE, KMUL);
  }

  lemma XorTwice(a: Word, b: Word)
    ensures WordXor(WordXor(a, b), b) == a && WordXor(b, WordXor(b, a)) == a
  {
    XorCancel(a, b);
    XorCommutes(b, a);
    XorCommutes(b, Xor(b, a));
  }

  /** For a fixed second argument HashWords is a bijection of the first, and Unhash its inverse. */
  lemma HashRoundTrip(u: Word, v: Word, h: Word)
    ensures Unhash(HashWords(u, v), v) == u
    ensures HashWords(Unhash(h, v), v) == h
  {
    hide WordXor, Mul, ShiftMix;
    HashInverts(u, v);
    UnhashInverts(h, v);
  }

  lemma HashInverts(u: Word, v: Word)
    ensures Unhash(HashWords(u, v), v) == u
  {
    hide WordXor, Mul, ShiftMix;
    var m := Mul(WordXor(u, v), KMUL);
    var a := ShiftMix(m);
    var n := Mul(WordXor(v, a), KMUL);
    var b := ShiftMix(n);
    MulKmul(b);
    ShiftMixInvolution(n);
    MulKmul(WordXor(v, a));
    XorTwice(a, v);
    ShiftMixInvolution(m);
    MulKmul(WordXor(u, v));
    XorTwice(u, v);
  }

  lemma UnhashInverts(h: Word, v: Word)
    ensures HashWords(Unhash(h, v), v) == h
  {
    hide WordXor, Mul, ShiftMix;
    var p := Mul(h, KMUL_INVERSE);
    var b := ShiftMix(p);
    var q := Mul(b, KMUL_INVERSE);
    var a := WordXor(v, q);
    var r := Mul(ShiftMix(a), KMUL_INVERSE);
    XorTwice(r, v);
    MulKmul(ShiftMix(a));
    ShiftMixInvolution(a);
    XorTwice(q, v);
    MulKmul(b);
    ShiftMixInvolution(p);
    MulKmul(h);
  }

  // ---------- Fetched words ----------

  /** A fetched word determines its bytes. */
  lemma Fetch32Bytes(s: Buffer, i: int, t: Buffer, j: int)
    requires 0 <= i && i + 4 <= |s| && 0 <= j && j + 4 <= |t| && Fetch32(s, i) == Fetch32(t, j)
    ensures s[i..i + 4] == t[j..j + 4]
  {
    assert s[i] == t[j] && s[i + 1] == t[j + 1] && s[i + 2] == t[j + 2] && s[i + 3] == t[j + 3];
    assert s[i..i + 4] == [s[i], s[i + 1], s[i + 2], s[i + 3]];
  }

  lemma Fetch64Bytes(s: Buffer, i: int, t: Buffer, j: int)
    requires 0 <= i && i + 8 <= |s| && 0 <= j && j + 8 <= |t| && Fetch64(s, i) == Fetch64(t, j)
    ensures s[i..i + 8] == t[j..j + 8]
  {
    hide Fetch32;
    Remainder(Fetch64(s, i), Fetch32(s, i + 4), Fetch32(s, i), MAX_UINT32);
    Remainder(Fetch64(t, j), Fetch32(t, j + 4), Fetch32(t, j), MAX_UINT32);
    Fetch32Bytes(s, i, t, j);
    Fetch32Bytes(s, i + 4, t, j + 4);
    assert s[i..i + 8] == s[i..i + 4] + s[i + 4..i + 4 + 4];
    assert t[j..j + 8] == t[j..j + 4] + t[j + 4..j + 4 + 4];
  }

  // ---------- Words that know where they come from ----------

  /** The positions from `i` to `j - 1`. */
  function Positions(i: int, j: int): (r: set<int>)
    ensures forall p :: p in r <==> i <= p < j
    decreases j - i
  {
    if i < j then Positions(i, j - 1) + {j - 1} else {}
  }

  /** A word together with the positions in the buffer of the bytes that it was computed from. */
  datatype Traced = Traced(val: Word, at: set<int>) {
    function Plus(o: Traced): Traced { Traced(Add(val, o.val), at + o.at) }

    function Minus(o: Traced): Traced { Traced(Sub(val, o.val), at + o.at) }

    function Times(o: Traced): Traced { Traced(Mul(val, o.val), at + o.at) }

    function ExclusiveOr(o: Traced): Traced { Traced(WordXor(val, o.val), at + o.at) }

    function Rotated(shift: nat): Traced
      requires 0 < shift < 64
    {
      Traced(Rotate(val, shift), at)
    }

    function Mixed(): Traced { Traced(ShiftMix(val), at) }
  }

  function Const(w: Word): Traced { Traced(w, {}) }

  function HashLen16(u: Traced, v: Traced): Traced {
    Traced(HashWords(u.val, v.val), u.at + v.at)
  }

  function Load8(s: Buffer, i: int): Traced
    requires 0 <= i < |s|
  {
    Traced(s[i] as nat, {i})
  }

  function Load32(s: Buffer, i: int): Traced
    requires 0 <= i && i + 4 <= |s|
  {
    Traced(Fetch32(s, i), Positions(i, i + 4))
  }

  function Load64(s: Buffer, i: int): Traced
    requires 0 <= i && i + 8 <= |s|
  {
    Traced(Fetch64(s, i), Positions(i, i + 8))
  }

  /** The length of a buffer, as a word. */
  function Length(s: Buffer): Traced {
    Const(|s| % MODULUS)
  }
}
