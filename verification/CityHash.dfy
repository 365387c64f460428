/** CityHash64 and CityHash128.

    Every fetch requires that it stays inside the buffer, so each function below is also the proof
    that it reads in bounds for every length. The words carry the positions of the bytes that they
    were computed from: no byte of a buffer is left out of its hash. */
module CityHash {
  import opened Arithmetic
  import opened Word64
  import opened LogEntry
  import opened CityMixing

  const C0: Traced := Const(K0)
  const C1: Traced := Const(K1)
  const C2: Traced := Const(K2)
  const C3: Traced := Const(K3)

  // ---------- Short strings ----------

  function HashLen0to16(s: Buffer): Traced
    requires |s| <= 16
  {
    var len := |s|;
    if len > 8 then
      var a, b := Load64(s, 0), Load64(s, len - 8);
      HashLen16(a, b.Plus(Length(s)).Rotated(len)).ExclusiveOr(b)
    else if len >= 4 then
      HashLen16(Length(s).Plus(Load32(s, 0).Times(Const(8))), Load32(s, len - 4))
    else if len > 0 then
      var a, b, c := Load8(s, 0), Load8(s, len / 2), Load8(s, len - 1);
      var y, z := a.Plus(b.Times(Const(0x100))), Length(s).Plus(c.Times(Const(4)));
      y.Times(C2).ExclusiveOr(z.Times(C3)).Mixed().Times(C2)
    else C2
  }

  function HashLen17to32(s: Buffer): Traced
    requires 16 < |s| <= 32
  {
    var len := |s|;
    var a := Load64(s, 0).Times(C1);
    var b := Load64(s, 8);
    var c := Load64(s, len - 8).Times(C2);
    var d := Load64(s, len - 16).Times(C0);
    HashLen16(a.Minus(b).Rotated(43).Plus(c.Rotated(30)).Plus(d),
              a.Plus(b.ExclusiveOr(C3).Rotated(20)).Minus(c).Plus(Length(s)))
  }

  function WeakHashLen32WithSeeds6(w: Traced, x: Traced, y: Traced, z: Traced, a: Traced, b: Traced): Pair<Traced> {
    var a1 := a.Plus(w);
    var b1 := b.Plus(a1).Plus(z).Rotated(21);
    var a2 := a1.Plus(x).Plus(y);
    var b2 := b1.Plus(a2.Rotated(44));
    Pair(a2.Plus(z), b2.Plus(a1))
  }

  function WeakHashLen32WithSeeds(s: Buffer, i: int, a: Traced, b: Traced): Pair<Traced>
    requires 0 <= i && i + 32 <= |s|
  {
    WeakHashLen32WithSeeds6(Load64(s, i), Load64(s, i + 8), Load64(s, i + 16), Load64(s, i + 24), a, b)
  }

  function HashLen33to64(s: Buffer): Traced
    requires 32 < |s| <= 64
  {
    var len := |s|;
    var z := Load64(s, 24);
    var a := Load64(s, 0).Plus(Length(s).Plus(Load64(s, len - 16)).Times(C0));
    var b := a.Plus(z).Rotated(52);
    var c := a.Rotated(37);
    var a1 := a.Plus(Load64(s, 8));
    var c1 := c.Plus(a1.Rotated(7));
    var a2 := a1.Plus(Load64(s, 16));
    var vf, vs := a2.Plus(z), b.Plus(a2.Rotated(31)).Plus(c1);
    var a3 := Load64(s, 16).Plus(Load64(s, len - 32));
    var z1 := Load64(s, len - 8);
    var b1 := a3.Plus(z1).Rotated(52);
    var c2 := a3.Rotated(37);
    var a4 := a3.Plus(Load64(s, len - 24));
    var c3 := c2.Plus(a4.Rotated(7));
    var a5 := a4.Plus(Load64(s, len - 16));
    var wf, ws := a5.Plus(z1), b1.Plus(a5.Rotated(31)).Plus(c3);
    var r := vf.Plus(ws).Times(C2).Plus(wf.Plus(vs).Times(C0)).Mixed();
    r.Times(C0).Plus(vs).Mixed().Times(C2)
  }

  // ---------- The 64-byte step ----------

  /** The 56 bytes of state that the loops keep. */
  datatype Mix = Mix(x: Traced, y: Traced, z: Traced, v: Pair<Traced>, w: Pair<Traced>) {
    /** The positions of all bytes that have gone into the state. */
    function Seen(): set<int> {
      x.at + y.at + z.at + v.first.at + v.second.at + w.first.at + w.second.at
    }
  }

  /** One round of the loop of CityHash64, on the 64 bytes from `i` on. */
  function Step(s: Buffer, i: int, m: Mix): Mix
    requires 0 <= i && i + 64 <= |s|
  {
    var x := m.x.Plus(m.y).Plus(m.v.first).Plus(Load64(s, i + 8)).Rotated(37).Times(C1);
    var y := m.y.Plus(m.v.second).Plus(Load64(s, i + 48)).Rotated(42).Times(C1);
    var x1 := x.ExclusiveOr(m.w.second);
    var y1 := y.Plus(m.v.first.Plus(Load64(s, i + 40)));
    var z := m.z.Plus(m.w.first).Rotated(33).Times(C1);
    var v := WeakHashLen32WithSeeds(s, i, m.v.second.Times(C1), x1.Plus(m.w.first));
    var w := WeakHashLen32WithSeeds(s, i + 32, z.Plus(m.w.second), y1.Plus(Load64(s, i + 16)));
    Mix(z, y1, x1, v, w)
  }

  /** The first `n` rounds. */
  function Steps(s: Buffer, n: nat, m: Mix): Mix
    requires 64 * n <= |s|
  {
    if n == 0 then m else Step(s, 64 * (n - 1), Steps(s, n - 1, m))
  }

  function Start64(s: Buffer): Mix
    requires 64 < |s|
  {
    var len := |s|;
    var x := Load64(s, len - 40);
    var y := Load64(s, len - 16).Plus(Load64(s, len - 56));
    var z := HashLen16(Load64(s, len - 48).Plus(Length(s)), Load64(s, len - 24));
    var v := WeakHashLen32WithSeeds(s, len - 64, Length(s), z);
    var w := WeakHashLen32WithSeeds(s, len - 32, y.Plus(C1), x);
    Mix(x.Times(C1).Plus(Load64(s, 0)), y, z, v, w)
  }

  function Finish64(m: Mix): Traced {
    HashLen16(HashLen16(m.v.first, m.w.first).Plus(m.y.Mixed().Times(C1)).Plus(m.z),
              HashLen16(m.v.second, m.w.second).Plus(m.x))
  }

  /** CityHash64 of a string: all its bytes but the last 1 to 64 go through the rounds. */
  function Hash64(s: Buffer): Traced {
    if |s| <= 16 then HashLen0to16(s)
    else if |s| <= 32 then HashLen17to32(s)
    else if |s| <= 64 then HashLen33to64(s)
    else Finish64(Steps(s, (|s| - 1) / 64, Start64(s)))
  }

  /** One round, statement by statement, as the bodies of both loops have it. */
  method Round(s: Buffer, i: int, m: Mix) returns (r: Mix)
    requires 0 <= i && i + 64 <= |s|
    ensures r == Step(s, i, m)
  {
    hide Rotate, Mul, Add, WordXor, Fetch64, WeakHashLen32WithSeeds, Positions;
    var Mix(x, y, z, v, w) := m;
    x := x.Plus(y).Plus(v.first).Plus(Load64(s, i + 8)).Rotated(37).Times(C1);
    y := y.Plus(v.second).Plus(Load64(s, i + 48)).Rotated(42).Times(C1);
    x := x.ExclusiveOr(w.second);
    y := y.Plus(v.first.Plus(Load64(s, i + 40)));
    z := z.Plus(w.first).Rotated(33).Times(C1);
    v := WeakHashLen32WithSeeds(s, i, v.second.Times(C1), x.Plus(w.first));
    w := WeakHashLen32WithSeeds(s, i + 32, z.Plus(w.second), y.Plus(Load64(s, i + 16)));
    var temp := z;
    z := x;
    x := temp;
    r := Mix(x, y, z, v, w);
  }

  /** For a string of more than 64 bytes `n` is the number of rounds: they leave 1 to 64 bytes. */
  method CityHash64(s: Buffer) returns (h: Word, ghost n: nat)
    ensures h == Hash64(s).val
    ensures |s| > 64 ==> 64 * n < |s| <= 64 * (n + 1) && h == Finish64(Steps(s, n, Start64(s))).val
  {
    hide HashLen0to16, HashLen17to32, HashLen33to64, Start64, Finish64, Step;
    n := 0;
    if |s| <= 32 {
      if |s| <= 16 {
        h := HashLen0to16(s).val;
      } else {
        h := HashLen17to32(s).val;
      }
      return;
    } else if |s| <= 64 {
      h := HashLen33to64(s).val;
      return;
    }
    var m := Start64(s);
    var i, len := 0, (|s| - 1) / 64 * 64;
    ghost var total := (|s| - 1) / 64;
    while len != 0
      invariant 0 <= n <= total && i == 64 * n && len == 64 * (total - n)
      invariant m == Steps(s, n, Start64(s))
      decreases len
    {
      m := Round(s, i, m);
      i, len := i + 64, len - 64;
      n := n + 1;
    }
    h := Finish64(m).val;
  }

  // ---------- Every byte counts ----------

  lemma ShortSeen(s: Buffer, p: int)
    requires |s| <= 16
    ensures p in HashLen0to16(s).at <==> 0 <= p < |s|
  {
    hide Add, Mul, WordXor, ShiftMix, Rotate, HashWords, Fetch32, Fetch64, Positions;
  }

  lemma MiddleSeen(s: Buffer, p: int)
    requires 16 < |s| <= 32
    ensures p in HashLen17to32(s).at <==> 0 <= p < |s|
  {
    hide Add, Sub, Mul, WordXor, Rotate, HashWords, Fetch64, Positions;
  }

  lemma LongerSeen(s: Buffer, p: int)
    requires 32 < |s| <= 64
    ensures p in HashLen33to64(s).at <==> 0 <= p < |s|
  {
    hide Add, Sub, Mul, WordXor, ShiftMix, Rotate, HashWords, Fetch64, Positions;
  }

  lemma WeakSeen(s: Buffer, i: int, a: Traced, b: Traced, p: int)
    requires 0 <= i && i + 32 <= |s|
    ensures p in WeakHashLen32WithSeeds(s, i, a, b).first.at <==> i <= p < i + 32 || p in a.at
    ensures p in WeakHashLen32WithSeeds(s, i, a, b).second.at <==> i <= p < i + 32 || p in a.at || p in b.at
  {
    hide Add, Rotate, Fetch64, Positions;
  }

  /** A round puts its 64 bytes into the state, and what was in the state stays. */
  lemma StepSeen(s: Buffer, i: int, m: Mix, p: int)
    requires 0 <= i && i + 64 <= |s|
    ensures p in Step(s, i, m).Seen() <==> p in m.Seen() || i <= p < i + 64
  {
    hide Add, Mul, WordXor, Rotate, Fetch64, WeakHashLen32WithSeeds, Positions;
    var x := m.x.Plus(m.y).Plus(m.v.first).Plus(Load64(s, i + 8)).Rotated(37).Times(C1).ExclusiveOr(m.w.second);
    var y := m.y.Plus(m.v.second).Plus(Load64(s, i + 48)).Rotated(42).Times(C1).Plus(m.v.first.Plus(Load64(s, i + 40)));
    var z := m.z.Plus(m.w.first).Rotated(33).Times(C1);
    WeakSeen(s, i, m.v.second.Times(C1), x.Plus(m.w.first), p);
    WeakSeen(s, i + 32, z.Plus(m.w.second), y.Plus(Load64(s, i + 16)), p);
  }

  lemma {:induction false} StepsSeen(s: Buffer, n: nat, m: Mix, p: int)
    requires 64 * n <= |s|
    ensures p in Steps(s, n, m).Seen() <==> p in m.Seen() || 0 <= p < 64 * n
  {
    hide Step, Mix.Seen;
    if n > 0 {
      var r := Steps(s, n - 1, m);
      assert Steps(s, n, m) == Step(s, 64 * (n - 1), r);
      StepsSeen(s, n - 1, m, p);
      hide Steps;
      StepSeen(s, 64 * (n - 1), r, p);
    }
  }

  lemma Start64Seen(s: Buffer, p: int)
    requires 64 < |s|
    ensures p in Start64(s).Seen() <==> 0 <= p < 8 || |s| - 64 <= p < |s|
  {
    hide Add, Mul, HashWords, Fetch64, WeakHashLen32WithSeeds, Positions;
    var len := |s|;
    var x := Load64(s, len - 40);
    var y := Load64(s, len - 16).Plus(Load64(s, len - 56));
    var z := HashLen16(Load64(s, len - 48).Plus(Length(s)), Load64(s, len - 24));
    WeakSeen(s, len - 64, Length(s), z, p);
    WeakSeen(s, len - 32, y.Plus(C1), x, p);
  }

  lemma Finish64Seen(m: Mix, p: int)
    ensures p in Finish64(m).at <==> p in m.Seen()
  {
    hide Add, Mul, ShiftMix, HashWords;
  }

  lemma Hash64Sees(s: Buffer, p: int)
    ensures p in Hash64(s).at <==> 0 <= p < |s|
  {
    hide HashLen0to16, HashLen17to32, HashLen33to64, Start64, Finish64, Steps, Mix.Seen;
    if |s| <= 16 {
      ShortSeen(s, p);
    } else if |s| <= 32 {
      MiddleSeen(s, p);
    } else if |s| <= 64 {
      LongerSeen(s, p);
    } else {
      var n := (|s| - 1) / 64;
      Start64Seen(s, p);
      StepsSeen(s, n, Start64(s), p);
      Finish64Seen(Steps(s, n, Start64(s)), p);
    }
  }

  /** CityHash64 is computed from every byte of the string, whatever its length. */
  lemma Hash64Covers(s: Buffer)
    ensures Hash64(s).at == Positions(0, |s|)
  {
    hide Hash64, Positions;
    forall p ensures p in Hash64(s).at <==> p in Positions(0, |s|) {
      Hash64Sees(s, p);
    }
  }

  // ---------- Seeds ----------

  function CityHash64WithSeeds(s: Buffer, seed0: Word, seed1: Word): Word {
    HashWords(Sub(Hash64(s).val, seed0), seed1)
  }

  /** With its seeds, a seeded hash gives the hash back: seeding neither joins nor drops anything. */
  lemma SeedingInverts(s: Buffer, seed0: Word, seed1: Word)
    ensures Add(Unhash(CityHash64WithSeeds(s, seed0, seed1), seed1), seed0) == Hash64(s).val
  {
    hide Unhash, HashWords, Hash64;
    HashRoundTrip(Sub(Hash64(s).val, seed0), seed1, 0);
    AddSub(Hash64(s).val, seed0);
  }

  lemma AddSub(h: Word, a: Word)
    ensures Add(Sub(h, a), a) == h
  {
    assert Sub(h, a) == (if h >= a then h - a else h - a + MODULUS);
  }

  /** So two strings share a seeded hash exactly if they share the hash. */
  lemma HashesSeparate(s: Buffer, t: Buffer, seed0: Word, seed1: Word)
    ensures CityHash64WithSeeds(s, seed0, seed1) == CityHash64WithSeeds(t, seed0, seed1) <==> Hash64(s).val == Hash64(t).val
  {
    hide Unhash, HashWords, Hash64, Add;
    SeedingInverts(s, seed0, seed1);
    SeedingInverts(t, seed0, seed1);
  }

  /** Two first seeds give two hashes of any string. */
  lemma SeedsSeparate(s: Buffer, a: Word, b: Word, seed1: Word)
    requires a != b
    ensures CityHash64WithSeeds(s, a, seed1) != CityHash64WithSeeds(s, b, seed1)
  {
    hide Unhash, HashWords, Hash64;
    var h := Hash64(s).val;
    HashRoundTrip(Sub(h, a), seed1, 0);
    HashRoundTrip(Sub(h, b), seed1, 0);
    SubInjective(h, a, b);
  }

  lemma SubInjective(h: Word, a: Word, b: Word)
    ensures Sub(h, a) == Sub(h, b) ==> a == b
  {
    assert Sub(h, a) == (if h >= a then h - a else h - a + MODULUS);
    assert Sub(h, b) == (if h >= b then h - b else h - b + MODULUS);
  }

  // ---------- 128 bits ----------

  /** The two words of a seed stand at the positions -2 and -1. */
  function Seeded(seed: Pair<Word>): Pair<Traced> {
    Pair(Traced(seed.first, {-2}), Traced(seed.second, {-1}))
  }

  function Words(h: Pair<Traced>): Pair<Word> {
    Pair(h.first.val, h.second.val)
  }

  datatype Four = Four(a: Traced, b: Traced, c: Traced, d: Traced) {
    function Seen(): set<int> {
      a.at + b.at + c.at + d.at
    }
  }

  function MurmurStep(s: Buffer, i: int, m: Four): Four
    requires 0 <= i && i + 16 <= |s|
  {
    var a := m.a.ExclusiveOr(Load64(s, i).Times(C1).Mixed().Times(C1)).Times(C1);
    var c := m.c.ExclusiveOr(Load64(s, i + 8).Times(C1).Mixed().Times(C1)).Times(C1);
    Four(a, m.b.ExclusiveOr(a), c, m.d.ExclusiveOr(c))
  }

  function MurmurSteps(s: Buffer, n: nat, m: Four): Four
    requires 16 * n <= |s|
  {
    if n == 0 then m else MurmurStep(s, 16 * (n - 1), MurmurSteps(s, n - 1, m))
  }

  function MurmurStart(s: Buffer, seed: Pair<Traced>): Four {
    var a, b, len := seed.first, seed.second, |s|;
    if len <= 16 then
      var a1 := a.Times(C1).Mixed().Times(C1);
      var c := b.Times(C1).Plus(HashLen0to16(s));
      Four(a1, b, c, a1.Plus(if len >= 8 then Load64(s, 0) else c).Mixed())
    else
      var c := HashLen16(Load64(s, len - 8).Plus(C1), a);
      var d := HashLen16(b.Plus(Length(s)), c.Plus(Load64(s, len - 16)));
      Four(a.Plus(d), b, c, d)
  }

  function MurmurFinish(m: Four): Pair<Traced> {
    var a, b := HashLen16(m.a, m.c), HashLen16(m.d, m.b);
    Pair(a.ExclusiveOr(b), HashLen16(b, a))
  }

  /** All bytes but the last 16, rounded up to chunks of 16, go through the rounds. */
  function Murmur(s: Buffer, seed: Pair<Word>): Pair<Traced> {
    var m := MurmurStart(s, Seeded(seed));
    MurmurFinish(if |s| <= 16 then m else MurmurSteps(s, (|s| - 1) / 16, m))
  }

  /** For a string of more than 16 bytes `n` is the number of rounds: they leave 1 to 16 bytes. */
  method CityMurmur(s: Buffer, seed: Pair<Word>) returns (h: Pair<Word>, ghost n: nat)
    ensures h == Words(Murmur(s, seed))
    ensures |s| > 16 ==> 16 * n < |s| <= 16 * (n + 1) && h == Words(MurmurFinish(MurmurSteps(s, n, MurmurStart(s, Seeded(seed)))))
  {
    hide MurmurStart, MurmurFinish, MurmurStep;
    var m := MurmurStart(s, Seeded(seed));
    var l: int := |s| - 16;
    n := 0;
    if l > 0 {
      var i := 0;
      while l > 0
        invariant i == 16 * n && l == |s| - 16 - i > -16
        invariant m == MurmurSteps(s, n, MurmurStart(s, Seeded(seed)))
        decreases l
      {
        m := MurmurStep(s, i, m);
        i, l := i + 16, l - 16;
        n := n + 1;
      }
      assert n == (|s| - 1) / 16;
    }
    h := Words(MurmurFinish(m));
  }

  function Start128(s: Buffer, seed: Pair<Traced>): Mix
    requires |s| >= 128
  {
    var x, y, z := seed.first, seed.second, Length(s).Times(C1);
    var v1 := y.ExclusiveOr(C1).Rotated(49).Times(C1).Plus(Load64(s, 0));
    var v2 := v1.Rotated(42).Times(C1).Plus(Load64(s, 8));
    var w1 := y.Plus(z).Rotated(35).Times(C1).Plus(x);
    var w2 := x.Plus(Load64(s, 88)).Rotated(53).Times(C1);
    Mix(x, y, z, Pair(v1, v2), Pair(w1, w2))
  }

  function BeforeTail(m: Mix): Mix {
    m.(x := m.x.Plus(m.v.first.Plus(m.z).Rotated(49).Times(C0)), z := m.z.Plus(m.w.first.Rotated(37).Times(C0)))
  }

  /** One round on the 32 bytes that start `done` bytes before the end. */
  function TailStep(s: Buffer, done: nat, m: Mix): Mix
    requires 32 <= done <= |s|
  {
    var i := |s| - done;
    var y := m.x.Plus(m.y).Rotated(42).Times(C0).Plus(m.v.second);
    var w1 := m.w.first.Plus(Load64(s, i + 16));
    var x := m.x.Times(C0).Plus(w1);
    var z := m.z.Plus(m.w.second.Plus(Load64(s, i)));
    var w2 := m.w.second.Plus(m.v.first);
    var v := WeakHashLen32WithSeeds(s, i, m.v.first.Plus(z), m.v.second);
    Mix(x, y, z, v, Pair(w1, w2))
  }

  function TailSteps(s: Buffer, n: nat, m: Mix): Mix
    requires 32 * n <= |s|
  {
    if n == 0 then m else TailStep(s, 32 * n, TailSteps(s, n - 1, m))
  }

  function Finish128(m: Mix): Pair<Traced> {
    var x, y := HashLen16(m.x, m.v.first), HashLen16(m.y.Plus(m.z), m.w.first);
    Pair(HashLen16(x.Plus(m.v.second), m.w.second).Plus(y), HashLen16(x.Plus(m.w.second), y.Plus(m.v.second)))
  }

  /** `n` double rounds of 128 bytes, then `k` rounds on 32 bytes each from the end of the buffer. */
  function Rounds128(s: Buffer, seed: Pair<Word>, n: nat, k: nat): Pair<Traced>
    requires |s| >= 128 && 128 * n <= |s| && 32 * k <= |s|
  {
    Finish128(TailSteps(s, k, BeforeTail(Steps(s, n * 2, Start128(s, Seeded(seed))))))
  }

  /** CityHash128WithSeed with the simple loop of CityHash64: an even number of 64-byte rounds, then
      up to four 32-byte chunks taken from the end of the buffer. */
  function Hash128WithSeed(s: Buffer, seed: Pair<Word>): Pair<Traced> {
    if |s| < 128 then Murmur(s, seed) else Rounds128(s, seed, |s| / 128, (|s| % 128 + 31) / 32)
  }

  /** CityHash128WithSeed, its loop unrolled twice. A string of at least 128 bytes takes `n` rounds of
      that loop, which leave fewer than 128 bytes, and the fewest rounds `k` on 32 bytes for the rest. */
  method CityHash128WithSeed(s: Buffer, seed: Pair<Word>) returns (h: Pair<Word>, ghost n: nat, ghost k: nat)
    ensures h == Words(Hash128WithSeed(s, seed))
    ensures |s| >= 128 ==> 128 * n <= |s| < 128 * (n + 1) && 32 * k - 32 < |s| - 128 * n <= 32 * k <= |s| &&
                           h == Words(Rounds128(s, seed, n, k))
  {
    hide Start128, Finish128, Step, BeforeTail, TailStep, Murmur;
    n, k := 0, 0;
    if |s| < 128 {
      ghost var rounds;
      h, rounds := CityMurmur(s, seed);
      return;
    }
    var m := Start128(s, Seeded(seed));
    var i, len := 0, |s|;
    while len >= 128
      invariant i == 128 * n && len == |s| - i >= 0
      invariant m == Steps(s, 2 * n, Start128(s, Seeded(seed)))
      decreases len
    {
      m := Round(s, i, m);
      assert m == Steps(s, 2 * n + 1, Start128(s, Seeded(seed)));
      m := Round(s, i + 64, m);
      i, len := i + 128, len - 128;
      n := n + 1;
    }
    assert n == |s| / 128 && len == |s| % 128;
    m := BeforeTail(m);
    ghost var t := m;
    var done := 0;
    while done < len
      invariant done == 32 * k && done < len + 32 && done <= |s|
      invariant m == TailSteps(s, k, t)
      decreases len - done
    {
      done := done + 32;
      k := k + 1;
      m := TailStep(s, done, m);
    }
    assert k == (len + 31) / 32;
    h := Words(Finish128(m));
  }

  lemma MurmurStepSeen(s: Buffer, i: int, m: Four, p: int)
    requires 0 <= i && i + 16 <= |s|
    ensures p in MurmurStep(s, i, m).Seen() <==> p in m.Seen() || i <= p < i + 16
  {
    hide Mul, WordXor, ShiftMix, Fetch64, Positions;
  }

  lemma {:induction false} MurmurStepsSeen(s: Buffer, n: nat, m: Four, p: int)
    requires 16 * n <= |s|
    ensures p in MurmurSteps(s, n, m).Seen() <==> p in m.Seen() || 0 <= p < 16 * n
  {
    hide MurmurStep, Four.Seen;
    if n > 0 {
      var r := MurmurSteps(s, n - 1, m);
      assert MurmurSteps(s, n, m) == MurmurStep(s, 16 * (n - 1), r);
      MurmurStepsSeen(s, n - 1, m, p);
      hide MurmurSteps;
      MurmurStepSeen(s, 16 * (n - 1), r, p);
    }
  }

  lemma MurmurStartSeen(s: Buffer, seed: Pair<Word>, p: int)
    ensures p in MurmurStart(s, Seeded(seed)).Seen() <==> -2 <= p < 0 || (0 <= p < |s| && |s| - 16 <= p)
  {
    hide Add, Mul, ShiftMix, HashWords, Fetch64, HashLen0to16, Positions;
    if |s| <= 16 {
      ShortSeen(s, p);
    }
  }

  lemma MurmurFinishSeen(m: Four, p: int)
    ensures p in MurmurFinish(m).first.at <==> p in m.Seen()
    ensures p in MurmurFinish(m).second.at <==> p in m.Seen()
  {
    hide WordXor, HashWords;
  }

  lemma TailStepSeen(s: Buffer, done: nat, m: Mix, p: int)
    requires 32 <= done <= |s|
    ensures p in TailStep(s, done, m).Seen() <==> p in m.Seen() || |s| - done <= p < |s| - done + 32
  {
    hide Add, Mul, Rotate, Fetch64, WeakHashLen32WithSeeds, Positions;
    var i := |s| - done;
    WeakSeen(s, i, m.v.first.Plus(m.z.Plus(m.w.second.Plus(Load64(s, i)))), m.v.second, p);
  }

  lemma {:induction false} TailStepsSeen(s: Buffer, n: nat, m: Mix, p: int)
    requires 32 * n <= |s|
    ensures p in TailSteps(s, n, m).Seen() <==> p in m.Seen() || |s| - 32 * n <= p < |s|
  {
    hide TailStep, Mix.Seen;
    if n > 0 {
      var r := TailSteps(s, n - 1, m);
      assert TailSteps(s, n, m) == TailStep(s, 32 * n, r);
      TailStepsSeen(s, n - 1, m, p);
      hide TailSteps;
      TailStepSeen(s, 32 * n, r, p);
    }
  }

  lemma Start128Seen(s: Buffer, seed: Pair<Word>, p: int)
    requires |s| >= 128
    ensures p in Start128(s, Seeded(seed)).Seen() <==> -2 <= p < 16 || 88 <= p < 96
  {
    hide Add, Mul, WordXor, Rotate, Fetch64, Positions;
  }

  lemma BeforeTailSeen(m: Mix, p: int)
    ensures p in BeforeTail(m).Seen() <==> p in m.Seen()
  {
    hide Add, Mul, Rotate;
  }

  lemma Finish128Seen(m: Mix, p: int)
    ensures p in Finish128(m).first.at <==> p in m.Seen()
    ensures p in Finish128(m).second.at <==> p in m.Seen()
  {
    hide Add, HashWords;
  }

  lemma MurmurSees(s: Buffer, seed: Pair<Word>, p: int)
    ensures p in Murmur(s, seed).first.at <==> -2 <= p < |s|
    ensures p in Murmur(s, seed).second.at <==> -2 <= p < |s|
  {
    hide MurmurStart, MurmurFinish, MurmurSteps, Four.Seen;
    var m, n := MurmurStart(s, Seeded(seed)), (|s| - 1) / 16;
    MurmurStartSeen(s, seed, p);
    if |s| <= 16 {
      MurmurFinishSeen(m, p);
    } else {
      MurmurStepsSeen(s, n, m, p);
      MurmurFinishSeen(MurmurSteps(s, n, m), p);
    }
  }

  lemma Hash128Sees(s: Buffer, seed: Pair<Word>, p: int)
    ensures p in Hash128WithSeed(s, seed).first.at <==> -2 <= p < |s|
    ensures p in Hash128WithSeed(s, seed).second.at <==> -2 <= p < |s|
  {
    hide Murmur, Start128, Finish128, Steps, BeforeTail, TailSteps, Mix.Seen;
    if |s| < 128 {
      MurmurSees(s, seed, p);
    } else {
      var n, k := |s| / 128, (|s| % 128 + 31) / 32;
      var m := Start128(s, Seeded(seed));
      var t := BeforeTail(Steps(s, n * 2, m));
      Start128Seen(s, seed, p);
      StepsSeen(s, n * 2, m, p);
      BeforeTailSeen(Steps(s, n * 2, m), p);
      TailStepsSeen(s, k, t, p);
      Finish128Seen(TailSteps(s, k, t), p);
    }
  }

  /** Both words of CityHash128WithSeed are computed from the whole seed and every byte of the
      string, whatever its length. */
  lemma Hash128Covers(s: Buffer, seed: Pair<Word>)
    ensures Hash128WithSeed(s, seed).first.at == Positions(-2, |s|) == Hash128WithSeed(s, seed).second.at
  {
    hide Hash128WithSeed, Positions;
    forall p
      ensures p in Hash128WithSeed(s, seed).first.at <==> p in Positions(-2, |s|)
      ensures p in Hash128WithSeed(s, seed).second.at <==> p in Positions(-2, |s|)
    {
      Hash128Sees(s, seed, p);
    }
  }

  // ---------- What CityHash128 is seeded with ----------

  /** The bytes that CityHash128 sends through the rounds, and the seed it makes of the others. */
  datatype Seeding = Seeding(rest: Buffer, seed: Pair<Word>)

  function SeedingOf(s: Buffer): Seeding {
    if |s| >= 16 then Seeding(s[16..], Pair(WordXor(Fetch64(s, 0), K3), Fetch64(s, 8)))
    else if |s| >= 8 then
      Seeding([], Pair(WordXor(Fetch64(s, 0), Mul(|s|, K0)), WordXor(Fetch64(s, |s| - 8), K1)))
    else Seeding(s, Pair(K0, K1))
  }

  /** CityHash128: the seed comes from the first bytes. */
  method CityHash128(s: Buffer) returns (h: Pair<Word>)
    ensures h == Words(Hash128WithSeed(SeedingOf(s).rest, SeedingOf(s).seed))
  {
    hide Hash128WithSeed;
    ghost var n, k;
    if |s| >= 16 {
      h, n, k := CityHash128WithSeed(s[16..], Pair(WordXor(Fetch64(s, 0), K3), Fetch64(s, 8)));
    } else if |s| >= 8 {
      h, n, k := CityHash128WithSeed([], Pair(WordXor(Fetch64(s, 0), Mul(|s|, K0)), WordXor(Fetch64(s, |s| - 8), K1)));
    } else {
      h, n, k := CityHash128WithSeed(s, Pair(K0, K1));
    }
  }

  lemma XorSame(a: Word, b: Word, c: Word)
    requires WordXor(a, c) == WordXor(b, c)
    ensures a == b
  {
    XorCancel(a, c);
    XorCancel(b, c);
  }

  /** Nothing is lost before the rounds: of strings of one length, no two have the same rest and
      the same seed. */
  lemma SeedingLossless(s: Buffer, t: Buffer)
    requires |s| == |t| && SeedingOf(s) == SeedingOf(t)
    ensures s == t
  {
    hide WordXor, Fetch64, Mul;
    if |s| >= 16 {
      XorSame(Fetch64(s, 0), Fetch64(t, 0), K3);
      Fetch64Bytes(s, 0, t, 0);
      Fetch64Bytes(s, 8, t, 8);
      assert s == s[0..8] + s[8..16] + s[16..] && t == t[0..8] + t[8..16] + t[16..];
    } else if |s| >= 8 {
      var n := |s| - 8;
      XorSame(Fetch64(s, 0), Fetch64(t, 0), Mul(|s|, K0));
      XorSame(Fetch64(s, n), Fetch64(t, n), K1);
      Fetch64Bytes(s, 0, t, 0);
      Fetch64Bytes(s, n, t, n);
      assert s == s[0..8] + s[n..][16 - |s|..] && t == t[0..8] + t[n..][16 - |s|..];
      assert s[n..] == s[n..n + 8] && t[n..] == t[n..n + 8];
    }
  }
}
