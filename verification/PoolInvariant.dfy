/** Buckets of fifteen slots, chained through byte offsets into a pool of spare buckets, and the
    invariant that ties the raw arrays to one slot sequence per main bucket. */
module PoolInvariant {
  import opened Arithmetic

  const BUCKET_ENTRIES := 15
  const BUCKET_BYTES := 128

  /** An index entry: tag 0 means empty. */
  datatype Slot = Slot(tag: nat, offset: nat)

  const EMPTY := Slot(0, 0)

  /** A bucket's worth of empty slots. */
  function NoSlots(): (s: seq<Slot>)
    ensures |s| == BUCKET_ENTRIES && forall j | 0 <= j < |s| :: s[j] == EMPTY
  {
    seq(BUCKET_ENTRIES, _ => EMPTY)
  }

  /** The pool's memory: per bucket a version, the byte offset of the next bucket (0 for none) and
      fifteen entries; and its reading: per main bucket the buckets of its chain and their slots in
      order, and the number of spares in use. */
  datatype Pool = Pool(version: seq<nat>, next: seq<nat>, entries: seq<Slot>,
                       chains: seq<seq<nat>>, slots: seq<seq<Slot>>, claimed: nat)

  /** Slot `i` of the `k`-th bucket of chain `m`. */
  ghost predicate SlotOk(p: Pool, m: nat, k: nat, i: nat) {
    && m < |p.chains| == |p.slots| && k < |p.chains[m]| && i < BUCKET_ENTRIES
    && |p.slots[m]| == BUCKET_ENTRIES * |p.chains[m]|
    && BUCKET_ENTRIES * p.chains[m][k] + i < |p.entries|
    && BUCKET_ENTRIES * k + i < |p.slots[m]|
    && p.slots[m][BUCKET_ENTRIES * k + i] == p.entries[BUCKET_ENTRIES * p.chains[m][k] + i]
  }

  /** The `k`-th bucket of chain `m`: the main bucket first, then claimed spares at increasing
      addresses, each pointing to the next. */
  ghost predicate LinkOk(p: Pool, m: nat, k: nat) {
    && m < |p.chains| && k < |p.chains[m]|
    && var b := p.chains[m][k];
    && b < |p.next| && (if k == 0 then b == m else |p.chains| <= b < |p.chains| + p.claimed)
    && (if k + 1 < |p.chains[m]| then b < p.chains[m][k + 1] && p.next[b] == BUCKET_BYTES * (p.chains[m][k + 1] - b)
        else p.next[b] == 0)
  }

  ghost predicate ChainOk(p: Pool, m: nat) {
    m < |p.chains| == |p.slots| && p.chains[m] != [] && |p.slots[m]| == BUCKET_ENTRIES * |p.chains[m]|
  }

  /** A spare is unclaimed, and then untouched, or claimed, and then marked by its version. */
  ghost predicate SpareOk(p: Pool, b: nat) {
    && b < |p.next| == |p.version| && |p.entries| == BUCKET_ENTRIES * |p.next|
    && (p.version[b] == 0 <==> b >= |p.chains| + p.claimed)
    && (b >= |p.chains| + p.claimed ==>
          p.next[b] == 0 && p.entries[BUCKET_ENTRIES * b..BUCKET_ENTRIES * b + BUCKET_ENTRIES] == NoSlots())
  }

  /** No bucket is on two chains, or twice on one. */
  ghost predicate Apart(p: Pool, m: nat, k: nat, n: nat, l: nat) {
    m < |p.chains| && k < |p.chains[m]| && n < |p.chains| && l < |p.chains[n]| &&
    (p.chains[m][k] == p.chains[n][l] ==> m == n && k == l)
  }

  /** Empty slots have no offset. */
  ghost predicate Clean(s: seq<Slot>) {
    forall j | 0 <= j < |s| && s[j].tag == 0 :: s[j] == EMPTY
  }

  ghost predicate Inv(p: Pool) {
    && 0 < |p.chains| == |p.slots| && |p.version| == |p.next| && |p.entries| == BUCKET_ENTRIES * |p.next|
    && |p.chains| + p.claimed <= |p.next|
    && (forall m {:trigger ChainOk(p, m)} | 0 <= m < |p.chains| :: ChainOk(p, m))
    && (forall m {:trigger Clean(p.slots[m])} | 0 <= m < |p.chains| :: Clean(p.slots[m]))
    && (forall m, k {:trigger LinkOk(p, m, k)} | 0 <= m < |p.chains| && 0 <= k < |p.chains[m]| :: LinkOk(p, m, k))
    && (forall m, k, i {:trigger SlotOk(p, m, k, i)} |
          0 <= m < |p.chains| && 0 <= k < |p.chains[m]| && 0 <= i < BUCKET_ENTRIES :: SlotOk(p, m, k, i))
    && (forall b {:trigger SpareOk(p, b)} | |p.chains| <= b < |p.next| :: SpareOk(p, b))
    && (forall m, k, n, l {:trigger Apart(p, m, k, n, l)} |
          0 <= m < |p.chains| && 0 <= k < |p.chains[m]| && 0 <= n < |p.chains| && 0 <= l < |p.chains[n]| :: Apart(p, m, k, n, l))
  }

  /** One slot of one chain overwritten. */
  ghost function Stored(p: Pool, m: nat, k: nat, i: nat, x: Slot): Pool
    requires SlotOk(p, m, k, i)
  {
    p.(entries := p.entries[BUCKET_ENTRIES * p.chains[m][k] + i := x],
       slots := p.slots[m := p.slots[m][BUCKET_ENTRIES * k + i := x]])
  }

  lemma StoreStep(p: Pool, m: nat, k: nat, i: nat, x: Slot)
    requires Inv(p) && m < |p.chains| && k < |p.chains[m]| && i < BUCKET_ENTRIES && (x.tag == 0 ==> x == EMPTY)
    ensures SlotOk(p, m, k, i) && Inv(Stored(p, m, k, i, x))
  {
    assert SlotOk(p, m, k, i) && LinkOk(p, m, k);
    var p' := Stored(p, m, k, i, x);
    forall n {:trigger ChainOk(p', n)} | 0 <= n < |p'.chains| ensures ChainOk(p', n) {
      assert ChainOk(p, n);
    }
    forall n {:trigger Clean(p'.slots[n])} | 0 <= n < |p'.chains| ensures Clean(p'.slots[n]) {
      assert Clean(p.slots[n]);
    }
    forall n, l {:trigger LinkOk(p', n, l)} | 0 <= n < |p'.chains| && 0 <= l < |p'.chains[n]| ensures LinkOk(p', n, l) {
      assert LinkOk(p, n, l);
    }
    forall n, l, j {:trigger SlotOk(p', n, l, j)} | 0 <= n < |p'.chains| && 0 <= l < |p'.chains[n]| && 0 <= j < BUCKET_ENTRIES
      ensures SlotOk(p', n, l, j)
    {
      assert SlotOk(p, n, l, j) && Apart(p, m, k, n, l);
    }
    forall b {:trigger SpareOk(p', b)} | |p'.chains| <= b < |p'.next| ensures SpareOk(p', b) {
      assert SpareOk(p, b);
    }
    forall a, b, c, d {:trigger Apart(p', a, b, c, d)} |
      0 <= a < |p'.chains| && 0 <= b < |p'.chains[a]| && 0 <= c < |p'.chains| && 0 <= d < |p'.chains[c]|
      ensures Apart(p', a, b, c, d)
    {
      assert Apart(p, a, b, c, d);
    }
  }

  /** The lowest unclaimed spare is claimed and linked at the end of chain `m`. */
  ghost function Extended(p: Pool, m: nat): Pool
    requires Inv(p) && m < |p.chains| && |p.chains| + p.claimed < |p.next|
  {
    assert ChainOk(p, m) && LinkOk(p, m, |p.chains[m]| - 1);
    var last, spare := p.chains[m][|p.chains[m]| - 1], |p.chains| + p.claimed;
    p.(version := p.version[spare := 2],
       next := p.next[last := BUCKET_BYTES * (spare - last)],
       chains := p.chains[m := p.chains[m] + [spare]],
       slots := p.slots[m := p.slots[m] + NoSlots()],
       claimed := p.claimed + 1)
  }

  lemma ExtendStep(p: Pool, m: nat)
    requires Inv(p) && m < |p.chains| && |p.chains| + p.claimed < |p.next|
    ensures Inv(Extended(p, m))
  {
    var p' := Extended(p, m);
    var e := |p.chains[m]|;
    assert ChainOk(p, m) && LinkOk(p, m, e - 1);
    forall n {:trigger ChainOk(p', n)} | 0 <= n < |p'.chains| ensures ChainOk(p', n) {
      assert ChainOk(p, n);
    }
    forall n {:trigger Clean(p'.slots[n])} | 0 <= n < |p'.chains| ensures Clean(p'.slots[n]) {
      assert Clean(p.slots[n]);
    }
    forall n, l {:trigger LinkOk(p', n, l)} | 0 <= n < |p'.chains| && 0 <= l < |p'.chains[n]| ensures LinkOk(p', n, l) {
      ExtendLink(p, m, n, l);
    }
    forall n, l, j {:trigger SlotOk(p', n, l, j)} | 0 <= n < |p'.chains| && 0 <= l < |p'.chains[n]| && 0 <= j < BUCKET_ENTRIES
      ensures SlotOk(p', n, l, j)
    {
      ExtendSlot(p, m, n, l, j);
    }
    forall b {:trigger SpareOk(p', b)} | |p'.chains| <= b < |p'.next| ensures SpareOk(p', b) {
      assert SpareOk(p, b);
    }
    forall a, b, c, d {:trigger Apart(p', a, b, c, d)} |
      0 <= a < |p'.chains| && 0 <= b < |p'.chains[a]| && 0 <= c < |p'.chains| && 0 <= d < |p'.chains[c]|
      ensures Apart(p', a, b, c, d)
    {
      if b < |p.chains[a]| { assert LinkOk(p, a, b); }
      if d < |p.chains[c]| { assert LinkOk(p, c, d); }
      if b < |p.chains[a]| && d < |p.chains[c]| { assert Apart(p, a, b, c, d); }
    }
  }

  lemma ExtendLink(p: Pool, m: nat, n: nat, l: nat)
    requires Inv(p) && m < |p.chains| && |p.chains| + p.claimed < |p.next|
    requires n < |p.chains| && l < |Extended(p, m).chains[n]|
    ensures LinkOk(Extended(p, m), n, l)
  {
    var e := |p.chains[m]|;
    assert ChainOk(p, m) && ChainOk(p, n) && LinkOk(p, m, e - 1) && SpareOk(p, |p.chains| + p.claimed);
    if l < |p.chains[n]| {
      assert LinkOk(p, n, l) && Apart(p, m, e - 1, n, l);
    }
  }

  lemma ExtendSlot(p: Pool, m: nat, n: nat, l: nat, j: nat)
    requires Inv(p) && m < |p.chains| && |p.chains| + p.claimed < |p.next|
    requires n < |p.chains| && l < |Extended(p, m).chains[n]| && j < BUCKET_ENTRIES
    ensures SlotOk(Extended(p, m), n, l, j)
  {
    assert ChainOk(p, m) && ChainOk(p, n) && SpareOk(p, |p.chains| + p.claimed);
    if l < |p.chains[n]| {
      assert SlotOk(p, n, l, j);
    }
  }

  /** Zeroed memory is an index of empty chains. */
  lemma FreshInv(p: Pool)
    requires 0 < |p.chains| == |p.slots| <= |p.next| == |p.version| && p.claimed == 0
    requires |p.entries| == BUCKET_ENTRIES * |p.next|
    requires forall m | 0 <= m < |p.chains| :: p.chains[m] == [m] && p.slots[m] == NoSlots()
    requires forall b | 0 <= b < |p.next| :: p.next[b] == p.version[b] == 0
    requires forall i | 0 <= i < |p.entries| :: p.entries[i] == EMPTY
    ensures Inv(p)
  {
    forall m, k {:trigger LinkOk(p, m, k)} | 0 <= m < |p.chains| && 0 <= k < |p.chains[m]| ensures LinkOk(p, m, k) {
      assert p.chains[m] == [m];
    }
    forall m, k, i {:trigger SlotOk(p, m, k, i)} | 0 <= m < |p.chains| && 0 <= k < |p.chains[m]| && 0 <= i < BUCKET_ENTRIES
      ensures SlotOk(p, m, k, i)
    {
      assert p.chains[m] == [m] && p.slots[m] == NoSlots();
    }
    forall m, k, n, l {:trigger Apart(p, m, k, n, l)} |
      0 <= m < |p.chains| && 0 <= k < |p.chains[m]| && 0 <= n < |p.chains| && 0 <= l < |p.chains[n]|
      ensures Apart(p, m, k, n, l)
    {
      assert p.chains[m] == [m] && p.chains[n] == [n];
    }
  }

  /** The main buckets' versions are free to change. */
  lemma VersionInv(p: Pool, version: seq<nat>)
    requires Inv(p) && |version| == |p.version|
    requires forall b | |p.chains| <= b < |version| :: version[b] == p.version[b]
    ensures Inv(p.(version := version))
  {
    var p' := p.(version := version);
    forall m {:trigger ChainOk(p', m)} | 0 <= m < |p'.chains| ensures ChainOk(p', m) {
      assert ChainOk(p, m);
    }
    forall m {:trigger Clean(p'.slots[m])} | 0 <= m < |p'.chains| ensures Clean(p'.slots[m]) {
      assert Clean(p.slots[m]);
    }
    forall m, k {:trigger LinkOk(p', m, k)} | 0 <= m < |p'.chains| && 0 <= k < |p'.chains[m]| ensures LinkOk(p', m, k) {
      assert LinkOk(p, m, k);
    }
    forall m, k, i {:trigger SlotOk(p', m, k, i)} | 0 <= m < |p'.chains| && 0 <= k < |p'.chains[m]| && 0 <= i < BUCKET_ENTRIES
      ensures SlotOk(p', m, k, i)
    {
      assert SlotOk(p, m, k, i);
    }
    forall b {:trigger SpareOk(p', b)} | |p'.chains| <= b < |p'.next| ensures SpareOk(p', b) {
      assert SpareOk(p, b);
    }
    forall m, k, n, l {:trigger Apart(p', m, k, n, l)} |
      0 <= m < |p'.chains| && 0 <= k < |p'.chains[m]| && 0 <= n < |p'.chains| && 0 <= l < |p'.chains[n]|
      ensures Apart(p', m, k, n, l)
    {
      assert Apart(p, m, k, n, l);
    }
  }

  /** Along a chain the buckets' addresses increase, and only the first is a main bucket. */
  lemma {:induction false} ChainIncreases(p: Pool, m: nat, k: nat, l: nat)
    requires Inv(p) && m < |p.chains| && k < l < |p.chains[m]|
    ensures p.chains[m][k] < p.chains[m][l] < |p.next| && p.chains[m][l] >= |p.chains|
    decreases l - k
  {
    assert LinkOk(p, m, k) && LinkOk(p, m, l);
    if k + 1 < l {
      ChainIncreases(p, m, k + 1, l);
    }
  }

  /** The offset stored in a bucket is positive, fits 32 bits and leads to the next bucket of its
      chain, which is on no other chain. */
  lemma OffsetLeadsOn(p: Pool, m: nat, k: nat)
    requires Inv(p) && m < |p.chains| && k + 1 < |p.chains[m]| && BUCKET_BYTES * |p.next| < MAX_UINT32
    ensures var b := p.chains[m][k];
      && b < |p.next| && 0 < p.next[b] < MAX_UINT32
      && BUCKET_BYTES * b + p.next[b] == BUCKET_BYTES * p.chains[m][k + 1]
    ensures forall n, l {:trigger p.chains[n][l]} | 0 <= n < |p.chains| && 0 <= l < |p.chains[n]| && p.chains[n][l] == p.chains[m][k + 1] ::
              n == m && l == k + 1
  {
    assert LinkOk(p, m, k) && LinkOk(p, m, k + 1);
    forall n, l {:trigger p.chains[n][l]} | 0 <= n < |p.chains| && 0 <= l < |p.chains[n]| && p.chains[n][l] == p.chains[m][k + 1]
      ensures n == m && l == k + 1
    {
      assert Apart(p, n, l, m, k + 1);
    }
  }
}
