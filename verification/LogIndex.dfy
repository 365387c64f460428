/** How the index, the heap and the table they implement agree. */
module LogIndex {
  import opened Blocks
  import opened HeapInvariant
  import opened PoolInvariant
  import opened BucketPool
  import opened LogEntry

  type Hash = Key -> nat

  /** A log: its heap, the slots of every chain, the byte offset of the region in the partition,
      the block of every key, the table implemented, and the used blocks no key owns. */
  datatype Log = Log(v: HeapState, slots: seq<seq<Slot>>, base: nat,
                     dir: map<Key, nat>, table: map<Key, Entry>, leaked: set<nat>)

  /** The offset stored in the index for the block at `s`: that of its payload. */
  function OffsetOf(base: nat, s: nat): nat {
    base + 8 * (s + 1)
  }

  ghost function SlotOf(l: Log, hash: Hash, key: Key): Slot
    requires key in l.dir
  {
    Slot(TagOf(hash(key)), OffsetOf(l.base, l.dir[key]))
  }

  ghost function ChainOf(l: Log, hash: Hash, key: Key): (m: nat)
    requires |l.slots| > 0
    ensures m < |l.slots|
  {
    BucketOf(hash(key), |l.slots|)
  }

  /** The key's block is used and holds its entry, and the key's chain has its slot. */
  ghost predicate KeyOk(l: Log, hash: Hash, key: Key) {
    && key in l.dir && key in l.table && l.table[key].key == key && |l.slots| > 0
    && var s := l.dir[key];
    && s in l.v.b && l.v.b[s].used && s + l.v.b[s].size <= |l.v.w|
    && HEADER_WORDS + DataWords(|l.table[key].Data()|) + 2 <= l.v.b[s].size
    && Holds(l.v.w, s + 1, l.table[key], hash(key))
    && SlotOf(l, hash, key) in l.slots[ChainOf(l, hash, key)]
  }

  /** The slot `x` of chain `m` is the slot of `key`. */
  ghost predicate Names(l: Log, hash: Hash, m: nat, x: Slot, key: Key) {
    key in l.dir && |l.slots| > 0 && ChainOf(l, hash, key) == m && x == SlotOf(l, hash, key)
  }

  /** Entry `x` of chain `m` belongs to some key. */
  ghost predicate Named(l: Log, hash: Hash, m: nat, x: Slot) {
    exists key :: Names(l, hash, m, x, key)
  }

  /** No two slots in use are equal. */
  ghost predicate Unique(s: seq<Slot>) {
    forall i, j | 0 <= i < j < |s| && s[i].tag != 0 :: s[i] != s[j]
  }

  ghost predicate Consistent(l: Log, hash: Hash) {
    && |l.slots| > 0
    && l.dir.Keys == l.table.Keys
    && (forall key {:trigger KeyOk(l, hash, key)} | key in l.dir :: KeyOk(l, hash, key))
    && (forall j, k {:trigger l.dir[j], l.dir[k]} | j in l.dir && k in l.dir && l.dir[j] == l.dir[k] :: j == k)
    && (forall m, x {:trigger Named(l, hash, m, x)} | 0 <= m < |l.slots| && x in l.slots[m] && x.tag != 0 :: Named(l, hash, m, x))
    && (forall m {:trigger Unique(l.slots[m])} | 0 <= m < |l.slots| :: Unique(l.slots[m]))
    && Used(l.v.b).Keys == l.dir.Values + l.leaked && l.dir.Values !! l.leaked
  }

  lemma FreshConsistent(l: Log, hash: Hash)
    requires |l.slots| > 0 && forall m | 0 <= m < |l.slots| :: l.slots[m] == NoSlots()
    requires l.dir == map[] && l.table == map[] && l.leaked == {} && Used(l.v.b) == map[]
    ensures Consistent(l, hash)
  {
    forall m {:trigger Unique(l.slots[m])} | 0 <= m < |l.slots| ensures Unique(l.slots[m]) {
      assert l.slots[m] == NoSlots();
    }
    forall m, x {:trigger Named(l, hash, m, x)} | 0 <= m < |l.slots| && x in l.slots[m] ensures x.tag == 0 {
      assert l.slots[m] == NoSlots();
    }
  }

  /** The heap may change where no key's block is. */
  lemma HeapStep(l: Log, hash: Hash, v: HeapState, leaked: set<nat>, x: int)
    requires Consistent(l, hash) && Tiling(|v.w|, v.b)
    requires KeepsUsed(l.v, v, x) && (x < 0 || x !in l.dir.Values)
    requires Used(v.b).Keys == l.dir.Values + leaked && l.dir.Values !! leaked
    ensures Consistent(l.(v := v, leaked := leaked), hash)
  {
    var l' := l.(v := v, leaked := leaked);
    forall key {:trigger KeyOk(l', hash, key)} | key in l'.dir ensures KeyOk(l', hash, key) {
      assert KeyOk(l, hash, key);
      assert l.dir[key] in l.dir.Values;
      assert KeepsBlock(l.v, v, l.dir[key]);
      KeyMoves(l, hash, v, leaked, key);
    }
    NamedKept(l, l', hash);
  }

  lemma KeyMoves(l: Log, hash: Hash, v: HeapState, leaked: set<nat>, key: Key)
    requires KeyOk(l, hash, key) && KeepsBlock(l.v, v, l.dir[key])
    ensures KeyOk(l.(v := v, leaked := leaked), hash, key)
  {
    var s := l.dir[key];
    HoldsKept(l.v.w, v.w, s + 1, l.v.b[s].size - 2, l.table[key], hash(key));
  }

  /** Freeing an unowned block takes it from the used ones. */
  lemma FreedKeys(l: Log, hash: Hash, v: HeapState, s: nat)
    requires Consistent(l, hash) && s in l.leaked && Used(v.b) == Used(l.v.b) - {s}
    ensures s !in l.dir.Values && Used(v.b).Keys == l.dir.Values + (l.leaked - {s}) && l.dir.Values !! l.leaked - {s}
  {}

  lemma UsedSplit(l: Log, hash: Hash)
    requires Consistent(l, hash)
    ensures Used(l.v.b).Keys == l.dir.Values + l.leaked && l.dir.Values !! l.leaked
  {}

  /** A new block belongs to no key. */
  lemma AllocatedKeys(l: Log, hash: Hash, v: HeapState, s: nat, k: nat)
    requires Consistent(l, hash) && s !in Used(l.v.b) && Used(v.b) == Used(l.v.b)[s := k]
    ensures s !in l.leaked
    ensures Used(v.b).Keys == l.dir.Values + (l.leaked + {s}) && l.dir.Values !! l.leaked + {s}
  {}

  lemma NamedKept(l: Log, l': Log, hash: Hash)
    requires Consistent(l, hash) && l'.slots == l.slots && l'.dir == l.dir && l'.base == l.base
    ensures forall m, x {:trigger Named(l', hash, m, x)} | 0 <= m < |l'.slots| && x in l'.slots[m] && x.tag != 0 :: Named(l', hash, m, x)
    ensures forall m {:trigger Unique(l'.slots[m])} | 0 <= m < |l'.slots| :: Unique(l'.slots[m])
  {
    forall m, x {:trigger Named(l', hash, m, x)} | 0 <= m < |l'.slots| && x in l'.slots[m] && x.tag != 0 ensures Named(l', hash, m, x) {
      assert Named(l, hash, m, x);
      var key :| Names(l, hash, m, x, key);
      assert Names(l', hash, m, x, key);
    }
    forall m {:trigger Unique(l'.slots[m])} | 0 <= m < |l'.slots| ensures Unique(l'.slots[m]) {
      assert Unique(l.slots[m]);
    }
  }

  // ---------- Taking a key out ----------

  /** The slot of `key` is cleared; its block is used but nobody's now. */
  ghost function Dropped(l: Log, hash: Hash, key: Key, j: nat): Log
    requires key in l.dir && |l.slots| > 0 && j < |l.slots[ChainOf(l, hash, key)]|
  {
    var m := ChainOf(l, hash, key);
    l.(slots := l.slots[m := l.slots[m][j := EMPTY]], dir := l.dir - {key}, table := l.table - {key},
       leaked := l.leaked + {l.dir[key]})
  }

  lemma DropStep(l: Log, hash: Hash, key: Key, j: nat)
    requires Consistent(l, hash) && key in l.dir
    requires j < |l.slots[ChainOf(l, hash, key)]| && l.slots[ChainOf(l, hash, key)][j] == SlotOf(l, hash, key)
    ensures Consistent(Dropped(l, hash, key, j), hash)
  {
    var l' := Dropped(l, hash, key, j);
    assert KeyOk(l, hash, key);
    forall k {:trigger KeyOk(l', hash, k)} | k in l'.dir ensures KeyOk(l', hash, k) {
      DropKey(l, hash, key, j, k);
    }
    forall m, x {:trigger Named(l', hash, m, x)} | 0 <= m < |l'.slots| && x in l'.slots[m] && x.tag != 0 ensures Named(l', hash, m, x) {
      DropName(l, hash, key, j, m, x);
    }
    forall m {:trigger Unique(l'.slots[m])} | 0 <= m < |l'.slots| ensures Unique(l'.slots[m]) {
      assert Unique(l.slots[m]);
    }
    DropValues(l.dir, key);
  }

  lemma DropValues(d: map<Key, nat>, key: Key)
    requires key in d && forall j, k | j in d && k in d && d[j] == d[k] :: j == k
    ensures (d - {key}).Values == d.Values - {d[key]}
  {
    var d' := d - {key};
    forall s | s in d.Values - {d[key]} ensures s in d'.Values {
      var k :| k in d && d[k] == s;
      assert k in d' && d'[k] == s;
    }
    forall s | s in d'.Values ensures s in d.Values - {d[key]} {
      var k :| k in d' && d'[k] == s;
      assert k in d && d[k] == s;
    }
  }

  lemma DropKey(l: Log, hash: Hash, key: Key, j: nat, k: Key)
    requires Consistent(l, hash) && key in l.dir && k in l.dir && k != key
    requires j < |l.slots[ChainOf(l, hash, key)]| && l.slots[ChainOf(l, hash, key)][j] == SlotOf(l, hash, key)
    ensures KeyOk(Dropped(l, hash, key, j), hash, k)
  {
    assert KeyOk(l, hash, k);
    var m := ChainOf(l, hash, k);
    var x := SlotOf(l, hash, k);
    var i :| 0 <= i < |l.slots[m]| && l.slots[m][i] == x;
    assert l.dir[k] != l.dir[key];
    assert Dropped(l, hash, key, j).slots[m][i] == x;
  }

  lemma DropName(l: Log, hash: Hash, key: Key, j: nat, m: nat, x: Slot)
    requires Consistent(l, hash) && key in l.dir
    requires j < |l.slots[ChainOf(l, hash, key)]| && l.slots[ChainOf(l, hash, key)][j] == SlotOf(l, hash, key)
    requires m < |l.slots| && x in Dropped(l, hash, key, j).slots[m] && x.tag != 0
    ensures Named(Dropped(l, hash, key, j), hash, m, x)
  {
    var l' := Dropped(l, hash, key, j);
    var i :| 0 <= i < |l'.slots[m]| && l'.slots[m][i] == x;
    assert l.slots[m][i] == x;
    assert Named(l, hash, m, x);
    var k :| Names(l, hash, m, x, k);
    assert Unique(l.slots[m]);
    assert k != key;
    assert Names(l', hash, m, x, k);
  }

  // ---------- Bringing a key in ----------

  /** The key's slot is placed in its chain and the block at `s` becomes the key's. */
  ghost function Adopted(l: Log, hash: Hash, e: Entry, s: nat, room: bool): Log
    requires |l.slots| > 0
  {
    var m := ChainOf(l, hash, e.key);
    l.(slots := l.slots[m := Placed(l.slots[m], Slot(TagOf(hash(e.key)), OffsetOf(l.base, s)), room)],
       dir := l.dir[e.key := s], table := l.table[e.key := e], leaked := l.leaked - {s})
  }

  /** Placing writes one slot, or appends a bucket with one slot used. */
  lemma PlacedFacts(s: seq<Slot>, x: Slot, room: bool)
    requires x.tag != 0 && Unique(s) && x !in s && (room || First(s, IsEmpty, 0) < |s|)
    ensures x in Placed(s, x, room) && Unique(Placed(s, x, room))
    ensures forall y | y in s && y.tag != 0 :: y in Placed(s, x, room)
    ensures forall y | y in Placed(s, x, room) && y.tag != 0 :: y in s || y == x
  {
    var p, j := Placed(s, x, room), First(s, IsEmpty, 0);
    assert p[j] == x;
    forall y | y in s && y.tag != 0 ensures y in p {
      var i :| 0 <= i < |s| && s[i] == y;
      assert p[i] == y;
    }
  }

  lemma AdoptStep(l: Log, hash: Hash, e: Entry, s: nat, room: bool)
    requires Consistent(l, hash) && e.key !in l.dir && s in l.leaked
    requires s in l.v.b && s + l.v.b[s].size <= |l.v.w| && HEADER_WORDS + DataWords(|e.Data()|) + 2 <= l.v.b[s].size
    requires Holds(l.v.w, s + 1, e, hash(e.key))
    requires room || First(l.slots[ChainOf(l, hash, e.key)], IsEmpty, 0) < |l.slots[ChainOf(l, hash, e.key)]|
    ensures Consistent(Adopted(l, hash, e, s, room), hash)
  {
    hide Placed, Tiling, Holds, First, BucketOf, TagOf;
    var l' := Adopted(l, hash, e, s, room);
    var m, x := ChainOf(l, hash, e.key), Slot(TagOf(hash(e.key)), OffsetOf(l.base, s));
    NotPlaced(l, hash, m, x, s);
    assert Unique(l.slots[m]);
    PlacedFacts(l.slots[m], x, room);
    forall k {:trigger KeyOk(l', hash, k)} | k in l'.dir ensures KeyOk(l', hash, k) {
      AdoptKey(l, hash, e, s, room, k);
    }
    hide KeyOk, Used;
    forall n, y {:trigger Named(l', hash, n, y)} | 0 <= n < |l'.slots| && y in l'.slots[n] && y.tag != 0 ensures Named(l', hash, n, y) {
      AdoptName(l, hash, e, s, room, n, y);
    }
    forall n {:trigger Unique(l'.slots[n])} | 0 <= n < |l'.slots| ensures Unique(l'.slots[n]) {
      assert Unique(l.slots[n]);
    }
    forall j, k {:trigger l'.dir[j], l'.dir[k]} | j in l'.dir && k in l'.dir && l'.dir[j] == l'.dir[k] ensures j == k {
      if j != e.key { assert l.dir[j] in l.dir.Values; }
      if k != e.key { assert l.dir[k] in l.dir.Values; }
    }
    AdoptValues(l.dir, e.key, s);
  }

  lemma AdoptKey(l: Log, hash: Hash, e: Entry, s: nat, room: bool, k: Key)
    requires Consistent(l, hash) && e.key !in l.dir && s in l.leaked && (k == e.key || k in l.dir)
    requires s in l.v.b && s + l.v.b[s].size <= |l.v.w| && HEADER_WORDS + DataWords(|e.Data()|) + 2 <= l.v.b[s].size
    requires Holds(l.v.w, s + 1, e, hash(e.key))
    requires room || First(l.slots[ChainOf(l, hash, e.key)], IsEmpty, 0) < |l.slots[ChainOf(l, hash, e.key)]|
    ensures KeyOk(Adopted(l, hash, e, s, room), hash, k)
  {
    hide Placed, Holds, BucketOf, TagOf;
    var m, x := ChainOf(l, hash, e.key), Slot(TagOf(hash(e.key)), OffsetOf(l.base, s));
    NotPlaced(l, hash, m, x, s);
    assert Unique(l.slots[m]);
    PlacedFacts(l.slots[m], x, room);
    assert s in Used(l.v.b);
    if k != e.key { assert KeyOk(l, hash, k); }
  }

  lemma AdoptValues(d: map<Key, nat>, key: Key, s: nat)
    requires key !in d
    ensures d[key := s].Values == d.Values + {s}
  {
    var d' := d[key := s];
    assert d'[key] == s;
    forall k | k in d ensures d[k] in d'.Values { assert d'[k] == d[k]; }
  }

  /** No slot has the offset of a block that no key owns. */
  lemma NotPlaced(l: Log, hash: Hash, m: nat, x: Slot, s: nat)
    requires Consistent(l, hash) && s in l.leaked && m < |l.slots| && x.tag != 0 && x.offset == OffsetOf(l.base, s)
    ensures x !in l.slots[m]
  {
    forall y | y in l.slots[m] && y.tag != 0 ensures y != x {
      assert Named(l, hash, m, y);
      var k :| Names(l, hash, m, y, k);
      assert l.dir[k] in l.dir.Values;
    }
  }

  lemma AdoptName(l: Log, hash: Hash, e: Entry, s: nat, room: bool, n: nat, y: Slot)
    requires Consistent(l, hash) && e.key !in l.dir && s in l.leaked
    requires room || First(l.slots[ChainOf(l, hash, e.key)], IsEmpty, 0) < |l.slots[ChainOf(l, hash, e.key)]|
    requires n < |l.slots| && y in Adopted(l, hash, e, s, room).slots[n] && y.tag != 0
    ensures Named(Adopted(l, hash, e, s, room), hash, n, y)
  {
    var l' := Adopted(l, hash, e, s, room);
    var m, x := ChainOf(l, hash, e.key), Slot(TagOf(hash(e.key)), OffsetOf(l.base, s));
    if n == m {
      NotPlaced(l, hash, m, x, s);
      assert Unique(l.slots[m]);
      PlacedFacts(l.slots[m], x, room);
    }
    if n == m && y == x {
      assert Names(l', hash, n, y, e.key);
    } else {
      assert Named(l, hash, n, y);
      var k :| Names(l, hash, n, y, k);
      assert Names(l', hash, n, y, k);
    }
  }

  // ---------- What an operation leaves alone ----------

  /** The entry of every key is where it was, word for word. */
  ghost predicate EntriesStay(l: Log, l': Log, x: Key) {
    forall key {:trigger l.dir[key]} {:trigger l'.dir[key]} | key in l.dir && key != x ::
      key in l'.dir && l'.dir[key] == l.dir[key] && KeepsBlock(l.v, l'.v, l.dir[key])
  }

  /** An operation on `key` with chain `m` leaves the other keys' entries and bindings alone, and
      the other chains' buckets and slots. */
  ghost predicate OthersKept(chains: seq<seq<nat>>, l: Log, chains': seq<seq<nat>>, l': Log, key: Key, m: nat) {
    && EntriesStay(l, l', key)
    && l'.dir.Keys - {key} == l.dir.Keys - {key} && l'.table - {key} == l.table - {key}
    && |chains'| == |chains| && |l'.slots| == |l.slots|
    && (forall n {:trigger chains'[n]} | 0 <= n < |chains| && n != m :: chains'[n] == chains[n])
    && (forall n {:trigger l'.slots[n]} | 0 <= n < |l.slots| && n != m :: l'.slots[n] == l.slots[n])
  }

  lemma OthersKeptTrans(c: seq<seq<nat>>, l: Log, c': seq<seq<nat>>, l': Log, c'': seq<seq<nat>>, l'': Log, key: Key, m: nat)
    requires OthersKept(c, l, c', l', key, m) && OthersKept(c', l', c'', l'', key, m)
    ensures OthersKept(c, l, c'', l'', key, m)
  {
    forall k {:trigger l.dir[k]} {:trigger l''.dir[k]} | k in l.dir && k != key
      ensures k in l''.dir && l''.dir[k] == l.dir[k] && KeepsBlock(l.v, l''.v, l.dir[k])
    {
      assert l'.dir[k] == l.dir[k];
    }
  }

  /** A change of the heap that keeps the keys' blocks leaves everything else alone. */
  lemma HeapKept(c: seq<seq<nat>>, l: Log, hash: Hash, v: HeapState, leaked: set<nat>, x: int, key: Key, m: nat)
    requires Consistent(l, hash) && KeepsUsed(l.v, v, x) && (x < 0 || x !in l.dir.Values)
    ensures OthersKept(c, l, c, l.(v := v, leaked := leaked), key, m)
  {
    var l' := l.(v := v, leaked := leaked);
    forall k {:trigger l.dir[k]} {:trigger l'.dir[k]} | k in l.dir && k != key
      ensures k in l'.dir && l'.dir[k] == l.dir[k] && KeepsBlock(l.v, l'.v, l.dir[k])
    {
      assert KeyOk(l, hash, k) && l.dir[k] in l.dir.Values;
      assert KeepsBlock(l.v, v, l.dir[k]);
    }
  }

  /** A change of the index for `key` alone leaves everything else alone. */
  lemma IndexKept(c: seq<seq<nat>>, l: Log, hash: Hash, c': seq<seq<nat>>, l': Log, key: Key, m: nat)
    requires Consistent(l, hash) && l'.v == l.v && Tiling(|l.v.w|, l.v.b)
    requires l'.dir - {key} == l.dir - {key} && l'.table - {key} == l.table - {key}
    requires |c'| == |c| && |l'.slots| == |l.slots|
    requires forall n {:trigger c'[n]} | 0 <= n < |c| && n != m :: c'[n] == c[n]
    requires forall n {:trigger l'.slots[n]} | 0 <= n < |l.slots| && n != m :: l'.slots[n] == l.slots[n]
    ensures OthersKept(c, l, c', l', key, m)
  {
    forall k {:trigger l.dir[k]} {:trigger l'.dir[k]} | k in l.dir && k != key
      ensures k in l'.dir && l'.dir[k] == l.dir[k] && KeepsBlock(l.v, l'.v, l.dir[k])
    {
      assert KeyOk(l, hash, k);
      assert k in l.dir - {key} && (l.dir - {key})[k] == l.dir[k] && k in l'.dir - {key} && (l'.dir - {key})[k] == l'.dir[k];
    }
    assert l'.dir.Keys - {key} == (l'.dir - {key}).Keys && l.dir.Keys - {key} == (l.dir - {key}).Keys;
  }

  lemma AdoptKept(c: seq<seq<nat>>, c': seq<seq<nat>>, l: Log, hash: Hash, e: Entry, s: nat, room: bool)
    requires Consistent(l, hash) && Tiling(|l.v.w|, l.v.b) && |c'| == |c|
    requires forall n {:trigger c'[n]} | 0 <= n < |c| && n != ChainOf(l, hash, e.key) :: c'[n] == c[n]
    ensures OthersKept(c, l, c', Adopted(l, hash, e, s, room), e.key, ChainOf(l, hash, e.key))
  {
    var l' := Adopted(l, hash, e, s, room);
    var m := ChainOf(l, hash, e.key);
    hide Consistent, Placed, Tiling;
    assert l'.dir - {e.key} == l.dir - {e.key} && l'.table - {e.key} == l.table - {e.key};
    IndexKept(c, l, hash, c', l', e.key, m);
  }

  // ---------- Index and heap in bijection ----------

  /** Slot `j` of chain `m` is in use and names the block at `s`. */
  ghost predicate SlotAt(l: Log, m: nat, j: nat, s: nat) {
    m < |l.slots| && j < |l.slots[m]| && l.slots[m][j].tag != 0 && l.slots[m][j].offset == OffsetOf(l.base, s)
  }

  ghost predicate HasSlot(l: Log, s: nat) {
    exists m, j :: SlotAt(l, m, j, s)
  }

  /** Every slot in use names a used block that holds an entry whose hash has the slot's tag and
      selects the slot's chain. */
  lemma SlotNamesBlock(l: Log, hash: Hash, m: nat, j: nat) returns (s: nat, key: Key)
    requires Consistent(l, hash) && m < |l.slots| && j < |l.slots[m]| && l.slots[m][j].tag != 0
    ensures SlotAt(l, m, j, s) && s in Used(l.v.b) && s !in l.leaked
    ensures key in l.table && l.table[key].key == key && s + 1 < |l.v.w| && Holds(l.v.w, s + 1, l.table[key], hash(key))
    ensures l.slots[m][j].tag == TagOf(hash(key)) && BucketOf(hash(key), |l.slots|) == m
  {
    assert Named(l, hash, m, l.slots[m][j]);
    key :| Names(l, hash, m, l.slots[m][j], key);
    s := l.dir[key];
    assert s in l.dir.Values;
    assert KeyOk(l, hash, key);
  }

  /** Every used block but the leaked ones has exactly one slot: nothing dangles, and if nothing
      leaked, slots in use and used blocks are in bijection. */
  lemma BlockHasSlot(l: Log, hash: Hash, s: nat)
    requires Consistent(l, hash) && s in Used(l.v.b)
    ensures s !in l.leaked <==> HasSlot(l, s)
    ensures forall m, j, n, i | SlotAt(l, m, j, s) && SlotAt(l, n, i, s) :: m == n && j == i
  {
    if s !in l.leaked {
      var key :| key in l.dir && l.dir[key] == s;
      assert KeyOk(l, hash, key);
      var m := ChainOf(l, hash, key);
      var j :| 0 <= j < |l.slots[m]| && l.slots[m][j] == SlotOf(l, hash, key);
      assert SlotAt(l, m, j, s);
    }
    if HasSlot(l, s) {
      var m, j :| SlotAt(l, m, j, s);
      var t, key := SlotNamesBlock(l, hash, m, j);
    }
    forall m, j, n, i | SlotAt(l, m, j, s) && SlotAt(l, n, i, s) ensures m == n && j == i {
      OneSlot(l, hash, s, m, j, n, i);
    }
  }

  lemma OneSlot(l: Log, hash: Hash, s: nat, m: nat, j: nat, n: nat, i: nat)
    requires Consistent(l, hash) && SlotAt(l, m, j, s) && SlotAt(l, n, i, s)
    ensures m == n && j == i
  {
    assert Named(l, hash, m, l.slots[m][j]) && Named(l, hash, n, l.slots[n][i]);
    var key :| Names(l, hash, m, l.slots[m][j], key);
    var other :| Names(l, hash, n, l.slots[n][i], other);
    assert l.dir[key] == l.dir[other] == s;
    assert key == other;
    assert Unique(l.slots[m]);
  }

  // ---------- The lookup loop as written ----------

  /** Two keys that the index tells apart only by their entries: same bucket, same tag. */
  ghost predicate Collide(hash: Hash, mainSize: nat, j: Key, k: Key) {
    mainSize > 0 && j != k && BucketOf(hash(j), mainSize) == BucketOf(hash(k), mainSize) && TagOf(hash(j)) == TagOf(hash(k))
  }

  /** No two of these keys collide. */
  ghost predicate TagsApart(hash: Hash, mainSize: nat, keys: set<Key>) {
    forall j, k {:trigger Collide(hash, mainSize, j, k)} | j in keys && k in keys :: !Collide(hash, mainSize, j, k)
  }

  /** `key` collides with none of these keys. */
  ghost predicate ApartFrom(hash: Hash, mainSize: nat, keys: set<Key>, key: Key) {
    forall j {:trigger Collide(hash, mainSize, j, key)} | j in keys :: !Collide(hash, mainSize, j, key)
  }

  /** The slots of the key's chain whose entry has the key. */
  ghost function KeySlots(l: Log, hash: Hash, key: Key): set<nat>
    requires |l.slots| > 0
  {
    var s := l.slots[ChainOf(l, hash, key)];
    set j: nat | j < |s| && key in l.dir && s[j] == SlotOf(l, hash, key)
  }

  /** The search loop of get, put and remove for `key`, as written, after `fuel` rounds. */
  ghost function LoopAsWritten(l: Log, hash: Hash, key: Key, fuel: nat): LookupResult
    requires |l.slots| > 0
  {
    LookupLoop(l.slots[ChainOf(l, hash, key)], HasTag(TagOf(hash(key))), KeySlots(l, hash, key), 0, 0, fuel)
  }

  /** The first slot with the key's tag, if any, is that of a stored key with the same tag. */
  lemma FirstHit(l: Log, hash: Hash, key: Key) returns (other: Key)
    requires Consistent(l, hash)
    ensures var s := l.slots[ChainOf(l, hash, key)];
      var j := First(s, HasTag(TagOf(hash(key))), 0);
      if j < |s| then other in l.dir && s[j] == SlotOf(l, hash, other) && (other == key || Collide(hash, |l.slots|, other, key))
      else forall k | k in l.dir :: k != key && !Collide(hash, |l.slots|, k, key)
  {
    var m := ChainOf(l, hash, key);
    var s := l.slots[m];
    var j := First(s, HasTag(TagOf(hash(key))), 0);
    other := key;
    if j < |s| {
      assert Named(l, hash, m, s[j]);
      other :| Names(l, hash, m, s[j], other);
    } else {
      forall k | k in l.dir ensures k != key && !Collide(hash, |l.slots|, k, key) {
        assert KeyOk(l, hash, k);
        if ChainOf(l, hash, k) == m {
          var i :| 0 <= i < |s| && s[i] == SlotOf(l, hash, k);
        }
      }
    }
  }

  /** While no two stored keys collide, the loop as written ends if and only if no other stored key
      collides with the one sought; then it is found exactly if it is stored. */
  lemma LookupEndsExactly(l: Log, hash: Hash, key: Key, fuel: nat)
    requires Consistent(l, hash) && TagsApart(hash, |l.slots|, l.dir.Keys) && fuel > 0
    ensures var r := LoopAsWritten(l, hash, key, fuel);
      && (!r.Running? <==> ApartFrom(hash, |l.slots|, l.table.Keys, key))
      && (!r.Running? ==> if key in l.table then r.FoundAt? && r.j in KeySlots(l, hash, key) else r.Missing?)
  {
    var s, tag, same := l.slots[ChainOf(l, hash, key)], HasTag(TagOf(hash(key))), KeySlots(l, hash, key);
    var other := FirstHit(l, hash, key);
    LookupAsWritten(s, tag, same, fuel);
    var j := First(s, tag, 0);
    if j < |s| && j in same {
      assert l.dir[other] == l.dir[key];
      assert other == key;
    }
  }
}
