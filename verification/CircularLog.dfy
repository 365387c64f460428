/** The key-value log: entries in the heap, found through the bucket index. */
module CircularLog {
  import opened Arithmetic
  import opened Blocks
  import opened HeapInvariant
  import opened HeapSteps
  import opened PoolInvariant
  import opened BucketPool
  import opened LogEntry
  import opened LogIndex
  import FreeLists
  import SegregatedFits

  const SEGREGATED_MAX_DATA_SIZE := 1280

  /** The heap's blocks once `key`, if stored, is removed. */
  ghost function AfterRemoval(n: nat, b: BlockMap, dir: map<Key, nat>, key: Key, cap: nat): BlockMap {
    if key in dir && cap >= 1 && Tiling(n, b) && dir[key] in b then Release(n, b, dir[key], cap).b else b
  }

  /** The heap's free lists then. */
  ghost function ListsAfterRemoval(n: nat, b: BlockMap, q: FreeLists.Lists, dir: map<Key, nat>, key: Key, cap: nat): FreeLists.Lists {
    if key in dir && cap >= 1 && Tiling(n, b) && dir[key] in b then FreeLists.ReleaseLists(n, b, q, dir[key], cap) else q
  }

  datatype Option<T> = None | Some(value: T)

  datatype Op = PutOp(entry: Entry, keyhash: nat) | GetOp(key: Key, keyhash: nat) | RemoveOp(key: Key, keyhash: nat)

  datatype Outcome = PutDone(ok: bool, placed: bool) | Got(entry: Option<Entry>) | Removed(present: bool)

  /** What the callers must see to: hashes that are the keys' hashes, and lengths of 32 bits. */
  ghost predicate OpOk(op: Op, hash: Hash) {
    match op
    case PutOp(e, keyhash) => keyhash == hash(e.key) && |e.key| < MAX_UINT32 && |e.val| < MAX_UINT32
    case GetOp(key, keyhash) => keyhash == hash(key)
    case RemoveOp(key, keyhash) => keyhash == hash(key)
  }

  /** The finite map that the log implements: one operation on it. */
  ghost predicate Step(t: map<Key, Entry>, op: Op, out: Outcome, t': map<Key, Entry>) {
    match op
    case PutOp(e, _) =>
      && out.PutDone? && (out.placed ==> out.ok)
      && t' == (if out.placed then t[e.key := e] else t - {e.key})
      && (out.ok && e.key in t ==> out.placed)
    case GetOp(key, _) => out == Got(if key in t then Some(t[key]) else None) && t' == t
    case RemoveOp(key, _) => out == Removed(key in t) && t' == t - {key}
  }

  /** The `uint32_t` entry size that a put asks the allocator for, as a class. */
  function ClassOf(e: Entry): int {
    SegregatedFits.ClassCeilIndex(e.Size() % MAX_UINT32)
  }

  /** From 2^31 bytes on an entry that is given a block at all does not fit it. */
  predicate TooLarge(e: Entry) {
    e.Size() >= MAX_INT32
  }

  /** Putting `e` into the heap `v` leads to an access out of range: of the list heads in the
      allocator as written, or of the block, which is too small. */
  ghost predicate Faults(v: HeapState, e: Entry, repaired: bool)
    requires HeapInvariant.Inv(v, {})
  {
    if OutOfRangeRequest(v, ClassOf(e)) && !repaired then true else TooLarge(e) && !Unservable(v, ClassOf(e))
  }

  /** The words of the block for an entry: a header, a footer, and its bytes rounded up. */
  function BlockWords(e: Entry): nat {
    (e.Size() + 7) / 8 + 2
  }

  /** The block at `s` is free and its payload has room for so many bytes. */
  ghost predicate FreeRoom(v: HeapState, s: nat, bytes: nat) {
    s in v.b && !v.b[s].used && 8 * (v.b[s].size - 2) >= bytes
  }

  lemma SmallClass(e: Entry)
    requires !TooLarge(e)
    ensures 0 <= ClassOf(e) == BlockWords(e) - 3 && 8 * ClassOf(e) < e.Size() <= 8 * ClassOf(e) + 8
  {}

  /** When a put finds a block, and when it faults, in bytes and blocks. */
  lemma PutInBytes(v: HeapState, e: Entry)
    requires HeapInvariant.Inv(v, {}) && !TooLarge(e)
    ensures !Unservable(v, ClassOf(e)) <==> e.Size() <= 8 * |v.h| && exists s :: FreeRoom(v, s, e.Size())
    ensures !Faults(v, e, true)
    ensures var c := BlockWords(e) - 3;
      Faults(v, e, false) <==>
        c == |v.h| || (c < |v.h| && v.q[c] == [] && FirstClass(v.q, c + 1) < |v.q| && Overflows(v, c, false))
  {
    hide ClassOf, BlockWords, Overflows, FirstClass;
    SmallClass(e);
    assert |v.q| == |v.h|;
    if !Unservable(v, ClassOf(e)) {
      var s :| s in v.b && !v.b[s].used && v.b[s].size >= ClassOf(e) + 3;
      assert FreeRoom(v, s, e.Size());
    }
    if s :| FreeRoom(v, s, e.Size()) {
      assert v.b[s].size >= ClassOf(e) + 3;
    }
  }

  /** The same for sizes of 2^31 bytes or more: their low 32 bits count, as they are if below 2^31;
      otherwise multiples of 8 are taken for one word, and all others refused. */
  lemma HugePutInBytes(v: HeapState, e: Entry)
    requires HeapInvariant.Inv(v, {}) && TooLarge(e)
    ensures var z := e.Size() % MAX_UINT32;
      var bytes := if z == 0 then 1 else if z < MAX_INT32 then z else 8;
      !Unservable(v, ClassOf(e)) <==> (z < MAX_INT32 || z % 8 == 0) && bytes <= 8 * |v.h| && exists s :: FreeRoom(v, s, bytes)
    ensures Faults(v, e, true) <==> !Unservable(v, ClassOf(e))
  {
    var z := e.Size() % MAX_UINT32;
    var bytes := if z == 0 then 1 else if z < MAX_INT32 then z else 8;
    if z < MAX_INT32 || z % 8 == 0 {
      assert ClassOf(e) == (bytes + 7) / 8 - 1;
      if s :| FreeRoom(v, s, bytes) {
        assert v.b[s].size >= ClassOf(e) + 3;
      }
      if !Unservable(v, ClassOf(e)) {
        var s :| s in v.b && !v.b[s].used && v.b[s].size >= ClassOf(e) + 3;
        assert FreeRoom(v, s, bytes);
      }
    } else {
      SegregatedFits.ClassOfHugeSize(z);
    }
  }

  /** The block at `s`, not used before, is now, and has `k` words; the other used blocks stay. */
  ghost predicate NewBlock(b: BlockMap, b': BlockMap, s: nat, k: nat) {
    s !in Used(b) && Used(b') == Used(b)[s := k]
  }

  /** A put took one block for its entry, which is the key's if the entry was placed. */
  ghost predicate TookBlock(b: BlockMap, b': BlockMap, e: Entry, dir: map<Key, nat>, placed: bool) {
    exists s :: NewBlock(b, b', s, BlockWords(e)) && (placed ==> e.key in dir && dir[e.key] == s)
  }

  /** A version with its lowest bit set. */
  function Odd(version: nat): nat {
    version - version % 2 + 1
  }

  class CircularLog {
    const heap: SegregatedFits.Heap
    const pool: BucketPool
    const base: nat
    ghost const hash: Hash
    ghost var dir: map<Key, nat>
    ghost var table: map<Key, Entry>
    ghost var leaked: set<nat>

    ghost function View(): Log
      reads this, heap, heap.words, heap.heads, pool
    {
      Log(heap.View(), pool.slots, base, dir, table, leaked)
    }

    ghost predicate Separate()
      reads pool, heap
    {
      && heap.words as object !in {pool.version, pool.next, pool.entries}
      && heap.heads as object !in {pool.version, pool.next, pool.entries}
    }

    ghost predicate Valid()
      reads this, heap, heap.words, heap.heads, pool, pool.version, pool.next, pool.entries
    {
      heap.Valid() && pool.Valid() && Separate() && Consistent(View(), hash)
    }

    /** create_circular_log, over a zeroed region of `size` bytes that starts `base` bytes into the
        partition, and an empty bucket pool. */
    constructor (pool: BucketPool, base: nat, size: nat, repaired: bool, ghost hash: Hash)
      requires pool.Valid() && size < MAX_UINT32
      requires forall m | 0 <= m < pool.mainSize :: pool.slots[m] == NoSlots()
      ensures Valid() && table == map[] && leaked == {}
      ensures this.pool == pool && this.hash == hash && this.base == base && heap.repaired == repaired
      ensures fresh(heap) && fresh(heap.words) && fresh(heap.heads)
      ensures heap.heads.Length == SegregatedFits.ClassCount(SEGREGATED_MAX_DATA_SIZE) && heap.words.Length == size / 8
      ensures heap.blocks == FreeLists.CarvedBlocks(FreeLists.WholeRegion(size / 8), 0, size / 8, heap.Cap())
    {
      heap := new SegregatedFits.Heap(SEGREGATED_MAX_DATA_SIZE, size, repaired);
      this.pool := pool;
      this.base := base;
      this.hash := hash;
      dir, table, leaked := map[], map[], {};
      new;
      assert Used(heap.blocks) == map[];
      FreshConsistent(View(), hash);
    }

    /** The facts about a used block that clients need. */
    lemma BlockRoom(s: nat)
      requires heap.Valid() && s in heap.blocks
      ensures heap.blocks[s].size >= 1 && s + heap.blocks[s].size <= heap.words.Length
      ensures Tiling(heap.words.Length, heap.blocks)
    {
      heap.BlockFacts(s, {});
    }

    /** equal_circular_log_entry_key against the entry in memory: same length, same bytes. */
    method EqualKey(a: nat, key: Key, ghost e: Entry, ghost h: nat) returns (eq: bool)
      requires Holds(heap.words[..], a, e, h)
      ensures eq <==> e.key == key
    {
      assert |e.key| <= |e.Data()|;
      Remainder(heap.words[a + 2], |e.val|, |e.key|, MAX_UINT32);
      var keyLength := heap.words[a + 2] % MAX_UINT32;
      if |key| != keyLength {
        return false;
      }
      var i := 0;
      while i < keyLength
        invariant 0 <= i <= keyLength && key[..i] == e.key[..i]
      {
        assert DataByte(heap.words[..], a, i) == e.Data()[i] == e.key[i];
        if ByteOf(heap.words[a + HEADER_WORDS + i / 8], i % 8) != key[i] {
          return false;
        }
        i := i + 1;
      }
      assert key[..keyLength] == key && e.key[..keyLength] == e.key;
      return true;
    }

    /** The entry in memory copied out. */
    method ReadEntry(a: nat, ghost e: Entry, ghost h: nat) returns (r: Entry)
      requires Holds(heap.words[..], a, e, h)
      ensures r == e
    {
      hide ByteOf;
      var n := heap.words[a] - HEADER_BYTES;
      Remainder(heap.words[a + 2], |e.val|, |e.key|, MAX_UINT32);
      var keyLength := heap.words[a + 2] % MAX_UINT32;
      var data: seq<Byte> := [];
      while |data| < n
        invariant |data| <= n == |e.Data()| && data == e.Data()[..|data|]
      {
        var i := |data|;
        assert DataByte(heap.words[..], a, i) == e.Data()[i];
        data := data + [ByteOf(heap.words[a + HEADER_WORDS + i / 8], i % 8)];
      }
      assert data == e.Data();
      r := Entry(data[..keyLength], data[keyLength..], heap.words[a + 3]);
    }

    /** What a slot in use stands for. */
    lemma SlotMeans(m: nat, j: nat) returns (key: Key)
      requires Valid() && m < pool.mainSize && j < |pool.slots[m]| && pool.slots[m][j].tag != 0
      ensures Names(View(), hash, m, pool.slots[m][j], key) && KeyOk(View(), hash, key)
    {
      assert Named(View(), hash, m, pool.slots[m][j]);
      key :| Names(View(), hash, m, pool.slots[m][j], key);
      assert KeyOk(View(), hash, key);
    }

    /** match_circular_log_entry_key for slot `index` of bucket `b`: the slot is the key's exactly
        if the entry it points to has the key. */
    method MatchSlot(b: nat, index: nat, key: Key, ghost m: nat, ghost k: nat) returns (same: bool)
      requires Valid() && m == ChainOf(View(), hash, key) < pool.mainSize && k < |pool.chains[m]| && b == pool.chains[m][k] && index < BUCKET_ENTRIES
      requires BUCKET_ENTRIES * k + index < |pool.slots[m]| && pool.slots[m][BUCKET_ENTRIES * k + index].tag != 0
      ensures same <==> key in dir && pool.slots[m][BUCKET_ENTRIES * k + index] == SlotOf(View(), hash, key)
    {
      hide HeapInvariant.Inv, PoolInvariant.Inv;
      pool.Facts(m, k, index);
      ghost var other := SlotMeans(m, BUCKET_ENTRIES * k + index);
      hide Consistent;
      var offset := pool.entries[BUCKET_ENTRIES * b + index].offset;
      var addr := (offset - base) / 8;
      assert addr == dir[other] + 1;
      same := EqualKey(addr, key, table[other], hash(other));
      if key in dir && OffsetOf(base, dir[other]) == OffsetOf(base, dir[key]) { OwnerUnique(other, key); }
    }

    lemma OwnerUnique(j: Key, k: Key)
      requires Valid() && j in dir && k in dir && OffsetOf(base, dir[j]) == OffsetOf(base, dir[k])
      ensures j == k
    {}

    /** The key's slot is in its chain. */
    lemma KeyFacts(key: Key)
      requires Valid() && key in dir
      ensures KeyOk(View(), hash, key) && dir.Keys == table.Keys
    {}

    lemma Domain()
      requires Valid()
      ensures dir.Keys == table.Keys && |pool.slots| == pool.mainSize > 0
    {}

    /** The search loop of __get_circular_log_entry and __remove_circular_log_entry: follow the
        slots with the key's tag until one whose entry has the key.  The cursor moves past each
        slot that is rejected. */
    method Lookup(key: Key, keyhash: nat, m: nat) returns (found: bool, b: int, index: nat, ghost k: nat)
      requires Valid() && keyhash == hash(key) && m == BucketOf(keyhash, pool.mainSize)
      ensures found <==> key in dir
      ensures found ==>
                && k < |pool.chains[m]| && b == pool.chains[m][k] && index < BUCKET_ENTRIES
                && BUCKET_ENTRIES * k + index < |pool.slots[m]|
                && pool.slots[m][BUCKET_ENTRIES * k + index] == SlotOf(View(), hash, key)
    {
      hide HeapInvariant.Inv, PoolInvariant.Inv, Consistent;
      Domain();
      pool.ChainFacts(m);
      b, index, k := m, 0, 0;
      found := true;
      while found
        invariant found ==> k < |pool.chains[m]| && b == pool.chains[m][k] && index <= BUCKET_ENTRIES
        invariant found && key in dir ==> SlotOf(View(), hash, key) !in pool.slots[m][..BUCKET_ENTRIES * k + index]
        invariant !found ==> key !in dir
        decreases found, |pool.slots[m]| - (BUCKET_ENTRIES * k + index)
      {
        if key in dir { KeyFacts(key); }
        found, b, index, k := pool.SearchIndexEntry(b, keyhash, index, m, k);
        if found {
          var same := MatchSlot(b, index, key, m, k);
          if same {
            return;
          }
          index := index + 1;
        }
      }
    }

    /** Free the used block at `s` that no key owns. */
    method ReleaseBlock(s: nat, ghost key: Key, ghost m: nat)
      requires Valid() && s in leaked
      modifies this`leaked, heap`blocks, heap`lists, heap.words, heap.heads
      ensures Valid() && leaked == old(leaked) - {s}
      ensures OthersKept(pool.chains, old(View()), pool.chains, View(), key, m)
      ensures old(s in heap.blocks) && heap.blocks == Release(heap.words.Length, old(heap.blocks), s, heap.Cap()).b
      ensures heap.lists == FreeLists.ReleaseLists(heap.words.Length, old(heap.blocks), old(heap.lists), s, heap.Cap())
    {
      hide HeapInvariant.Inv, PoolInvariant.Inv, Consistent, KeepsUsed, Tiling, Release, FreeLists.ReleaseLists, OthersKept;
      ghost var l := View();
      LeakedUsed(s);
      heap.Basics({});
      heap.Free(s + 1);
      heap.Basics({});
      leaked := leaked - {s};
      FreedKeys(l, hash, heap.View(), s);
      HeapStep(l, hash, heap.View(), leaked, s);
      HeapKept(pool.chains, l, hash, heap.View(), leaked, s, key, m);
    }

    lemma LeakedUsed(s: nat)
      requires Valid() && s in leaked
      ensures s in heap.blocks && heap.blocks[s].used && s !in dir.Values
    {
      assert s in Used(heap.blocks);
    }

    /** Delete the slot found for `key`; its block is used but owned by no key then. */
    method DeleteSlot(b: nat, index: nat, key: Key, ghost m: nat, ghost k: nat)
      requires Valid() && key in dir && m == ChainOf(View(), hash, key) < pool.mainSize
      requires k < |pool.chains[m]| && b == pool.chains[m][k] && index < BUCKET_ENTRIES
      requires BUCKET_ENTRIES * k + index < |pool.slots[m]| && pool.slots[m][BUCKET_ENTRIES * k + index] == SlotOf(View(), hash, key)
      modifies this`dir, this`table, this`leaked, pool`slots, pool.entries
      ensures Valid() && dir == old(dir) - {key} && table == old(table) - {key} && leaked == old(leaked) + {old(dir[key])}
      ensures pool.slots == old(pool.slots)[m := old(pool.slots[m])[BUCKET_ENTRIES * k + index := EMPTY]]
      ensures OthersKept(pool.chains, old(View()), pool.chains, View(), key, m)
    {
      hide HeapInvariant.Inv, PoolInvariant.Inv, Consistent, KeepsUsed, Used, Tiling, OthersKept;
      heap.Basics({});
      ghost var l, j := View(), BUCKET_ENTRIES * k + index;
      DropStep(l, hash, key, j);
      pool.DeleteIndexEntryWithIndex(b, index, m, k);
      leaked := leaked + {dir[key]};
      dir := dir - {key};
      table := table - {key};
      assert View() == Dropped(l, hash, key, j);
      IndexKept(pool.chains, l, hash, pool.chains, View(), key, m);
    }

    /** __remove_circular_log_entry; `j` is the slot it cleared. */
    method RemoveEntry(key: Key, keyhash: nat, m: nat) returns (removed: bool, ghost j: nat)
      requires Valid() && keyhash == hash(key) && m == BucketOf(keyhash, pool.mainSize)
      modifies this`dir, this`table, this`leaked, heap`blocks, heap`lists, heap.words, heap.heads, pool`slots, pool.entries
      ensures Valid() && removed == (key in old(table)) && table == old(table) - {key} && leaked == old(leaked)
      ensures if removed
              then j < |old(pool.slots[m])| && pool.slots == old(pool.slots)[m := old(pool.slots[m])[j := EMPTY]]
              else pool.slots == old(pool.slots)
      ensures heap.blocks == AfterRemoval(heap.words.Length, old(heap.blocks), old(dir), key, heap.Cap())
      ensures heap.lists == ListsAfterRemoval(heap.words.Length, old(heap.blocks), old(heap.lists), old(dir), key, heap.Cap())
      ensures OthersKept(pool.chains, old(View()), pool.chains, View(), key, m)
    {
      hide HeapInvariant.Inv, PoolInvariant.Inv, Consistent, KeepsUsed, Used, Release, FreeLists.ReleaseLists, Tiling, OthersKept;
      heap.Basics({});
      ghost var l := View();
      Domain();
      var b, index;
      ghost var k;
      removed, b, index, k := Lookup(key, keyhash, m);
      j := BUCKET_ENTRIES * k + index;
      if removed {
        pool.Facts(m, k, index);
        ghost var s := dir[key];
        KeyOwned(key);
        KeyFacts(key);
        var offset := pool.entries[BUCKET_ENTRIES * b + index].offset;
        DeleteSlot(b, index, key, m, k);
        var addr := (offset - base) / 8;
        ghost var l1 := View();
        ReleaseBlock(addr - 1, key, m);
        OthersKeptTrans(pool.chains, l, pool.chains, l1, pool.chains, View(), key, m);
      } else {
        IndexKept(pool.chains, l, hash, pool.chains, View(), key, m);
      }
    }

    lemma KeyOwned(key: Key)
      requires Valid() && key in dir
      ensures dir[key] !in leaked
    {
      assert dir[key] in dir.Values;
    }

    /** The memcpy of put_circular_log_entry: header and data of `e` into the words from `a` on. */
    method CopyEntry(a: nat, e: Entry, keyhash: nat)
      requires |e.key| < MAX_UINT32 && a + HEADER_WORDS + DataWords(|e.Data()|) <= heap.words.Length
      modifies heap.words
      ensures Holds(heap.words[..], a, e, keyhash)
      ensures forall i {:trigger heap.words[i]} | 0 <= i < heap.words.Length && !(a <= i < a + HEADER_WORDS + DataWords(|e.Data()|)) :: heap.words[i] == old(heap.words[i])
    {
      var w, data := heap.words, e.Data();
      w[a] := e.Size();
      w[a + 1] := keyhash;
      w[a + 2] := |e.key| + MAX_UINT32 * |e.val|;
      w[a + 3] := e.expire;
      var i := 0;
      while i < |data|
        invariant 0 <= i <= |data|
        invariant w[a] == e.Size() && w[a + 1] == keyhash && w[a + 2] == |e.key| + MAX_UINT32 * |e.val| && w[a + 3] == e.expire
        invariant forall j {:trigger data[j]} | 0 <= j < i :: DataByte(w[..], a, j) == data[j]
        invariant forall j {:trigger w[j]} | 0 <= j < w.Length && !(a <= j < a + HEADER_WORDS + DataWords(|data|)) :: w[j] == old(w[j])
      {
        WriteDataByte(w[..], a, data, i);
        ghost var u := w[..];
        var p := a + HEADER_WORDS + i / 8;
        w[p] := WithByte(w[p], i % 8, data[i]);
        assert w[..] == u[p := WithByte(u[p], i % 8, data[i])];
        i := i + 1;
      }
    }

    /** Copy the entry into the unowned block at `s`. */
    method FillBlock(s: nat, e: Entry, keyhash: nat, ghost m: nat)
      requires Valid() && s in leaked && |e.key| < MAX_UINT32
      requires s in heap.blocks && HEADER_WORDS + DataWords(|e.Data()|) + 2 <= heap.blocks[s].size
      modifies heap.words
      ensures Valid() && Holds(heap.words[..], s + 1, e, keyhash)
      ensures OthersKept(pool.chains, old(View()), pool.chains, View(), e.key, m)
    {
      hide HeapInvariant.Inv, PoolInvariant.Inv, Consistent, KeepsUsed, Used, Tiling, Holds, OthersKept;
      ghost var l := View();
      LeakedUsed(s);
      heap.Basics({});
      BlockRoom(s);
      CopyEntry(s + 1, e, keyhash);
      PayloadStore(l.v, s, heap.words[..]);
      assert heap.View() == l.v.(w := heap.words[..]);
      UsedSplit(l, hash);
      HeapStep(l, hash, heap.View(), leaked, s);
      HeapKept(pool.chains, l, hash, heap.View(), leaked, s, e.key, m);
      assert View() == l.(v := heap.View(), leaked := leaked);
    }

    /** Take a block of `size` bytes from the heap; no key owns it yet. */
    method Allocate(size: nat, ghost key: Key, ghost m: nat) returns (r: SegregatedFits.Allocation)
      requires Valid() && size < MAX_UINT32
      modifies this`leaked, heap`blocks, heap`lists, heap.words, heap.heads
      ensures r.OutOfRange? <==> !heap.repaired && OutOfRangeRequest(old(heap.View()), SegregatedFits.ClassCeilIndex(size))
      ensures r.Null? <==> !r.OutOfRange? && Unservable(old(heap.View()), SegregatedFits.ClassCeilIndex(size))
      ensures !r.OutOfRange? ==> Valid() && OthersKept(pool.chains, old(View()), pool.chains, View(), key, m)
      ensures r.Null? ==> leaked == old(leaked)
      ensures r.Allocated? ==>
                && r.addr >= 1 && r.addr - 1 !in old(leaked) && leaked == old(leaked) + {r.addr - 1}
                && r.addr - 1 in heap.blocks && (size < MAX_INT32 ==> 8 * (heap.blocks[r.addr - 1].size - 2) >= size)
                && NewBlock(old(heap.blocks), heap.blocks, r.addr - 1, SegregatedFits.ClassCeilIndex(size) + 3)
    {
      hide HeapInvariant.Inv, PoolInvariant.Inv, Consistent, KeepsUsed, Used, Tiling, Served, FreeLists.HeadServed, OutOfRangeRequest, Unservable, OthersKept;
      ghost var l := View();
      heap.Basics({});
      HeapKept(pool.chains, l, hash, l.v, l.leaked, -1, key, m);
      r := heap.Get(size);
      if r.Allocated? {
        heap.Basics({});
        if size < MAX_INT32 { SegregatedFits.ClassFits(size); }
        leaked := leaked + {r.addr - 1};
        AllocatedKeys(l, hash, heap.View(), r.addr - 1, heap.blocks[r.addr - 1].size);
        HeapStep(l, hash, heap.View(), leaked, -1);
        HeapKept(pool.chains, l, hash, heap.View(), leaked, -1, key, m);
      }
    }

    /** Insert the key's slot for its filled block at `s`; without room the block stays unowned. */
    method PlaceEntry(m: nat, e: Entry, keyhash: nat, s: nat) returns (ok: bool)
      requires Valid() && s in leaked && e.key !in table && keyhash == hash(e.key) && m == BucketOf(keyhash, pool.mainSize)
      requires s in heap.blocks && HEADER_WORDS + DataWords(|e.Data()|) + 2 <= heap.blocks[s].size
      requires Holds(heap.words[..], s + 1, e, keyhash)
      modifies this`dir, this`table, this`leaked, pool`chains, pool`slots, pool`claimed, pool.version, pool.next, pool.entries
      ensures Valid() && forall i | 0 <= i < pool.mainSize :: pool.version[i] == old(pool.version[i])
      ensures ok <==> First(old(pool.slots[m]), IsEmpty, 0) < |old(pool.slots[m])| || old(pool.claimed) < pool.spareSize
      ensures if ok then table == old(table)[e.key := e] && leaked == old(leaked) - {s}
              else table == old(table) && leaked == old(leaked)
      ensures ok ==> dir == old(dir)[e.key := s]
      ensures OthersKept(old(pool.chains), old(View()), pool.chains, View(), e.key, m)
    {
      hide HeapInvariant.Inv, PoolInvariant.Inv, Consistent, Used, Holds, Placed, Tiling, OthersKept;
      ghost var chains := pool.chains;
      Domain();
      BlockRoom(s);
      ghost var l, room := View(), pool.claimed < pool.spareSize;
      heap.Basics({});
      ok := pool.InsertIndexEntry(m, keyhash, OffsetOf(base, s));
      if ok {
        AdoptStep(l, hash, e, s, room);
        dir := dir[e.key := s];
        table := table[e.key := e];
        leaked := leaked - {s};
        assert View() == Adopted(l, hash, e, s, room);
        AdoptKept(chains, pool.chains, l, hash, e, s, room);
      } else {
        assert View() == l;
        HeapKept(chains, l, hash, l.v, l.leaked, -1, e.key, m);
      }
    }

    /** Chain `m` can take another entry. */
    ghost predicate Room(m: nat)
      reads pool
    {
      m < |pool.slots| && (First(pool.slots[m], IsEmpty, 0) < |pool.slots[m]| || pool.claimed < pool.spareSize)
    }

    /** The second half of put_circular_log_entry, for a key that is not stored: allocate, copy,
        insert the slot.  `fault` stands for an access out of range. */
    method StoreEntry(e: Entry, keyhash: nat, m: nat) returns (ok: bool, fault: bool, ghost placed: bool)
      requires Valid() && e.key !in table && keyhash == hash(e.key) && m == BucketOf(keyhash, pool.mainSize)
      requires |e.key| < MAX_UINT32 && |e.val| < MAX_UINT32
      modifies this`dir, this`table, this`leaked, heap`blocks, heap`lists, heap.words, heap.heads
      modifies pool`chains, pool`slots, pool`claimed, pool.version, pool.next, pool.entries
      ensures fault <==> Faults(old(heap.View()), e, heap.repaired)
      ensures ok <==> !fault && !Unservable(old(heap.View()), ClassOf(e))
      ensures placed <==> ok && old(Room(m))
      ensures ok ==> TookBlock(old(heap.blocks), heap.blocks, e, dir, placed)
      ensures !fault ==> Valid() && table == if placed then old(table)[e.key := e] else old(table)
      ensures !fault ==> if ok && !placed then |leaked| == |old(leaked)| + 1 && old(leaked) <= leaked else leaked == old(leaked)
      ensures !fault ==> forall i | 0 <= i < pool.mainSize :: pool.version[i] == old(pool.version[i])
      ensures !fault ==> OthersKept(old(pool.chains), old(View()), pool.chains, View(), e.key, m)
    {
      hide HeapInvariant.Inv, PoolInvariant.Inv, Consistent, Used, NewBlock, Holds, OutOfRangeRequest, Unservable, KeepsUsed, Placed, BucketOf, TagOf, OthersKept;
      ghost var c, l := pool.chains, View();
      Domain();
      placed, fault, ok := false, false, false;
      var r := Allocate(e.Size() % MAX_UINT32, e.key, m);
      if r.OutOfRange? || (r.Allocated? && TooLarge(e)) {
        // the list heads, or the words after the block, would be overwritten
        fault := true;
        return;
      }
      if r.Allocated? {
        ghost var l1 := View();
        assert ClassOf(e) + 3 == BlockWords(e);
        FillBlock(r.addr - 1, e, keyhash, m);
        OthersKeptTrans(c, l, c, l1, c, View(), e.key, m);
        ok := true;
        ghost var l2 := View();
        var inserted := PlaceEntry(m, e, keyhash, r.addr - 1);
        OthersKeptTrans(c, l, c, l2, pool.chains, View(), e.key, m);
        placed := inserted;
        assert NewBlock(old(heap.blocks), heap.blocks, r.addr - 1, BlockWords(e));
      }
    }

    /** put_circular_log_entry between lock and unlock.  Its result `ok` tells only whether a block
        was found; whether the index had room (`placed`) is ignored.  `fault` stands for the
        out-of-range access of the allocator as written; `mid` is the heap once the old entry is
        gone. */
    method PutLocked(e: Entry, keyhash: nat, m: nat)
      returns (ok: bool, fault: bool, ghost placed: bool, ghost mid: HeapState)
      requires Valid() && keyhash == hash(e.key) && m == BucketOf(keyhash, pool.mainSize)
      requires |e.key| < MAX_UINT32 && |e.val| < MAX_UINT32
      modifies this`dir, this`table, this`leaked, heap`blocks, heap`lists, heap.words, heap.heads
      modifies pool`chains, pool`slots, pool`claimed, pool.version, pool.next, pool.entries
      ensures HeapInvariant.Inv(mid, {}) && |mid.h| == heap.heads.Length && |mid.w| == heap.words.Length
      ensures mid.b == AfterRemoval(heap.words.Length, old(heap.blocks), old(dir), e.key, heap.Cap())
      ensures mid.q == ListsAfterRemoval(heap.words.Length, old(heap.blocks), old(heap.lists), old(dir), e.key, heap.Cap())
      ensures fault <==> Faults(mid, e, heap.repaired)
      ensures ok <==> !fault && !Unservable(mid, ClassOf(e))
      ensures !TooLarge(e) && !fault ==> (ok <==> e.Size() <= 8 * |mid.h| && exists s :: FreeRoom(mid, s, e.Size()))
      ensures !TooLarge(e) && heap.repaired ==> !fault
      ensures ok ==> TookBlock(mid.b, heap.blocks, e, dir, placed)
      ensures placed <==> ok && (e.key in old(table) || old(Room(m)))
      ensures !fault ==> Valid() && table == if placed then old(table)[e.key := e] else old(table) - {e.key}
      ensures !fault ==> if ok && !placed then |leaked| == |old(leaked)| + 1 && old(leaked) <= leaked else leaked == old(leaked)
      ensures !fault ==> forall i | 0 <= i < pool.mainSize :: pool.version[i] == old(pool.version[i])
      ensures !fault ==> OthersKept(old(pool.chains), old(View()), pool.chains, View(), e.key, m)
    {
      hide HeapInvariant.Inv, PoolInvariant.Inv, Consistent, Used, TookBlock, FreeRoom, Holds, AfterRemoval, ListsAfterRemoval, Faults, Unservable, KeepsUsed, Placed, BucketOf, TagOf, OthersKept;
      ghost var c, l := pool.chains, View();
      Domain();
      var removed;
      ghost var j;
      removed, j := RemoveEntry(e.key, keyhash, m);
      mid := heap.View();
      Domain();
      assert removed ==> pool.slots[m][j] == EMPTY;
      assert Room(m) <==> e.key in old(table) || old(Room(m));
      ghost var l1 := View();
      if !TooLarge(e) { PutInBytes(mid, e); }
      ok, fault, placed := StoreEntry(e, keyhash, m);
      if !fault {
        OthersKeptTrans(c, l, c, l1, pool.chains, View(), e.key, m);
      }
    }

    /** put_circular_log_entry.  When no block is found the lock is not given back: the version of
        the key's bucket stays odd. */
    method Put(e: Entry, keyhash: nat)
      returns (ok: bool, fault: bool, ghost placed: bool, ghost mid: HeapState)
      requires Valid() && keyhash == hash(e.key)
      requires |e.key| < MAX_UINT32 && |e.val| < MAX_UINT32
      modifies this`dir, this`table, this`leaked, heap`blocks, heap`lists, heap.words, heap.heads
      modifies pool`chains, pool`slots, pool`claimed, pool.version, pool.next, pool.entries
      ensures HeapInvariant.Inv(mid, {}) && |mid.h| == heap.heads.Length && |mid.w| == heap.words.Length
      ensures mid.b == AfterRemoval(heap.words.Length, old(heap.blocks), old(dir), e.key, heap.Cap())
      ensures mid.q == ListsAfterRemoval(heap.words.Length, old(heap.blocks), old(heap.lists), old(dir), e.key, heap.Cap())
      ensures fault <==> Faults(mid, e, heap.repaired)
      ensures ok <==> !fault && !Unservable(mid, ClassOf(e))
      ensures !TooLarge(e) && !fault ==> (ok <==> e.Size() <= 8 * |mid.h| && exists s :: FreeRoom(mid, s, e.Size()))
      ensures !TooLarge(e) && heap.repaired ==> !fault
      ensures ok ==> TookBlock(mid.b, heap.blocks, e, dir, placed)
      ensures placed <==> ok && (e.key in old(table) || old(Room(BucketOf(keyhash, pool.mainSize))))
      ensures !fault ==> Valid() && table == if placed then old(table)[e.key := e] else old(table) - {e.key}
      ensures !fault ==> if ok && !placed then |leaked| == |old(leaked)| + 1 && old(leaked) <= leaked else leaked == old(leaked)
      ensures !fault ==>
                var m := BucketOf(keyhash, pool.mainSize);
                m < pool.mainSize && pool.version[m] == if ok then (Odd(old(pool.version[m])) + 1) % MAX_UINT32 else Odd(old(pool.version[m]))
      ensures !fault ==> OthersKept(old(pool.chains), old(View()), pool.chains, View(), e.key, BucketOf(keyhash, pool.mainSize))
    {
      hide HeapInvariant.Inv, PoolInvariant.Inv, Consistent, Used, TookBlock, FreeRoom, AfterRemoval, ListsAfterRemoval, Faults, Unservable, OthersKept;
      var m := BucketOf(keyhash, pool.mainSize);
      ghost var l := View();
      pool.OptimisticLock(m);
      assert View() == l;
      ok, fault, placed, mid := PutLocked(e, keyhash, m);
      if ok {
        pool.OptimisticUnlock(m);
      }
    }

    /** remove_circular_log_entry */
    method Remove(key: Key, keyhash: nat) returns (removed: bool)
      requires Valid() && keyhash == hash(key)
      modifies this`dir, this`table, this`leaked, heap`blocks, heap`lists, heap.words, heap.heads
      modifies pool`slots, pool.version, pool.entries
      ensures Valid() && removed == (key in old(table)) && table == old(table) - {key} && leaked == old(leaked)
      ensures var m := BucketOf(keyhash, pool.mainSize);
        m < pool.mainSize && pool.version[m] == (Odd(old(pool.version[m])) + 1) % MAX_UINT32
      ensures OthersKept(pool.chains, old(View()), pool.chains, View(), key, BucketOf(keyhash, pool.mainSize))
    {
      hide HeapInvariant.Inv, PoolInvariant.Inv, Consistent, Used, AfterRemoval, ListsAfterRemoval, OthersKept;
      var m := BucketOf(keyhash, pool.mainSize);
      ghost var l := View();
      pool.OptimisticLock(m);
      assert View() == l;
      ghost var j;
      removed, j := RemoveEntry(key, keyhash, m);
      pool.OptimisticUnlock(m);
    }

    /** get_circular_log_entry, without a writer beside it: the version does not change and the
        entry is read once. */
    method Get(key: Key, keyhash: nat) returns (found: bool, e: Option<Entry>)
      requires Valid() && keyhash == hash(key)
      ensures found <==> key in table
      ensures e == if key in table then Some(table[key]) else None
    {
      hide HeapInvariant.Inv, PoolInvariant.Inv, Consistent, Used;
      Domain();
      var m := BucketOf(keyhash, pool.mainSize);
      var again := true;
      found, e := false, None;
      while again
        invariant !again ==> (found <==> key in table) && e == if key in table then Some(table[key]) else None
        decreases again
      {
        var beginning := pool.version[m];
        var b, index;
        ghost var k;
        found, b, index, k := Lookup(key, keyhash, m);
        e := None;
        if found {
          KeyFacts(key);
          pool.Facts(m, k, index);
          var offset := pool.entries[BUCKET_ENTRIES * b + index].offset;
          var r := ReadEntry((offset - base) / 8, table[key], keyhash);
          e := Some(r);
        }
        again := beginning != pool.version[m];
      }
    }

    /** One operation; a fault of the allocator ends it. */
    method Perform(op: Op) returns (ghost outcome: Outcome, fault: bool)
      requires Valid() && OpOk(op, hash)
      modifies this`dir, this`table, this`leaked, heap`blocks, heap`lists, heap.words, heap.heads
      modifies pool`chains, pool`slots, pool`claimed, pool.version, pool.next, pool.entries
      ensures if fault then op.PutOp? && (TooLarge(op.entry) || !heap.repaired)
              else Valid() && Step(old(table), op, outcome, table)
    {
      hide HeapInvariant.Inv, PoolInvariant.Inv, Consistent, Used, AfterRemoval, ListsAfterRemoval, Unservable, OutOfRangeRequest, OthersKept;
      fault := false;
      match op {
        case PutOp(e, keyhash) =>
          var ok;
          ghost var placed, mid;
          ok, fault, placed, mid := Put(e, keyhash);
          outcome := PutDone(ok, placed);
        case RemoveOp(key, keyhash) =>
          var removed := Remove(key, keyhash);
          outcome := Removed(removed);
        case GetOp(key, keyhash) =>
          var found, e := Get(key, keyhash);
          outcome := Got(e);
      }
    }

    /** Run a list of operations until the end or the first fault of the allocator; `logs` are the
        log's states. */
    method Run(ops: seq<Op>) returns (ghost outcomes: seq<Outcome>, ghost logs: seq<Log>, fault: bool)
      requires Valid() && forall i {:trigger ops[i]} | 0 <= i < |ops| :: OpOk(ops[i], hash)
      modifies this`dir, this`table, this`leaked, heap`blocks, heap`lists, heap.words, heap.heads
      modifies pool`chains, pool`slots, pool`claimed, pool.version, pool.next, pool.entries
      ensures |outcomes| <= |ops| && |logs| == |outcomes| + 1 && logs[0] == old(View())
      ensures forall i {:trigger logs[i]} | 0 <= i < |logs| :: Consistent(logs[i], hash) && |logs[i].slots| == pool.mainSize
      ensures forall i {:trigger outcomes[i]} | 0 <= i < |outcomes| :: Step(logs[i].table, ops[i], outcomes[i], logs[i + 1].table)
      ensures if fault then |outcomes| < |ops| && ops[|outcomes|].PutOp? && (TooLarge(ops[|outcomes|].entry) || !heap.repaired)
              else Valid() && |outcomes| == |ops| && View() == logs[|ops|]
    {
      hide HeapInvariant.Inv, PoolInvariant.Inv, Consistent, Step, OpOk;
      Domain();
      outcomes, logs, fault := [], [View()], false;
      var i := 0;
      while i < |ops|
        invariant 0 <= i <= |ops| && Valid() && |outcomes| == i && |logs| == i + 1
        invariant logs[0] == old(View()) && logs[i] == View()
        invariant forall j {:trigger logs[j]} | 0 <= j <= i :: Consistent(logs[j], hash) && |logs[j].slots| == pool.mainSize
        invariant forall j {:trigger outcomes[j]} | 0 <= j < i :: Step(logs[j].table, ops[j], outcomes[j], logs[j + 1].table)
      {
        ghost var outcome;
        outcome, fault := Perform(ops[i]);
        if fault {
          return;
        }
        Domain();
        outcomes, logs := outcomes + [outcome], logs + [View()];
        i := i + 1;
      }
    }
  }

  // ---------- Runs of the lookup loop as written ----------

  function KeyOf(op: Op): Key {
    match op
    case PutOp(e, _) => e.key
    case GetOp(key, _) => key
    case RemoveOp(key, _) => key
  }

  /** The states and outcomes of a run that starts with an empty log. */
  ghost predicate IsRun(hash: Hash, mainSize: nat, ops: seq<Op>, outcomes: seq<Outcome>, logs: seq<Log>) {
    && |outcomes| == |ops| && |logs| == |ops| + 1 && logs[0].table == map[]
    && (forall i {:trigger logs[i]} | 0 <= i < |logs| :: Consistent(logs[i], hash) && |logs[i].slots| == mainSize)
    && (forall i {:trigger outcomes[i]} | 0 <= i < |outcomes| :: Step(logs[i].table, ops[i], outcomes[i], logs[i + 1].table))
  }

  /** The lookup of operation `i` ends as written. */
  ghost predicate Ends(hash: Hash, ops: seq<Op>, logs: seq<Log>, i: nat) {
    i < |ops| && i < |logs| && |logs[i].slots| > 0 && exists fuel: nat :: !LoopAsWritten(logs[i], hash, KeyOf(ops[i]), fuel).Running?
  }

  /** The key of operation `i` collides with no other stored key. */
  ghost predicate Apart(hash: Hash, mainSize: nat, ops: seq<Op>, logs: seq<Log>, i: nat) {
    i < |ops| && i < |logs| && ApartFrom(hash, mainSize, logs[i].table.Keys, KeyOf(ops[i]))
  }

  lemma TagsStep(hash: Hash, mainSize: nat, t: map<Key, Entry>, op: Op, out: Outcome, t': map<Key, Entry>)
    requires Step(t, op, out, t') && TagsApart(hash, mainSize, t.Keys) && ApartFrom(hash, mainSize, t.Keys, KeyOf(op))
    ensures TagsApart(hash, mainSize, t'.Keys)
  {
    assert t'.Keys <= t.Keys + {KeyOf(op)};
    hide Step;
    forall j, k {:trigger Collide(hash, mainSize, j, k)} | j in t'.Keys && k in t'.Keys ensures !Collide(hash, mainSize, j, k) {
      assert Collide(hash, mainSize, j, k) <==> Collide(hash, mainSize, k, j);
    }
  }

  lemma {:induction false} TagsStayApart(hash: Hash, mainSize: nat, ops: seq<Op>, outcomes: seq<Outcome>, logs: seq<Log>, i: nat)
    requires IsRun(hash, mainSize, ops, outcomes, logs) && i <= |ops|
    requires forall j | 0 <= j < i :: Apart(hash, mainSize, ops, logs, j)
    ensures TagsApart(hash, mainSize, logs[i].table.Keys)
  {
    hide Consistent, Collide, Step;
    if i > 0 {
      TagsStayApart(hash, mainSize, ops, outcomes, logs, i - 1);
      assert Apart(hash, mainSize, ops, logs, i - 1);
      assert Step(logs[i - 1].table, ops[i - 1], outcomes[i - 1], logs[i].table);
      TagsStep(hash, mainSize, logs[i - 1].table, ops[i - 1], outcomes[i - 1], logs[i].table);
    }
  }

  /** The first lookups ended; the next one ends exactly if its key collides with no other. */
  lemma NextLookup(hash: Hash, mainSize: nat, ops: seq<Op>, outcomes: seq<Outcome>, logs: seq<Log>, i: nat)
    requires IsRun(hash, mainSize, ops, outcomes, logs) && i < |ops|
    requires forall j | 0 <= j < i :: Apart(hash, mainSize, ops, logs, j)
    ensures Ends(hash, ops, logs, i) <==> Apart(hash, mainSize, ops, logs, i)
  {
    TagsStayApart(hash, mainSize, ops, outcomes, logs, i);
    assert logs[i].dir.Keys == logs[i].table.Keys;
    LookupEndsExactly(logs[i], hash, KeyOf(ops[i]), 1);
    if fuel: nat :| !LoopAsWritten(logs[i], hash, KeyOf(ops[i]), fuel).Running? {
      LookupEndsExactly(logs[i], hash, KeyOf(ops[i]), fuel);
    }
  }

  lemma {:induction false} AllApart(hash: Hash, mainSize: nat, ops: seq<Op>, outcomes: seq<Outcome>, logs: seq<Log>, i: nat)
    requires IsRun(hash, mainSize, ops, outcomes, logs) && i <= |ops| && forall j | 0 <= j < |ops| :: Ends(hash, ops, logs, j)
    ensures forall j | 0 <= j < i :: Apart(hash, mainSize, ops, logs, j)
  {
    hide Ends, Apart, IsRun;
    if i > 0 {
      assert i - 1 < |ops|;
      AllApart(hash, mainSize, ops, outcomes, logs, i - 1);
      NextLookup(hash, mainSize, ops, outcomes, logs, i - 1);
    }
  }

  /** From an empty log on, all lookups end as written if and only if no operation is on a key that
      collides with another key stored at that time.  The first that does runs forever, a put or
      remove with the bucket's lock held. */
  lemma RunAsWritten(hash: Hash, mainSize: nat, ops: seq<Op>, outcomes: seq<Outcome>, logs: seq<Log>)
    requires IsRun(hash, mainSize, ops, outcomes, logs)
    ensures (forall i | 0 <= i < |ops| :: Ends(hash, ops, logs, i)) <==> (forall i | 0 <= i < |ops| :: Apart(hash, mainSize, ops, logs, i))
  {
    hide Ends, Apart, IsRun;
    if forall i | 0 <= i < |ops| :: Ends(hash, ops, logs, i) {
      AllApart(hash, mainSize, ops, outcomes, logs, |ops|);
    }
    if forall i | 0 <= i < |ops| :: Apart(hash, mainSize, ops, logs, i) {
      forall i | 0 <= i < |ops| ensures Ends(hash, ops, logs, i) {
        NextLookup(hash, mainSize, ops, outcomes, logs, i);
      }
    }
  }
}
