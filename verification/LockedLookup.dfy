/** The lock-free lookup of a key as a reader of the version lock's step system.

    Memory is one array of cells: the buckets' entries (tag and offset packed in one word), the
    buckets' next offsets, then the words of the heap.  A lookup is a machine that fetches one cell
    at a time.  On the memory of a consistent log it stays within its bucket's cells and answers
    what the table says, which is what the version lock asks of its readers. */
module LockedLookup {
  import opened Arithmetic
  import opened PoolInvariant
  import opened BucketPool
  import opened LogEntry
  import opened LogIndex
  import opened VersionLock
  import HeapInvariant
  import Blocks

  const TAG_RANGE := 0x1_0000

  /** An index entry as one word: 16 bits of tag, then the offset. */
  function Pack(x: Slot): int {
    x.tag + TAG_RANGE * x.offset
  }

  /** The fixed parts of a lookup: number of buckets, the log's byte offset, the key, its hash, and
      its main bucket. */
  datatype Query = Query(total: nat, base: nat, key: Key, keyhash: nat, main: nat)

  /** Where a lookup is: at slot `i` of bucket `b`, the `k`-th of its chain; at that bucket's next
      offset; at the key length or a key byte of the entry at heap word `a`; copying that entry;
      or at its end. */
  datatype Cursor = AtSlot(b: nat, i: nat, k: nat)
                  | AtNext(b: nat, k: nat)
                  | AtLength(b: nat, i: nat, k: nat, a: nat)
                  | AtByte(b: nat, i: nat, k: nat, a: nat, j: nat)
                  | AtSize(a: nat)
                  | AtBody(a: nat, n: nat, copied: seq<int>)
                  | Hit(entry: seq<int>) | Miss | Lost

  function CellOf(q: Query, cur: Cursor): nat {
    match cur
    case AtSlot(b, i, _) => BUCKET_ENTRIES * b + i
    case AtNext(b, _) => BUCKET_ENTRIES * q.total + b
    case AtLength(_, _, _, a) => (BUCKET_ENTRIES + 1) * q.total + a + 2
    case AtByte(_, _, _, a, j) => (BUCKET_ENTRIES + 1) * q.total + a + HEADER_WORDS + j / 8
    case AtSize(a) => (BUCKET_ENTRIES + 1) * q.total + a
    case AtBody(a, _, copied) => (BUCKET_ENTRIES + 1) * q.total + a + |copied|
    case _ => 0
  }

  predicate AtEnd(cur: Cursor) {
    cur.Hit? || cur.Miss? || cur.Lost?
  }

  function AfterSlot(b: nat, i: nat, k: nat): Cursor {
    if i + 1 < BUCKET_ENTRIES then AtSlot(b, i + 1, k) else AtNext(b, k)
  }

  /** One fetched value moves the lookup on. */
  function Advance(q: Query, cur: Cursor, v: int): Cursor {
    match cur
    case AtSlot(b, i, k) =>
      if v % TAG_RANGE != TagOf(q.keyhash) then AfterSlot(b, i, k)
      else if v / TAG_RANGE < q.base then Lost
      else AtLength(b, i, k, (v / TAG_RANGE - q.base) / 8)
    case AtNext(b, k) =>
      if v == 0 then Miss else if v < 0 then Lost else AtSlot(b + v / BUCKET_BYTES, 0, k + 1)
    case AtLength(b, i, k, a) =>
      if v % MAX_UINT32 != |q.key| then AfterSlot(b, i, k)
      else if |q.key| == 0 then AtSize(a)
      else AtByte(b, i, k, a, 0)
    case AtByte(b, i, k, a, j) =>
      if j >= |q.key| then Lost
      else if ByteOf(v, j % 8) != q.key[j] then AfterSlot(b, i, k)
      else if j + 1 == |q.key| then AtSize(a)
      else AtByte(b, i, k, a, j + 1)
    case AtSize(a) =>
      if v < HEADER_BYTES then Lost else AtBody(a, HEADER_WORDS + DataWords(v - HEADER_BYTES), [])
    case AtBody(a, n, copied) =>
      if |copied| + 1 == n then Hit(copied + [v]) else AtBody(a, n, copied + [v])
    case _ => cur
  }

  function Position(q: Query, seen: seq<int>): Cursor {
    if seen == [] then AtSlot(q.main, 0, 0)
    else Advance(q, Position(q, seen[..|seen| - 1]), seen[|seen| - 1])
  }

  function LookupMove(q: Query, seen: seq<int>): Move {
    var cur := Position(q, seen);
    if AtEnd(cur) then Done else Fetch(CellOf(q, cur))
  }

  // ---------- A chain of a consistent log in memory ----------

  /** Of index, heap and table, the part that chain `m` is about. */
  ghost predicate ChainConsistent(p: Pool, l: Log, hash: Hash, m: nat) {
    && m < |p.chains| == |p.slots| == |l.slots| && l.slots[m] == p.slots[m]
    && ChainOk(p, m) && Clean(p.slots[m]) && l.dir.Keys == l.table.Keys
    && (forall k {:trigger LinkOk(p, m, k)} | 0 <= k < |p.chains[m]| :: LinkOk(p, m, k))
    && (forall k, i {:trigger SlotOk(p, m, k, i)} | 0 <= k < |p.chains[m]| && 0 <= i < BUCKET_ENTRIES :: SlotOk(p, m, k, i))
    && (forall key {:trigger KeyOk(l, hash, key)} | key in l.dir && ChainOf(l, hash, key) == m :: KeyOk(l, hash, key))
    && (forall j, k {:trigger l.dir[j], l.dir[k]} | j in l.dir && k in l.dir && l.dir[j] == l.dir[k] :: j == k)
    && (forall x {:trigger Named(l, hash, m, x)} | x in l.slots[m] && x.tag != 0 :: Named(l, hash, m, x))
  }

  /** Every chain of a consistent log is consistent. */
  lemma ChainOfConsistent(p: Pool, l: Log, hash: Hash, m: nat)
    requires PoolInvariant.Inv(p) && Consistent(l, hash) && l.slots == p.slots && m < |p.chains|
    ensures ChainConsistent(p, l, hash, m)
  {
    assert ChainOk(p, m) && Clean(p.slots[m]);
  }

  /** The `k`-th bucket of chain `m` is in its cells, and they belong to the chain. */
  ghost predicate BucketIn(mem: seq<int>, owner: seq<int>, p: Pool, m: nat, k: nat) {
    && |mem| == |owner| && m < |p.chains| && k < |p.chains[m]|
    && var b := p.chains[m][k];
    && b < |p.next| && |p.entries| == BUCKET_ENTRIES * |p.next| && (BUCKET_ENTRIES + 1) * |p.next| <= |mem|
    && mem[BUCKET_ENTRIES * |p.next| + b] == p.next[b] && owner[BUCKET_ENTRIES * |p.next| + b] == m
    && (forall i {:trigger mem[i]} {:trigger owner[i]} | BUCKET_ENTRIES * b <= i < BUCKET_ENTRIES * (b + 1) ::
          mem[i] == Pack(p.entries[i]) && owner[i] == m)
  }

  /** A key's entry is in its cells, and they belong to the key's chain. */
  ghost predicate EntryIn(mem: seq<int>, owner: seq<int>, p: Pool, l: Log, hash: Hash, key: Key) {
    && |mem| == |owner| && key in l.dir && key in l.table && |l.slots| > 0
    && var a, n, h := l.dir[key] + 1, HEADER_WORDS + DataWords(|l.table[key].Data()|), (BUCKET_ENTRIES + 1) * |p.next|;
    && h + a + n <= |mem| && a + n <= |l.v.w|
    && forall i {:trigger mem[i]} {:trigger owner[i]} | h + a <= i < h + a + n :: mem[i] == l.v.w[i - h] && owner[i] == ChainOf(l, hash, key)
  }

  /** The cells of chain `m` are those of a consistent log. */
  ghost predicate Published(mem: seq<int>, owner: seq<int>, p: Pool, l: Log, hash: Hash, m: nat) {
    && |mem| == |owner| && m < |p.chains| == |l.slots| && ChainConsistent(p, l, hash, m)
    && (forall k {:trigger BucketIn(mem, owner, p, m, k)} | 0 <= k < |p.chains[m]| :: BucketIn(mem, owner, p, m, k))
    && (forall key {:trigger EntryIn(mem, owner, p, l, hash, key)} | key in l.dir && ChainOf(l, hash, key) == m :: EntryIn(mem, owner, p, l, hash, key))
  }

  /** What a chain publishes stays published while its cells do not change. */
  lemma PublishedFrozen(mem0: seq<int>, owner0: seq<int>, mem: seq<int>, owner: seq<int>, p: Pool, l: Log, hash: Hash, m: nat)
    requires Published(mem0, owner0, p, l, hash, m) && Frozen(mem0, owner0, mem, owner, m)
    ensures Published(mem, owner, p, l, hash, m)
  {
    hide ChainConsistent;
    forall k {:trigger BucketIn(mem, owner, p, m, k)} | 0 <= k < |p.chains[m]| ensures BucketIn(mem, owner, p, m, k) {
      assert BucketIn(mem0, owner0, p, m, k);
    }
    forall key {:trigger EntryIn(mem, owner, p, l, hash, key)} | key in l.dir && ChainOf(l, hash, key) == m
      ensures EntryIn(mem, owner, p, l, hash, key)
    {
      assert EntryIn(mem0, owner0, p, l, hash, key);
    }
  }

  ghost predicate QueryOk(q: Query, p: Pool, l: Log, hash: Hash) {
    && q.total == |p.next| && q.base == l.base && q.keyhash == hash(q.key)
    && |l.slots| > 0 && q.main == ChainOf(l, hash, q.key)
  }

  // ---------- What a lookup knows ----------

  /** The key's slot is not among the first `n` of its chain. */
  ghost predicate NotBefore(q: Query, l: Log, hash: Hash, n: nat) {
    q.main < |l.slots| && n <= |l.slots[q.main]| &&
    (q.key in l.dir ==> SlotOf(l, hash, q.key) !in l.slots[q.main][..n])
  }

  ghost predicate OnChain(q: Query, p: Pool, b: nat, k: nat) {
    q.main < |p.chains| && k < |p.chains[q.main]| && b == p.chains[q.main][k]
  }

  /** Slot `i` of the `k`-th bucket is that of key `other`, whose entry is at `a`. */
  ghost predicate Candidate(q: Query, p: Pool, l: Log, hash: Hash, b: nat, i: nat, k: nat, a: nat, other: Key) {
    && OnChain(q, p, b, k) && i < BUCKET_ENTRIES && NotBefore(q, l, hash, BUCKET_ENTRIES * k + i)
    && BUCKET_ENTRIES * k + i < |l.slots[q.main]|
    && KeyOk(l, hash, other) && ChainOf(l, hash, other) == q.main
    && l.slots[q.main][BUCKET_ENTRIES * k + i] == SlotOf(l, hash, other) && a == l.dir[other] + 1
  }

  ghost predicate Known(q: Query, p: Pool, l: Log, hash: Hash, cur: Cursor) {
    match cur
    case AtSlot(b, i, k) => OnChain(q, p, b, k) && i < BUCKET_ENTRIES && NotBefore(q, l, hash, BUCKET_ENTRIES * k + i)
    case AtNext(b, k) => OnChain(q, p, b, k) && NotBefore(q, l, hash, BUCKET_ENTRIES * (k + 1))
    case AtLength(b, i, k, a) => exists other :: Candidate(q, p, l, hash, b, i, k, a, other)
    case AtByte(b, i, k, a, j) =>
      exists other :: Candidate(q, p, l, hash, b, i, k, a, other) && |other| == |q.key| && j < |q.key| && other[..j] == q.key[..j]
    case AtSize(a) => KeyOk(l, hash, q.key) && a == l.dir[q.key] + 1
    case AtBody(a, n, copied) =>
      && KeyOk(l, hash, q.key) && a == l.dir[q.key] + 1 && n == HEADER_WORDS + DataWords(|l.table[q.key].Data()|)
      && |copied| < n && copied == l.v.w[a..a + |copied|]
    case Hit(entry) => q.key in l.table && Holds(entry, 0, l.table[q.key], q.keyhash)
    case Miss => q.key !in l.table
    case Lost => false
  }

  /** On published memory, a lookup that knows its way fetches a cell of its bucket. */
  ghost predicate Moves(q: Query, p: Pool, l: Log, hash: Hash, mem: seq<int>, owner: seq<int>, cur: Cursor) {
    && CellOf(q, cur) < |mem| == |owner| && owner[CellOf(q, cur)] == q.main
    && Known(q, p, l, hash, Advance(q, cur, mem[CellOf(q, cur)]))
  }

  /** A slot that is not the key's is behind. */
  lemma PassSlot(q: Query, p: Pool, l: Log, hash: Hash, b: nat, i: nat, k: nat)
    requires OnChain(q, p, b, k) && i < BUCKET_ENTRIES
    requires NotBefore(q, l, hash, BUCKET_ENTRIES * k + i)
    requires BUCKET_ENTRIES * k + i < |l.slots[q.main]|
    requires q.key in l.dir ==> l.slots[q.main][BUCKET_ENTRIES * k + i] != SlotOf(l, hash, q.key)
    ensures Known(q, p, l, hash, AfterSlot(b, i, k))
  {
    var n := BUCKET_ENTRIES * k + i;
    assert l.slots[q.main][..n + 1] == l.slots[q.main][..n] + [l.slots[q.main][n]];
  }

  lemma PackUnpack(x: Slot)
    requires x.tag < TAG_RANGE
    ensures Pack(x) % TAG_RANGE == x.tag && Pack(x) / TAG_RANGE == x.offset
  {
    Remainder(Pack(x), x.offset, x.tag, TAG_RANGE);
  }

  /** The slot's key is another than `q.key`, so the slot is not `q.key`'s. */
  lemma OtherSlot(q: Query, p: Pool, l: Log, hash: Hash, b: nat, i: nat, k: nat, a: nat, other: Key)
    requires ChainConsistent(p, l, hash, q.main)
    requires Candidate(q, p, l, hash, b, i, k, a, other) && other != q.key
    ensures Known(q, p, l, hash, AfterSlot(b, i, k))
  {
    if q.key in l.dir {
      assert l.dir[other] != l.dir[q.key];
    }
    PassSlot(q, p, l, hash, b, i, k);
  }

  lemma StepSlot(q: Query, p: Pool, l: Log, hash: Hash, b: nat, i: nat, k: nat)
    requires ChainConsistent(p, l, hash, q.main) && QueryOk(q, p, l, hash)
    requires OnChain(q, p, b, k) && i < BUCKET_ENTRIES && NotBefore(q, l, hash, BUCKET_ENTRIES * k + i)
    requires BUCKET_ENTRIES * k + i < |l.slots[q.main]|
    ensures Known(q, p, l, hash, Advance(q, AtSlot(b, i, k), Pack(l.slots[q.main][BUCKET_ENTRIES * k + i])))
  {
    var m := q.main;
    var x := l.slots[m][BUCKET_ENTRIES * k + i];
    hide Pack;
    if x.tag != 0 {
      assert Named(l, hash, m, x);
      var other :| Names(l, hash, m, x, other);
      assert KeyOk(l, hash, other);
      PackUnpack(x);
      if x.tag == TagOf(q.keyhash) {
        assert Candidate(q, p, l, hash, b, i, k, l.dir[other] + 1, other);
      } else {
        PassSlot(q, p, l, hash, b, i, k);
      }
    } else {
      PackUnpack(x);
      PassSlot(q, p, l, hash, b, i, k);
    }
  }

  lemma MoveSlot(q: Query, p: Pool, l: Log, hash: Hash, mem: seq<int>, owner: seq<int>, b: nat, i: nat, k: nat)
    requires Published(mem, owner, p, l, hash, q.main) && QueryOk(q, p, l, hash) && Known(q, p, l, hash, AtSlot(b, i, k))
    ensures Moves(q, p, l, hash, mem, owner, AtSlot(b, i, k))
  {
    assert SlotOk(p, q.main, k, i) && BucketIn(mem, owner, p, q.main, k);
    assert mem[BUCKET_ENTRIES * b + i] == Pack(p.entries[BUCKET_ENTRIES * b + i]);
    hide Published, Advance, Pack;
    PublishedFacts(mem, owner, p, l, hash, q.main);
    StepSlot(q, p, l, hash, b, i, k);
  }

  lemma MoveNext(q: Query, p: Pool, l: Log, hash: Hash, mem: seq<int>, owner: seq<int>, b: nat, k: nat)
    requires Published(mem, owner, p, l, hash, q.main) && QueryOk(q, p, l, hash) && Known(q, p, l, hash, AtNext(b, k))
    ensures Moves(q, p, l, hash, mem, owner, AtNext(b, k))
  {
    var m := q.main;
    assert LinkOk(p, m, k) && ChainOk(p, m) && BucketIn(mem, owner, p, m, k);
    var v := p.next[b];
    assert mem[BUCKET_ENTRIES * q.total + b] == v;
    if k + 1 < |p.chains[m]| {
      Remainder(v, p.chains[m][k + 1] - b, 0, BUCKET_BYTES);
    } else {
      assert q.key in l.dir ==> KeyOk(l, hash, q.key);
      assert l.slots[m][..BUCKET_ENTRIES * (k + 1)] == l.slots[m];
    }
  }

  /** Word `r` of a key's entry, as a cell. */
  lemma EntryCell(p: Pool, l: Log, hash: Hash, mem: seq<int>, owner: seq<int>, key: Key, r: nat, m: nat)
    requires Published(mem, owner, p, l, hash, m) && key in l.dir && key in l.table && ChainOf(l, hash, key) == m
    requires r < HEADER_WORDS + DataWords(|l.table[key].Data()|)
    ensures KeyOk(l, hash, key)
    ensures var a := l.dir[key] + 1;
      var i := (BUCKET_ENTRIES + 1) * |p.next| + a + r;
      i < |mem| == |owner| && a + r < |l.v.w| && mem[i] == l.v.w[a + r] && owner[i] == m
  {
    assert KeyOk(l, hash, key) && EntryIn(mem, owner, p, l, hash, key);
  }

  lemma PublishedFacts(mem: seq<int>, owner: seq<int>, p: Pool, l: Log, hash: Hash, m: nat)
    requires Published(mem, owner, p, l, hash, m)
    ensures ChainConsistent(p, l, hash, m) && |mem| == |owner|
  {}

  lemma MoveLength(q: Query, p: Pool, l: Log, hash: Hash, mem: seq<int>, owner: seq<int>, b: nat, i: nat, k: nat, a: nat)
    requires Published(mem, owner, p, l, hash, q.main) && QueryOk(q, p, l, hash) && Known(q, p, l, hash, AtLength(b, i, k, a))
    ensures Moves(q, p, l, hash, mem, owner, AtLength(b, i, k, a))
  {
    var other :| Candidate(q, p, l, hash, b, i, k, a, other);
    hide Published, ChainConsistent;
    PublishedFacts(mem, owner, p, l, hash, q.main);
    EntryCell(p, l, hash, mem, owner, other, 2, q.main);
    var e, v := l.table[other], l.v.w[a + 2];
    Remainder(v, |e.val|, |e.key|, MAX_UINT32);
    if |other| != |q.key| {
      OtherSlot(q, p, l, hash, b, i, k, a, other);
    } else {
      assert other[..0] == q.key[..0];
    }
  }

  lemma StepByte(q: Query, p: Pool, l: Log, hash: Hash, b: nat, i: nat, k: nat, a: nat, j: nat, other: Key)
    requires ChainConsistent(p, l, hash, q.main) && q.keyhash == hash(q.key)
    requires Candidate(q, p, l, hash, b, i, k, a, other) && |other| == |q.key| && j < |q.key| && other[..j] == q.key[..j]
    ensures a + HEADER_WORDS + j / 8 < |l.v.w|
    ensures Known(q, p, l, hash, Advance(q, AtByte(b, i, k, a, j), l.v.w[a + HEADER_WORDS + j / 8]))
  {
    hide ChainConsistent, ByteOf;
    var e := l.table[other];
    assert DataByte(l.v.w, a, j) == e.Data()[j] == other[j];
    if other[j] != q.key[j] {
      OtherSlot(q, p, l, hash, b, i, k, a, other);
    } else {
      SamePrefix(other, q.key, j);
    }
  }

  lemma SamePrefix(x: Key, y: Key, j: nat)
    requires |x| == |y| && j < |x| && x[..j] == y[..j] && x[j] == y[j]
    ensures x[..j + 1] == y[..j + 1] && (j + 1 == |x| ==> x == y)
  {
    assert x[..j + 1] == x[..j] + [x[j]] && y[..j + 1] == y[..j] + [y[j]];
    if j + 1 == |x| {
      assert x[..j + 1] == x && y[..j + 1] == y;
    }
  }

  lemma CandidateByte(q: Query, p: Pool, l: Log, hash: Hash, b: nat, i: nat, k: nat, a: nat, other: Key, j: nat)
    requires Candidate(q, p, l, hash, b, i, k, a, other) && j < |other|
    ensures other in l.dir && other in l.table && a == l.dir[other] + 1 && ChainOf(l, hash, other) == q.main
    ensures j / 8 < DataWords(|l.table[other].Data()|)
  {}

  lemma MoveByteOf(q: Query, p: Pool, l: Log, hash: Hash, mem: seq<int>, owner: seq<int>, b: nat, i: nat, k: nat, a: nat, j: nat, other: Key)
    requires Published(mem, owner, p, l, hash, q.main) && QueryOk(q, p, l, hash)
    requires Candidate(q, p, l, hash, b, i, k, a, other) && |other| == |q.key| && j < |q.key| && other[..j] == q.key[..j]
    ensures Moves(q, p, l, hash, mem, owner, AtByte(b, i, k, a, j))
  {
    hide Published, ChainConsistent, Known, Advance, Candidate, KeyOk, ByteOf, DataWords;
    CandidateByte(q, p, l, hash, b, i, k, a, other, j);
    PublishedFacts(mem, owner, p, l, hash, q.main);
    EntryCell(p, l, hash, mem, owner, other, HEADER_WORDS + j / 8, q.main);
    StepByte(q, p, l, hash, b, i, k, a, j, other);
  }

  lemma MoveByte(q: Query, p: Pool, l: Log, hash: Hash, mem: seq<int>, owner: seq<int>, b: nat, i: nat, k: nat, a: nat, j: nat)
    requires Published(mem, owner, p, l, hash, q.main) && QueryOk(q, p, l, hash) && Known(q, p, l, hash, AtByte(b, i, k, a, j))
    ensures Moves(q, p, l, hash, mem, owner, AtByte(b, i, k, a, j))
  {
    hide Published, QueryOk, Moves, Candidate;
    var other :| Candidate(q, p, l, hash, b, i, k, a, other) && |other| == |q.key| && j < |q.key| && other[..j] == q.key[..j];
    MoveByteOf(q, p, l, hash, mem, owner, b, i, k, a, j, other);
  }

  lemma MoveSize(q: Query, p: Pool, l: Log, hash: Hash, mem: seq<int>, owner: seq<int>, a: nat)
    requires Published(mem, owner, p, l, hash, q.main) && QueryOk(q, p, l, hash) && Known(q, p, l, hash, AtSize(a))
    ensures Moves(q, p, l, hash, mem, owner, AtSize(a))
  {
    hide Published;
    EntryCell(p, l, hash, mem, owner, q.key, 0, q.main);
  }

  /** An entry copied word by word is the entry. */
  lemma HoldsCopy(w: seq<int>, a: nat, e: Entry, h: nat)
    requires Holds(w, a, e, h)
    ensures Holds(w[a..a + HEADER_WORDS + DataWords(|e.Data()|)], 0, e, h)
  {
    var n := HEADER_WORDS + DataWords(|e.Data()|);
    var u := w[a..a + n];
    forall i {:trigger e.Data()[i]} | 0 <= i < |e.Data()| ensures DataByte(u, 0, i) == e.Data()[i] {
      assert DataByte(w, a, i) == e.Data()[i];
    }
  }

  lemma StepBody(q: Query, p: Pool, l: Log, hash: Hash, a: nat, n: nat, copied: seq<int>)
    requires QueryOk(q, p, l, hash) && Known(q, p, l, hash, AtBody(a, n, copied))
    ensures q.key in l.dir && q.key in l.table && a == l.dir[q.key] + 1 && a + |copied| < |l.v.w|
    ensures |copied| < HEADER_WORDS + DataWords(|l.table[q.key].Data()|)
    ensures Known(q, p, l, hash, Advance(q, AtBody(a, n, copied), l.v.w[a + |copied|]))
  {
    hide ByteOf, DataByte;
    var v := l.v.w[a + |copied|];
    assert copied + [v] == l.v.w[a..a + |copied| + 1];
    HoldsCopy(l.v.w, a, l.table[q.key], q.keyhash);
  }

  lemma MoveBody(q: Query, p: Pool, l: Log, hash: Hash, mem: seq<int>, owner: seq<int>, a: nat, n: nat, copied: seq<int>)
    requires Published(mem, owner, p, l, hash, q.main) && QueryOk(q, p, l, hash) && Known(q, p, l, hash, AtBody(a, n, copied))
    ensures Moves(q, p, l, hash, mem, owner, AtBody(a, n, copied))
  {
    hide Published, Known, Advance, KeyOk, DataWords;
    StepBody(q, p, l, hash, a, n, copied);
    PublishedFacts(mem, owner, p, l, hash, q.main);
    EntryCell(p, l, hash, mem, owner, q.key, |copied|, q.main);
  }

  lemma Move(q: Query, p: Pool, l: Log, hash: Hash, mem: seq<int>, owner: seq<int>, cur: Cursor)
    requires Published(mem, owner, p, l, hash, q.main) && QueryOk(q, p, l, hash) && Known(q, p, l, hash, cur) && !AtEnd(cur)
    ensures Moves(q, p, l, hash, mem, owner, cur)
  {
    hide Published, QueryOk, Known, Moves;
    match cur
    case AtSlot(b, i, k) => MoveSlot(q, p, l, hash, mem, owner, b, i, k);
    case AtNext(b, k) => MoveNext(q, p, l, hash, mem, owner, b, k);
    case AtLength(b, i, k, a) => MoveLength(q, p, l, hash, mem, owner, b, i, k, a);
    case AtByte(b, i, k, a, j) => MoveByte(q, p, l, hash, mem, owner, b, i, k, a, j);
    case AtSize(a) => MoveSize(q, p, l, hash, mem, owner, a);
    case AtBody(a, n, copied) => MoveBody(q, p, l, hash, mem, owner, a, n, copied);
  }

  /** An operation on a key of chain `m` writes no cell of another chain: neither of its buckets nor
      of its keys' entries.  So it is a writer as the version lock wants it. */
  lemma OtherChainsUntouched(p: Pool, l: Log, p': Pool, l': Log, hash: Hash, key: Key, m: nat, n: nat)
    requires PoolInvariant.Inv(p) && Consistent(l, hash) && l.slots == p.slots
    requires PoolInvariant.Inv(p') && Consistent(l', hash) && l'.slots == p'.slots && |p'.next| == |p.next|
    requires OthersKept(p.chains, l, p'.chains, l', key, m) && m == ChainOf(l, hash, key) && n < |p.chains| && n != m
    ensures p'.chains[n] == p.chains[n] && p'.slots[n] == p.slots[n]
    ensures forall k, i | 0 <= k < |p.chains[n]| && 0 <= i < BUCKET_ENTRIES ::
              BucketKept(p, p', p.chains[n][k], i)
    ensures forall other {:trigger l.dir[other]} | other in l.dir && ChainOf(l, hash, other) == n ::
              other in l'.dir && l'.dir[other] == l.dir[other] && l'.table[other] == l.table[other] && KeepsEntry(l, l', other)
  {
    assert l'.slots[n] == l.slots[n];
    forall k, i | 0 <= k < |p.chains[n]| && 0 <= i < BUCKET_ENTRIES ensures BucketKept(p, p', p.chains[n][k], i) {
      assert SlotOk(p, n, k, i) && SlotOk(p', n, k, i) && LinkOk(p, n, k) && LinkOk(p', n, k);
    }
    forall other {:trigger l.dir[other]} | other in l.dir && ChainOf(l, hash, other) == n
      ensures other in l'.dir && l'.dir[other] == l.dir[other] && l'.table[other] == l.table[other] && KeepsEntry(l, l', other)
    {
      assert KeyOk(l, hash, other);
      assert HeapInvariant.KeepsBlock(l.v, l'.v, l.dir[other]);
      assert other in l.table - {key} && (l.table - {key})[other] == l.table[other] && (l'.table - {key})[other] == l'.table[other];
    }
  }

  ghost predicate BucketKept(p: Pool, p': Pool, b: nat, i: nat) {
    && b < |p.next| == |p'.next| && BUCKET_ENTRIES * b + i < |p.entries| == |p'.entries|
    && p'.next[b] == p.next[b] && p'.entries[BUCKET_ENTRIES * b + i] == p.entries[BUCKET_ENTRIES * b + i]
  }

  ghost predicate KeepsEntry(l: Log, l': Log, key: Key) {
    key in l.dir && HeapInvariant.KeepsBlock(l.v, l'.v, l.dir[key])
  }

  // ---------- Lookups as readers of the version lock ----------

  /** A reader whose moves are those of the lookup `q`. */
  ghost predicate LooksUp(c: Config, t: nat, q: Query) {
    c.target(t) == q.main && forall seen {:trigger LookupMove(q, seen)} :: c.reader(t, seen) == LookupMove(q, seen)
  }

  lemma {:induction false} ReplayKnows(c: Config, t: nat, q: Query, p: Pool, l: Log, hash: Hash,
                                       mem: seq<int>, owner: seq<int>, seen: seq<int>)
    requires LooksUp(c, t, q) && Published(mem, owner, p, l, hash, q.main) && QueryOk(q, p, l, hash)
    requires Replays(c, t, mem, seen)
    ensures Known(q, p, l, hash, Position(q, seen))
    decreases |seen|
  {
    if seen == [] {
      Beginning(q, p, l, hash);
    } else {
      hide Published, Known, Moves, QueryOk;
      var before := seen[..|seen| - 1];
      ReplayKnows(c, t, q, p, l, hash, mem, owner, before);
      assert c.reader(t, before) == LookupMove(q, before);
      Move(q, p, l, hash, mem, owner, Position(q, before));
      MovesOn(q, p, l, hash, mem, owner, Position(q, before));
    }
  }

  lemma MovesOn(q: Query, p: Pool, l: Log, hash: Hash, mem: seq<int>, owner: seq<int>, cur: Cursor)
    requires Moves(q, p, l, hash, mem, owner, cur)
    ensures CellOf(q, cur) < |mem| == |owner| && owner[CellOf(q, cur)] == q.main
    ensures Known(q, p, l, hash, Advance(q, cur, mem[CellOf(q, cur)]))
  {}

  lemma Beginning(q: Query, p: Pool, l: Log, hash: Hash)
    requires ChainConsistent(p, l, hash, q.main)
    ensures Known(q, p, l, hash, AtSlot(q.main, 0, 0))
  {
    assert LinkOk(p, q.main, 0);
  }

  /** A lookup alone on a published chain stays within the chain's cells. */
  lemma LookupConfined(c: Config, t: nat, q: Query, p: Pool, l: Log, hash: Hash, mem: seq<int>, owner: seq<int>)
    requires LooksUp(c, t, q) && Published(mem, owner, p, l, hash, q.main) && QueryOk(q, p, l, hash)
    ensures Confined(c, t, mem, owner)
  {
    forall seen {:trigger Replays(c, t, mem, seen)} | Replays(c, t, mem, seen) && c.reader(t, seen).Fetch?
      ensures c.reader(t, seen).cell < |mem| && owner[c.reader(t, seen).cell] == c.target(t)
    {
      ReplayKnows(c, t, q, p, l, hash, mem, owner, seen);
      assert c.reader(t, seen) == LookupMove(q, seen);
      Move(q, p, l, hash, mem, owner, Position(q, seen));
    }
  }

  /** What a finished lookup says: the entry the table binds to the key, word for word, or nothing
      if the key is not bound. */
  ghost predicate Answers(q: Query, l: Log, answer: seq<int>) {
    var end := Position(q, answer);
    if q.key in l.table then end.Hit? && Holds(end.entry, 0, l.table[q.key], q.keyhash) else end.Miss?
  }

  // ---------- A lookup ends ----------

  /** What `r` slots can cost: the slot, the key length, and the bytes of the key, each. */
  function SlotsCost(q: Query, r: int): int {
    r * (|q.key| + 2)
  }

  lemma OneSlotCost(q: Query, r: int)
    ensures SlotsCost(q, r) == SlotsCost(q, r - 1) + |q.key| + 2
    ensures r >= 0 ==> SlotsCost(q, r) >= 0
  {}

  lemma CostAtLeast(q: Query, r: int)
    ensures r >= 0 ==> SlotsCost(q, r) >= 0
    ensures r >= 1 ==> SlotsCost(q, r) >= |q.key| + 2
  {
    OneSlotCost(q, r);
    OneSlotCost(q, r - 1);
  }

  /** What reading the key's entry costs, if there is one: its size, and its words. */
  ghost function EntryCost(q: Query, l: Log): nat {
    1 + if q.key in l.table then HEADER_WORDS + DataWords(|l.table[q.key].Data()|) else 0
  }

  /** A bound on the fetches that are left. */
  ghost function FetchesLeft(q: Query, p: Pool, l: Log, cur: Cursor): int
    requires q.main < |p.chains|
  {
    var n := |p.chains[q.main]|;
    match cur
    case AtSlot(_, i, k) => SlotsCost(q, BUCKET_ENTRIES * (n - k) - i) + (n - k) + EntryCost(q, l)
    case AtNext(_, k) => SlotsCost(q, BUCKET_ENTRIES * (n - k) - BUCKET_ENTRIES) + (n - k) + EntryCost(q, l)
    case AtLength(_, i, k, _) => SlotsCost(q, BUCKET_ENTRIES * (n - k) - i) - 1 + (n - k) + EntryCost(q, l)
    case AtByte(_, i, k, _, j) => SlotsCost(q, BUCKET_ENTRIES * (n - k) - i) - 2 - j + (n - k) + EntryCost(q, l)
    case AtSize(_) => EntryCost(q, l)
    case AtBody(_, m, copied) => m - |copied|
    case _ => 0
  }

  /** The whole lookup: every slot of the chain, every link, and one entry. */
  ghost function FetchBound(q: Query, p: Pool, l: Log): nat
    requires q.main < |p.chains|
  {
    OneSlotCost(q, BUCKET_ENTRIES * |p.chains[q.main]|);
    FetchesLeft(q, p, l, AtSlot(q.main, 0, 0))
  }

  /** Where a lookup that knows its way can be. */
  ghost predicate Placed(q: Query, p: Pool, l: Log, cur: Cursor)
    requires q.main < |p.chains|
  {
    var n := |p.chains[q.main]|;
    match cur
    case AtSlot(_, i, k) => k < n && i < BUCKET_ENTRIES && SlotsCost(q, BUCKET_ENTRIES * (n - k) - i) >= 0
    case AtNext(_, k) => k < n && SlotsCost(q, BUCKET_ENTRIES * (n - k) - BUCKET_ENTRIES) >= 0
    case AtLength(_, i, k, _) => k < n && i < BUCKET_ENTRIES && SlotsCost(q, BUCKET_ENTRIES * (n - k) - i) >= |q.key| + 2
    case AtByte(_, i, k, _, j) => k < n && i < BUCKET_ENTRIES && j < |q.key| && SlotsCost(q, BUCKET_ENTRIES * (n - k) - i) >= |q.key| + 2
    case AtBody(_, m, copied) => |copied| < m && m + 1 == EntryCost(q, l)
    case Lost => false
    case _ => true
  }

  lemma PositionFacts(q: Query, p: Pool, l: Log, hash: Hash, cur: Cursor)
    requires q.main < |p.chains| && Known(q, p, l, hash, cur)
    ensures Placed(q, p, l, cur)
  {
    hide SlotsCost, NotBefore, TagOf, Holds, ChainOf;
    var n := |p.chains[q.main]|;
    match cur {
      case AtSlot(_, i, k) => CostAtLeast(q, BUCKET_ENTRIES * (n - k) - i);
      case AtNext(_, k) => CostAtLeast(q, BUCKET_ENTRIES * (n - k) - BUCKET_ENTRIES);
      case AtLength(b, i, k, a) =>
        var other :| Candidate(q, p, l, hash, b, i, k, a, other);
        CostAtLeast(q, BUCKET_ENTRIES * (n - k) - i);
      case AtByte(b, i, k, a, j) =>
        var other :| Candidate(q, p, l, hash, b, i, k, a, other) && |other| == |q.key| && j < |q.key| && other[..j] == q.key[..j];
        CostAtLeast(q, BUCKET_ENTRIES * (n - k) - i);
      case _ =>
    }
  }

  /** Every fetch brings the lookup nearer to its end. */
  lemma FetchesDecrease(q: Query, p: Pool, l: Log, hash: Hash, cur: Cursor, v: int)
    requires q.main < |p.chains| && !AtEnd(cur)
    requires Known(q, p, l, hash, cur) && Known(q, p, l, hash, Advance(q, cur, v))
    ensures 0 <= FetchesLeft(q, p, l, Advance(q, cur, v)) < FetchesLeft(q, p, l, cur)
  {
    hide Known, SlotsCost, EntryCost, ByteOf, TagOf, DataWords;
    var n, next := |p.chains[q.main]|, Advance(q, cur, v);
    PositionFacts(q, p, l, hash, cur);
    PositionFacts(q, p, l, hash, next);
    match cur {
      case AtSlot(_, i, k) => OneSlotCost(q, BUCKET_ENTRIES * (n - k) - i);
      case AtNext(_, k) =>
      case AtLength(_, i, k, _) => OneSlotCost(q, BUCKET_ENTRIES * (n - k) - i);
      case AtByte(_, i, k, _, j) => OneSlotCost(q, BUCKET_ENTRIES * (n - k) - i);
      case AtSize(_) =>
      case AtBody(_, _, _) =>
    }
  }

  /** A lookup alone on a published chain makes no more fetches than its bound. */
  lemma {:induction false} LookupBounded(c: Config, t: nat, q: Query, p: Pool, l: Log, hash: Hash,
                                         mem: seq<int>, owner: seq<int>, seen: seq<int>)
    requires LooksUp(c, t, q) && Published(mem, owner, p, l, hash, q.main) && QueryOk(q, p, l, hash)
    requires Replays(c, t, mem, seen)
    ensures q.main < |p.chains| && |seen| + FetchesLeft(q, p, l, Position(q, seen)) <= FetchBound(q, p, l)
    ensures FetchesLeft(q, p, l, Position(q, seen)) >= 0 && |seen| <= FetchBound(q, p, l)
    decreases |seen|
  {
    PublishedFacts(mem, owner, p, l, hash, q.main);
    assert q.main < |p.chains|;
    if seen != [] {
      var before := seen[..|seen| - 1];
      var cur := Position(q, before);
      LookupBounded(c, t, q, p, l, hash, mem, owner, before);
      assert c.reader(t, before) == LookupMove(q, before);
      ReplayKnows(c, t, q, p, l, hash, mem, owner, before);
      ReplayKnows(c, t, q, p, l, hash, mem, owner, seen);
      hide Published, QueryOk, Known, Advance, FetchesLeft;
      FetchesDecrease(q, p, l, hash, cur, seen[|seen| - 1]);
    }
  }

  lemma FetchNext(c: Config, t: nat, q: Query, p: Pool, l: Log, hash: Hash, mem: seq<int>, owner: seq<int>, seen: seq<int>)
    returns (next: seq<int>)
    requires LooksUp(c, t, q) && Published(mem, owner, p, l, hash, q.main) && QueryOk(q, p, l, hash)
    requires Replays(c, t, mem, seen) && !AtEnd(Position(q, seen))
    ensures Replays(c, t, mem, next) && |next| == |seen| + 1
    ensures q.main < |p.chains| && |next| <= FetchBound(q, p, l)
  {
    var cur := Position(q, seen);
    ReplayKnows(c, t, q, p, l, hash, mem, owner, seen);
    assert c.reader(t, seen) == LookupMove(q, seen);
    Move(q, p, l, hash, mem, owner, cur);
    MovesOn(q, p, l, hash, mem, owner, cur);
    next := seen + [mem[CellOf(q, cur)]];
    assert next[..|next| - 1] == seen;
    assert Replays(c, t, mem, next);
    LookupBounded(c, t, q, p, l, hash, mem, owner, next);
  }

  /** A lookup alone on a published chain comes to its end, within the bound, and answers. */
  lemma LookupFinishes(c: Config, t: nat, q: Query, p: Pool, l: Log, hash: Hash, mem: seq<int>, owner: seq<int>)
    returns (answer: seq<int>)
    requires LooksUp(c, t, q) && Published(mem, owner, p, l, hash, q.main) && QueryOk(q, p, l, hash)
    ensures Replays(c, t, mem, answer) && c.reader(t, answer) == Done && Answers(q, l, answer)
    ensures q.main < |p.chains| && |answer| <= FetchBound(q, p, l)
  {
    answer := [];
    LookupBounded(c, t, q, p, l, hash, mem, owner, []);
    while !AtEnd(Position(q, answer))
      invariant Replays(c, t, mem, answer) && |answer| <= FetchBound(q, p, l)
      decreases FetchBound(q, p, l) - |answer|
    {
      answer := FetchNext(c, t, q, p, l, hash, mem, owner, answer);
    }
    ReplayKnows(c, t, q, p, l, hash, mem, owner, answer);
    assert c.reader(t, answer) == LookupMove(q, answer);
  }

  /** A read that is accepted at an even version answers what the table says at that moment, even
      if writers are at work in other buckets. */
  lemma AcceptedLookup(c: Config, s: State, t: nat, s': State, q: Query, p: Pool, l: Log, hash: Hash)
    requires VersionLock.Inv(c, s) && Next(c, s, End(t), s')
    requires s'.readers[t].Accepted? && s'.readers[t].at % 2 == 0
    requires LooksUp(c, t, q) && Published(s.mem, s.owner, p, l, hash, q.main) && QueryOk(q, p, l, hash)
    ensures Answers(q, l, s'.readers[t].answer)
  {
    hide Published, QueryOk, VersionLock.Inv;
    var answer := s'.readers[t].answer;
    AcceptedIsAtomic(c, s, t, s');
    ReplayKnows(c, t, q, p, l, hash, s.mem, s.owner, answer);
    assert c.reader(t, answer) == LookupMove(q, answer);
  }

  // ---------- Whole runs ----------

  /** The lookups of given keys in a log of `total` buckets, `mainSize` of them main. */
  function QueryOf(total: nat, mainSize: nat, base: nat, hash: Hash, key: Key): Query
    requires mainSize > 0
  {
    Query(total, base, key, hash(key), BucketOf(hash(key), mainSize))
  }

  /** Index, heap and table at rest. */
  datatype Rest = Rest(p: Pool, l: Log)

  /** The cells of chain `m` are those of the log `r` of this layout. */
  ghost predicate Serves(s: State, total: nat, mainSize: nat, base: nat, hash: Hash, m: nat, r: Rest) {
    |r.p.next| == total && |r.l.slots| == mainSize && r.l.base == base && Published(s.mem, s.owner, r.p, r.l, hash, m)
  }

  ghost predicate UnlocksBucket(s: State, a: Action, m: nat) {
    a.Unlock? && StepBucket(s, a) == m
  }

  /** The last of the first `i` steps that unlocks bucket `m`; 0 if there is none. */
  ghost function LastUnlock(states: seq<State>, actions: seq<Action>, m: nat, i: nat): nat {
    if i == 0 || i > |actions| || i > |states| then 0
    else if UnlocksBucket(states[i - 1], actions[i - 1], m) then i - 1
    else LastUnlock(states, actions, m, i - 1)
  }

  lemma {:induction false} LastUnlockIsLast(states: seq<State>, actions: seq<Action>, m: nat, i: nat)
    requires i <= |actions| < |states|
    ensures var j := LastUnlock(states, actions, m, i);
      && j <= i && (j == 0 || (j < i && UnlocksBucket(states[j], actions[j], m)))
      && forall k {:trigger actions[k]} | j < k < i :: !UnlocksBucket(states[k], actions[k], m)
  {
    if i > 0 && !UnlocksBucket(states[i - 1], actions[i - 1], m) {
      LastUnlockIsLast(states, actions, m, i - 1);
    }
  }

  /** Chains are in order where no writer is: a step keeps that, and keeps the log that they show,
      except that a writer that unlocks may leave another. */
  lemma ServesKept(c: Config, s: State, a: Action, s': State, total: nat, mainSize: nat, base: nat, hash: Hash, m: nat, r: Rest)
    requires VersionLock.Inv(c, s) && Next(c, s, a, s') && Orderly(c, s, a) && m < |s.version|
    requires (s.version[m] % 2 == 0 || UnlocksBucket(s, a, m)) ==> Serves(s, total, mainSize, base, hash, m, r)
    ensures |s'.version| == |s.version| && (s'.version[m] % 2 == 0 ==> Serves(s', total, mainSize, base, hash, m, r))
  {
    hide Published;
    GuardedKept(c, s, a, s');
    if s'.version[m] % 2 == 0 && s.version[m] % 2 == 0 {
      StepFrozen(c, s, a, s', m);
      PublishedFrozen(s.mem, s.owner, s'.mem, s'.owner, r.p, r.l, hash, m);
    }
  }

  /** A run in which chain `m` is that of `history[0]` at the start, and that of `history[j]` when a
      writer unlocks it in step `j`. */
  ghost predicate KeepsOrder(c: Config, states: seq<State>, actions: seq<Action>, history: seq<Rest>,
                             total: nat, mainSize: nat, base: nat, hash: Hash, m: nat) {
    && OrderlyRun(c, states, actions) && |history| == |states| && m < |states[0].version|
    && Serves(states[0], total, mainSize, base, hash, m, history[0])
    && forall j {:trigger actions[j]} | 0 <= j < |actions| && UnlocksBucket(states[j], actions[j], m) ::
         Serves(states[j], total, mainSize, base, hash, m, history[j])
  }

  /** After `i` steps, if its version is even, the chain is that of its last unlock. */
  ghost predicate ServesAt(states: seq<State>, actions: seq<Action>, history: seq<Rest>,
                           total: nat, mainSize: nat, base: nat, hash: Hash, m: nat, i: nat) {
    i <= |actions| < |states| == |history| && m < |states[i].version| &&
    var j := LastUnlock(states, actions, m, i);
    j <= i && (states[i].version[m] % 2 == 0 ==> Serves(states[i], total, mainSize, base, hash, m, history[j]))
  }

  lemma OrderFacts(c: Config, states: seq<State>, actions: seq<Action>, history: seq<Rest>,
                   total: nat, mainSize: nat, base: nat, hash: Hash, m: nat, i: nat)
    requires KeepsOrder(c, states, actions, history, total, mainSize, base, hash, m) && i < |actions|
    ensures |history| == |states| == |actions| + 1
    ensures VersionLock.Inv(c, states[i]) && Next(c, states[i], actions[i], states[i + 1]) && Orderly(c, states[i], actions[i])
    ensures UnlocksBucket(states[i], actions[i], m) ==> Serves(states[i], total, mainSize, base, hash, m, history[i])
  {
    RunKeepsInv(c, states, actions, i);
    hide Next, VersionLock.Inv, Serves, Orderly;
  }

  lemma ServesNext(c: Config, states: seq<State>, actions: seq<Action>, history: seq<Rest>,
                   total: nat, mainSize: nat, base: nat, hash: Hash, m: nat, i: nat)
    requires KeepsOrder(c, states, actions, history, total, mainSize, base, hash, m) && i < |actions|
    requires ServesAt(states, actions, history, total, mainSize, base, hash, m, i)
    ensures ServesAt(states, actions, history, total, mainSize, base, hash, m, i + 1)
  {
    hide Serves, VersionLock.Inv, Next, Orderly, KeepsOrder;
    OrderFacts(c, states, actions, history, total, mainSize, base, hash, m, i);
    var j := LastUnlock(states, actions, m, i + 1);
    assert j == if UnlocksBucket(states[i], actions[i], m) then i else LastUnlock(states, actions, m, i);
    hide LastUnlock, UnlocksBucket;
    ServesKept(c, states[i], actions[i], states[i + 1], total, mainSize, base, hash, m, history[j]);
  }

  lemma ServesFirst(c: Config, states: seq<State>, actions: seq<Action>, history: seq<Rest>,
                    total: nat, mainSize: nat, base: nat, hash: Hash, m: nat)
    requires KeepsOrder(c, states, actions, history, total, mainSize, base, hash, m)
    ensures ServesAt(states, actions, history, total, mainSize, base, hash, m, 0)
  {
    hide Serves, Next, Orderly;
  }

  lemma {:induction false} RunServes(c: Config, states: seq<State>, actions: seq<Action>, history: seq<Rest>,
                                     total: nat, mainSize: nat, base: nat, hash: Hash, m: nat, i: nat)
    requires KeepsOrder(c, states, actions, history, total, mainSize, base, hash, m) && i <= |actions|
    ensures ServesAt(states, actions, history, total, mainSize, base, hash, m, i)
  {
    hide *;
    if i > 0 {
      RunServes(c, states, actions, history, total, mainSize, base, hash, m, i - 1);
      ServesNext(c, states, actions, history, total, mainSize, base, hash, m, i - 1);
    } else {
      ServesFirst(c, states, actions, history, total, mainSize, base, hash, m);
    }
  }

  /** Step `i` accepts the read of `t`, at an even version. */
  ghost predicate AcceptsAt(states: seq<State>, actions: seq<Action>, t: nat, i: nat) {
    && i < |actions| < |states| && actions[i] == End(t) && t in states[i + 1].readers
    && states[i + 1].readers[t].Accepted? && states[i + 1].readers[t].at % 2 == 0
  }

  /** In every run of the corrected lock, and every orderly one of the lock as written, in which the
      key's chain is in order at the start and whenever a writer unlocks it: a lookup accepted at an
      even version answers what the table says that the last writer to unlock the chain left. */
  lemma RunLookups(c: Config, states: seq<State>, actions: seq<Action>, history: seq<Rest>,
                   total: nat, mainSize: nat, base: nat, hash: Hash, q: Query, t: nat, i: nat)
    requires mainSize > 0 && q == QueryOf(total, mainSize, base, hash, q.key) && LooksUp(c, t, q)
    requires KeepsOrder(c, states, actions, history, total, mainSize, base, hash, q.main)
    requires AcceptsAt(states, actions, t, i)
    ensures LastUnlock(states, actions, q.main, i) <= i < |history|
    ensures Answers(q, history[LastUnlock(states, actions, q.main, i)].l, states[i + 1].readers[t].answer)
  {
    RunServes(c, states, actions, history, total, mainSize, base, hash, q.main, i);
    RunKeepsInv(c, states, actions, i);
    assert Next(c, states[i], actions[i], states[i + 1]);
    assert ReaderOk(c, states[i], t);
    var r := history[LastUnlock(states, actions, q.main, i)];
    AcceptedLookup(c, states[i], t, states[i + 1], q, r.p, r.l, hash);
  }
}
