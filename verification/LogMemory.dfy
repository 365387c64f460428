/** Where a log lies in the memory that writers and readers share.

    Index and heap of a log at rest determine every cell of the memory and whose it is.  Laid out so,
    every chain is what a lookup needs, and putting or removing a key changes no cell of another
    chain: the log of module CircularLog runs under the locks of module VersionLock. */
module LogMemory {
  import opened Arithmetic
  import opened Blocks
  import opened PoolInvariant
  import opened BucketPool
  import opened LogEntry
  import opened LogIndex
  import opened VersionLock
  import opened LockedLookup
  import HeapInvariant
  import C = CircularLog

  /** A log between two operations. */
  ghost predicate AtRest(r: Rest, hash: Hash) {
    PoolInvariant.Inv(r.p) && Consistent(r.l, hash) && HeapInvariant.Inv(r.l.v, {}) && r.l.slots == r.p.slots
  }

  // ---------- Every cell and its owner ----------

  function MemoryOf(p: Pool, w: seq<int>): (mem: seq<int>)
    ensures |mem| == |p.entries| + |p.next| + |w|
  {
    seq(|p.entries|, i requires 0 <= i < |p.entries| => Pack(p.entries[i])) + p.next + w
  }

  ghost predicate OnChainOf(p: Pool, m: nat, b: nat) {
    m < |p.chains| && b in p.chains[m]
  }

  /** The chain that bucket `b` is on. */
  ghost function BucketOwner(p: Pool, b: nat): int {
    if m: nat :| OnChainOf(p, m, b) then m else FREE
  }

  ghost predicate Owns(l: Log, key: Key, i: nat) {
    key in l.dir && Covers(l.v.b, l.dir[key], i)
  }

  /** The chain of the key whose block covers heap word `i`. */
  ghost function WordOwner(l: Log, hash: Hash, i: nat): int {
    if |l.slots| == 0 then FREE
    else if key :| Owns(l, key, i) then ChainOf(l, hash, key) else FREE
  }

  ghost function OwnersOf(r: Rest, hash: Hash): (owner: seq<int>)
    ensures |owner| == |r.p.entries| + |r.p.next| + |r.l.v.w|
  {
    seq(|r.p.entries|, i requires 0 <= i => BucketOwner(r.p, i / BUCKET_ENTRIES))
    + seq(|r.p.next|, b requires 0 <= b => BucketOwner(r.p, b))
    + seq(|r.l.v.w|, i requires 0 <= i => WordOwner(r.l, hash, i))
  }

  lemma BucketOwned(p: Pool, m: nat, k: nat)
    requires PoolInvariant.Inv(p) && m < |p.chains| && k < |p.chains[m]|
    ensures BucketOwner(p, p.chains[m][k]) == m
  {
    var b := p.chains[m][k];
    assert OnChainOf(p, m, b);
    forall n: nat | OnChainOf(p, n, b) ensures n == m {
      var j :| 0 <= j < |p.chains[n]| && p.chains[n][j] == b;
      assert Apart(p, m, k, n, j);
    }
  }

  lemma OneOwner(r: Rest, hash: Hash, j: Key, k: Key, i: nat)
    requires AtRest(r, hash) && Owns(r.l, j, i) && Owns(r.l, k, i)
    ensures j == k
  {
    ExactCover(|r.l.v.w|, r.l.v.b, i);
  }

  lemma WordOwned(r: Rest, hash: Hash, key: Key, i: nat)
    requires AtRest(r, hash) && Owns(r.l, key, i)
    ensures WordOwner(r.l, hash, i) == ChainOf(r.l, hash, key)
  {
    hide AtRest, ChainOf;
    forall k | Owns(r.l, k, i) ensures k == key {
      OneOwner(r, hash, k, key, i);
    }
    assert |r.l.slots| > 0 by { RestFacts(r, hash); }
  }

  lemma RestFacts(r: Rest, hash: Hash)
    requires AtRest(r, hash)
    ensures |r.l.slots| == |r.p.chains| > 0 && |r.p.entries| == BUCKET_ENTRIES * |r.p.next|
  {}

  /** What a cell holds and whose it is: entries first, then next offsets, then heap words. */
  lemma CellAt(r: Rest, hash: Hash, i: nat)
    requires |r.p.entries| == BUCKET_ENTRIES * |r.p.next| && i < |OwnersOf(r, hash)|
    ensures |OwnersOf(r, hash)| == |MemoryOf(r.p, r.l.v.w)|
    ensures var n, e, x, o := |r.p.next|, |r.p.entries|, MemoryOf(r.p, r.l.v.w)[i], OwnersOf(r, hash)[i];
      if i < e then x == Pack(r.p.entries[i]) && o == BucketOwner(r.p, i / BUCKET_ENTRIES)
      else if i < e + n then x == r.p.next[i - e] && o == BucketOwner(r.p, i - e)
      else x == r.l.v.w[i - e - n] && o == WordOwner(r.l, hash, i - e - n)
  {}

  // ---------- A log at rest is what lookups need ----------

  lemma BucketLaidOut(r: Rest, hash: Hash, m: nat, k: nat)
    requires AtRest(r, hash) && m < |r.p.chains| && k < |r.p.chains[m]|
    ensures BucketIn(MemoryOf(r.p, r.l.v.w), OwnersOf(r, hash), r.p, m, k)
  {
    RestFacts(r, hash);
    BucketOwned(r.p, m, k);
    assert LinkOk(r.p, m, k);
    var b := r.p.chains[m][k];
    forall i | BUCKET_ENTRIES * b <= i < BUCKET_ENTRIES * (b + 1) ensures i / BUCKET_ENTRIES == b {}
  }

  /** The words of a key's entry. */
  ghost predicate EntryWord(l: Log, key: Key, i: nat) {
    key in l.dir && key in l.table && l.dir[key] + 1 <= i < l.dir[key] + 1 + HEADER_WORDS + DataWords(|l.table[key].Data()|)
  }

  lemma EntryWordOwned(r: Rest, hash: Hash, key: Key, i: nat)
    requires AtRest(r, hash) && EntryWord(r.l, key, i)
    ensures |r.l.slots| > 0 && i < |r.l.v.w| && WordOwner(r.l, hash, i) == ChainOf(r.l, hash, key)
  {
    assert KeyOk(r.l, hash, key);
    assert Owns(r.l, key, i);
    WordOwned(r, hash, key, i);
  }

  lemma EntryCellLaidOut(r: Rest, hash: Hash, key: Key, i: nat)
    requires AtRest(r, hash) && EntryWord(r.l, key, i)
    ensures var c := (BUCKET_ENTRIES + 1) * |r.p.next| + i;
      && i < |r.l.v.w| && |r.l.slots| > 0 && c < |MemoryOf(r.p, r.l.v.w)| == |OwnersOf(r, hash)|
      && MemoryOf(r.p, r.l.v.w)[c] == r.l.v.w[i] && OwnersOf(r, hash)[c] == ChainOf(r.l, hash, key)
  {
    hide AtRest, WordOwner, ChainOf, BucketOwner, EntryWord;
    EntryWordOwned(r, hash, key, i);
    RestFacts(r, hash);
    CellAt(r, hash, (BUCKET_ENTRIES + 1) * |r.p.next| + i);
  }

  lemma EntryRoom(r: Rest, hash: Hash, key: Key)
    requires AtRest(r, hash) && key in r.l.dir
    ensures |MemoryOf(r.p, r.l.v.w)| == |OwnersOf(r, hash)| == (BUCKET_ENTRIES + 1) * |r.p.next| + |r.l.v.w|
    ensures key in r.l.table && |r.l.slots| > 0
    ensures r.l.dir[key] + 1 + HEADER_WORDS + DataWords(|r.l.table[key].Data()|) <= |r.l.v.w|
  {
    assert KeyOk(r.l, hash, key);
    RestFacts(r, hash);
  }

  lemma EntryLaidOut(r: Rest, hash: Hash, key: Key)
    requires AtRest(r, hash) && key in r.l.dir
    ensures EntryIn(MemoryOf(r.p, r.l.v.w), OwnersOf(r, hash), r.p, r.l, hash, key)
  {
    hide AtRest, ChainOf, MemoryOf, OwnersOf, DataWords;
    EntryRoom(r, hash, key);
    var mem, owner, h := MemoryOf(r.p, r.l.v.w), OwnersOf(r, hash), (BUCKET_ENTRIES + 1) * |r.p.next|;
    forall i {:trigger mem[i]} {:trigger owner[i]} | h + r.l.dir[key] + 1 <= i < h + r.l.dir[key] + 1 + HEADER_WORDS + DataWords(|r.l.table[key].Data()|)
      ensures mem[i] == r.l.v.w[i - h] && owner[i] == ChainOf(r.l, hash, key)
    {
      EntryCellLaidOut(r, hash, key, i - h);
    }
  }

  /** In the memory of a log at rest every chain is in order. */
  lemma LaidOut(r: Rest, hash: Hash, m: nat)
    requires AtRest(r, hash) && m < |r.p.chains|
    ensures Published(MemoryOf(r.p, r.l.v.w), OwnersOf(r, hash), r.p, r.l, hash, m)
  {
    var mem, owner := MemoryOf(r.p, r.l.v.w), OwnersOf(r, hash);
    RestFacts(r, hash);
    ChainOfConsistent(r.p, r.l, hash, m);
    hide AtRest, ChainConsistent, BucketIn, EntryIn;
    forall k {:trigger BucketIn(mem, owner, r.p, m, k)} | 0 <= k < |r.p.chains[m]| ensures BucketIn(mem, owner, r.p, m, k) {
      BucketLaidOut(r, hash, m, k);
    }
    forall key {:trigger EntryIn(mem, owner, r.p, r.l, hash, key)} | key in r.l.dir && ChainOf(r.l, hash, key) == m
      ensures EntryIn(mem, owner, r.p, r.l, hash, key)
    {
      EntryLaidOut(r, hash, key);
    }
  }

  // ---------- States that show a log at rest ----------

  ghost predicate Shows(s: State, r: Rest, hash: Hash) {
    AtRest(r, hash) && s.mem == MemoryOf(r.p, r.l.v.w) && s.owner == OwnersOf(r, hash)
  }

  /** Numbers of buckets and of main buckets, and the log's byte offset. */
  datatype Layout = Layout(total: nat, mainSize: nat, base: nat)

  ghost predicate Fits(r: Rest, y: Layout) {
    |r.p.next| == y.total && |r.l.slots| == y.mainSize && r.l.base == y.base
  }

  /** Every reader looks up a key. */
  ghost predicate AllLookUp(c: Config, y: Layout, hash: Hash, keyOf: nat -> Key) {
    y.mainSize > 0 && forall t {:trigger keyOf(t)} :: LooksUp(c, t, QueryOf(y.total, y.mainSize, y.base, hash, keyOf(t)))
  }

  lemma ReadersConfined(c: Config, s: State, r: Rest, y: Layout, hash: Hash, keyOf: nat -> Key, t: nat)
    requires Shows(s, r, hash) && Fits(r, y) && AllLookUp(c, y, hash, keyOf)
    ensures Confined(c, t, s.mem, s.owner)
  {
    var q := QueryOf(y.total, y.mainSize, y.base, hash, keyOf(t));
    RestFacts(r, hash);
    LaidOut(r, hash, q.main);
    hide Shows, Published, Confined;
    assert LooksUp(c, t, q);
    LookupConfined(c, t, q, r.p, r.l, hash, s.mem, s.owner);
  }

  /** With a log in memory, runs can start. */
  lemma MayStart(c: Config, s: State, r: Rest, y: Layout, hash: Hash, keyOf: nat -> Key)
    requires Shows(s, r, hash) && Fits(r, y) && AllLookUp(c, y, hash, keyOf)
    requires (forall m | 0 <= m < |s.version| :: s.version[m] == 0)
    requires (forall t | t in s.writers :: s.writers[t] == Outside) && (forall t | t in s.readers :: s.readers[t] == Idle)
    ensures Start(c, s)
  {
    forall t {:trigger Confined(c, t, s.mem, s.owner)} ensures Confined(c, t, s.mem, s.owner) {
      ReadersConfined(c, s, r, y, hash, keyOf, t);
    }
    assert |s.mem| == |s.owner|;
  }

  /** With a log in memory, a writer inside may unlock. */
  lemma MayUnlock(c: Config, s: State, r: Rest, y: Layout, hash: Hash, keyOf: nat -> Key, t: nat, m: nat)
    requires Shows(s, r, hash) && Fits(r, y) && AllLookUp(c, y, hash, keyOf) && IsInside(s, t, m)
    ensures VersionLock.Next(c, s, Unlock(t), s.(version := s.version[m := s.version[m] + 1], writers := s.writers[t := Outside]))
  {
    forall u {:trigger Confined(c, u, s.mem, s.owner)} ensures Confined(c, u, s.mem, s.owner) {
      ReadersConfined(c, s, r, y, hash, keyOf, u);
    }
    assert |s.mem| == |s.owner|;
  }

  /** In every run of the corrected lock, and every orderly one of the lock as written, that starts
      with a log in memory and whose writers leave a log in memory when they unlock: a lookup
      accepted at an even version answers what the table says of the log that the last writer to
      unlock the key's chain left there. */
  lemma RunOfLog(c: Config, states: seq<State>, actions: seq<Action>, history: seq<Rest>, y: Layout, hash: Hash, keyOf: nat -> Key,
                 t: nat, i: nat)
    requires OrderlyRun(c, states, actions) && |history| == |states| && AllLookUp(c, y, hash, keyOf)
    requires |states[0].version| == y.mainSize && Shows(states[0], history[0], hash) && Fits(history[0], y)
    requires forall j {:trigger actions[j]} | 0 <= j < |actions| && actions[j].Unlock? ::
               Shows(states[j], history[j], hash) && Fits(history[j], y)
    requires AcceptsAt(states, actions, t, i)
    ensures var q := QueryOf(y.total, y.mainSize, y.base, hash, keyOf(t));
      var j := LastUnlock(states, actions, q.main, i);
      j <= i && Answers(q, history[j].l, states[i + 1].readers[t].answer)
  {
    var q := QueryOf(y.total, y.mainSize, y.base, hash, keyOf(t));
    assert LooksUp(c, t, q);
    RestServes(states[0], history[0], y, hash, q.main);
    forall j {:trigger actions[j]} | 0 <= j < |actions| && UnlocksBucket(states[j], actions[j], q.main)
      ensures Serves(states[j], y.total, y.mainSize, y.base, hash, q.main, history[j])
    {
      RestServes(states[j], history[j], y, hash, q.main);
    }
    hide Shows, Serves, OrderlyRun, AllLookUp;
    RunLookups(c, states, actions, history, y.total, y.mainSize, y.base, hash, q, t, i);
  }

  lemma RestServes(s: State, r: Rest, y: Layout, hash: Hash, m: nat)
    requires Shows(s, r, hash) && Fits(r, y) && m < y.mainSize
    ensures Serves(s, y.total, y.mainSize, y.base, hash, m, r)
  {
    RestFacts(r, hash);
    LaidOut(r, hash, m);
  }

  // ---------- An operation writes only its own chain's cells ----------

  /** A writer in bucket `m` may change a cell from value `x` and owner `o` to `x'` and `o'`. */
  predicate MayChange(m: nat, x: int, o: int, x': int, o': int) {
    (o !in {FREE, m} ==> x' == x && o' == o) && (o' !in {FREE, m} ==> x' == x && o' == o)
  }

  /** What an operation on `key` may do to a log: see `OthersKept`. */
  ghost predicate Operates(r: Rest, r': Rest, hash: Hash, key: Key) {
    && AtRest(r, hash) && AtRest(r', hash)
    && |r'.p.next| == |r.p.next| && |r'.l.v.w| == |r.l.v.w|
    && OthersKept(r.p.chains, r.l, r'.p.chains, r'.l, key, ChainOf(r.l, hash, key))
  }

  lemma BucketOwnerKept(r: Rest, r': Rest, hash: Hash, key: Key, b: nat)
    requires Operates(r, r', hash, key)
    ensures var m, n, n' := ChainOf(r.l, hash, key), BucketOwner(r.p, b), BucketOwner(r'.p, b);
      n != n' ==> n in {FREE, m} && n' in {FREE, m}
  {
    var m, n, n' := ChainOf(r.l, hash, key), BucketOwner(r.p, b), BucketOwner(r'.p, b);
    if n !in {FREE, m} {
      var k :| 0 <= k < |r.p.chains[n]| && r.p.chains[n][k] == b;
      assert r'.p.chains[n] == r.p.chains[n];
      BucketOwned(r'.p, n, k);
    }
    if n' !in {FREE, m} {
      var k :| 0 <= k < |r'.p.chains[n']| && r'.p.chains[n'][k] == b;
      assert r'.p.chains[n'] == r.p.chains[n'];
      BucketOwned(r.p, n', k);
    }
  }

  lemma BucketCellKept(r: Rest, r': Rest, hash: Hash, key: Key, b: nat, i: nat)
    requires Operates(r, r', hash, key) && i < BUCKET_ENTRIES
    requires BucketOwner(r.p, b) !in {FREE, ChainOf(r.l, hash, key)}
    ensures b < |r.p.next| && BUCKET_ENTRIES * b + i < |r.p.entries| && |r'.p.entries| == |r.p.entries|
    ensures r'.p.next[b] == r.p.next[b] && r'.p.entries[BUCKET_ENTRIES * b + i] == r.p.entries[BUCKET_ENTRIES * b + i]
  {
    var n := BucketOwner(r.p, b);
    var k :| 0 <= k < |r.p.chains[n]| && r.p.chains[n][k] == b;
    OtherChainsUntouched(r.p, r.l, r'.p, r'.l, hash, key, ChainOf(r.l, hash, key), n);
    assert BucketKept(r.p, r'.p, r.p.chains[n][k], i);
  }

  lemma BucketMayChange(r: Rest, r': Rest, hash: Hash, key: Key, b: nat, i: nat)
    requires Operates(r, r', hash, key) && b < |r.p.next| && i < BUCKET_ENTRIES
    ensures |r'.p.next| == |r.p.next| && BUCKET_ENTRIES * b + i < |r.p.entries| == |r'.p.entries|
    ensures var m, o, o', j := ChainOf(r.l, hash, key), BucketOwner(r.p, b), BucketOwner(r'.p, b), BUCKET_ENTRIES * b + i;
      MayChange(m, r.p.next[b], o, r'.p.next[b], o') && MayChange(m, Pack(r.p.entries[j]), o, Pack(r'.p.entries[j]), o')
  {
    RestFacts(r, hash);
    RestFacts(r', hash);
    BucketOwnerKept(r, r', hash, key, b);
    if BucketOwner(r.p, b) !in {FREE, ChainOf(r.l, hash, key)} {
      BucketCellKept(r, r', hash, key, b, i);
    }
  }

  lemma KeyKept(r: Rest, r': Rest, hash: Hash, key: Key, k: Key)
    requires Operates(r, r', hash, key) && k != key && (k in r.l.dir || k in r'.l.dir)
    ensures k in r.l.dir && k in r'.l.dir && r'.l.dir[k] == r.l.dir[k]
    ensures HeapInvariant.KeepsBlock(r.l.v, r'.l.v, r.l.dir[k])
    ensures |r'.l.slots| == |r.l.slots| > 0 && ChainOf(r'.l, hash, k) == ChainOf(r.l, hash, k)
  {
    RestFacts(r, hash);
    hide AtRest;
    assert k in r.l.dir.Keys - {key} <==> k in r'.l.dir.Keys - {key};
  }

  lemma WordKept(r: Rest, r': Rest, hash: Hash, key: Key, i: nat)
    requires Operates(r, r', hash, key) && i < |r.l.v.w|
    ensures MayChange(ChainOf(r.l, hash, key), r.l.v.w[i], WordOwner(r.l, hash, i), r'.l.v.w[i], WordOwner(r'.l, hash, i))
  {
    var m := ChainOf(r.l, hash, key);
    if k :| k != key && (Owns(r.l, k, i) || Owns(r'.l, k, i)) {
      KeyKept(r, r', hash, key, k);
      WordOwned(r, hash, k, i);
      WordOwned(r', hash, k, i);
    } else {
      hide Operates, Owns, ChainOf;
      assert WordOwner(r.l, hash, i) in {FREE, m};
      assert WordOwner(r'.l, hash, i) in {FREE, m} by { SameChain(r, r', hash, key); }
    }
  }

  lemma SameChain(r: Rest, r': Rest, hash: Hash, key: Key)
    requires Operates(r, r', hash, key)
    ensures |r'.l.slots| == |r.l.slots| > 0 && ChainOf(r'.l, hash, key) == ChainOf(r.l, hash, key)
  {
    RestFacts(r, hash);
  }

  lemma SameSize(r: Rest, r': Rest, hash: Hash, key: Key)
    requires Operates(r, r', hash, key)
    ensures |r'.p.next| == |r.p.next| && |r'.p.entries| == |r.p.entries| == BUCKET_ENTRIES * |r.p.next| && |r'.l.v.w| == |r.l.v.w|
    ensures |OwnersOf(r', hash)| == |OwnersOf(r, hash)| == |MemoryOf(r.p, r.l.v.w)| == |MemoryOf(r'.p, r'.l.v.w)|
  {
    RestFacts(r, hash);
    RestFacts(r', hash);
  }

  /** Putting or removing a key changes only cells of the key's chain and free ones. */
  lemma OtherCellsKept(r: Rest, r': Rest, hash: Hash, key: Key, i: nat)
    requires Operates(r, r', hash, key) && |r.l.slots| > 0 && i < |OwnersOf(r, hash)|
    ensures |OwnersOf(r', hash)| == |OwnersOf(r, hash)| == |MemoryOf(r.p, r.l.v.w)| == |MemoryOf(r'.p, r'.l.v.w)|
    ensures MayChange(ChainOf(r.l, hash, key), MemoryOf(r.p, r.l.v.w)[i], OwnersOf(r, hash)[i],
                      MemoryOf(r'.p, r'.l.v.w)[i], OwnersOf(r', hash)[i])
  {
    hide MemoryOf, OwnersOf, Operates, AtRest, BucketOwner, WordOwner, ChainOf, OthersKept, Pack, MayChange;
    SameSize(r, r', hash, key);
    CellAt(r, hash, i);
    CellAt(r', hash, i);
    var n, e := |r.p.next|, |r.p.entries|;
    if i < e {
      var b := i / BUCKET_ENTRIES;
      assert i == BUCKET_ENTRIES * b + i % BUCKET_ENTRIES && b < n;
      BucketMayChange(r, r', hash, key, b, i % BUCKET_ENTRIES);
    } else if i < e + n {
      BucketMayChange(r, r', hash, key, i - e, 0);
    } else {
      WordKept(r, r', hash, key, i - e - n);
    }
  }

  // ---------- An operation as a critical section ----------

  /** `actions'` goes on after `actions`, and before its last `n` steps no writer unlocks. */
  ghost predicate GoesOn(states: seq<State>, actions: seq<Action>, states': seq<State>, actions': seq<Action>, n: nat) {
    && |states| == |actions| + 1 && |states'| == |actions'| + 1 && |actions| + n <= |actions'|
    && states <= states' && actions <= actions'
    && forall k {:trigger actions'[k]} | |actions| <= k < |actions'| - n :: !actions'[k].Unlock?
  }

  lemma GoesOnTrans(s: seq<State>, a: seq<Action>, s': seq<State>, a': seq<Action>, s'': seq<State>, a'': seq<Action>, n: nat)
    requires GoesOn(s, a, s', a', 0) && GoesOn(s', a', s'', a'', n)
    ensures GoesOn(s, a, s'', a'', n)
  {
    assert |a| + n <= |a''|;
    forall k {:trigger a''[k]} | |a| <= k < |a''| - n ensures !a''[k].Unlock? {
      if k < |a'| { assert a''[k] == a'[k]; }
    }
  }

  lemma Then(c: Config, states: seq<State>, actions: seq<Action>, a: Action, s: State)
    returns (states': seq<State>, actions': seq<Action>)
    requires Trace(c, states, actions) && |states| == |actions| + 1 && VersionLock.Next(c, states[|actions|], a, s)
    ensures Trace(c, states', actions') && states' == states + [s] && actions' == actions + [a]
    ensures GoesOn(states, actions, states', actions', 1) && (!a.Unlock? ==> GoesOn(states, actions, states', actions', 0))
  {
    hide Trace, VersionLock.Next, AlwaysOne, NeverTogether;
    states', actions' := Extend(c, states, actions, a, s);
  }

  /** The writer inside bucket `m` gives a cell its new value and owner. */
  lemma SetCell(c: Config, states: seq<State>, actions: seq<Action>, t: nat, m: nat, i: nat, x: int, o: int)
    returns (states': seq<State>, actions': seq<Action>)
    requires Trace(c, states, actions) && |states| == |actions| + 1
    requires var s := states[|actions|];
      && t in s.writers && s.writers[t] == Inside(m) && i < |s.mem| == |s.owner|
      && MayChange(m, s.mem[i], s.owner[i], x, o)
    ensures Trace(c, states', actions') && GoesOn(states, actions, states', actions', 0)
    ensures var s := states[|actions|]; states'[|actions'|] == s.(mem := s.mem[i := x], owner := s.owner[i := o])
  {
    hide Trace, GoesOn;
    var s := states[|actions|];
    if s.owner[i] in {FREE, m} {
      var s1 := s.(mem := s.mem[i := x]);
      states', actions' := Then(c, states, actions, Write(t, i, x), s1);
      if o == s.owner[i] {
        assert s1.owner[i := o] == s1.owner;
      } else {
        var s2 := s1.(owner := s1.owner[i := o]);
        ghost var states1, actions1 := states', actions';
        states', actions' := Then(c, states1, actions1, if o == FREE then Release(t, i) else Claim(t, i), s2);
        GoesOnTrans(states, actions, states1, actions1, states', actions', 0);
      }
    } else {
      assert s.mem[i := x] == s.mem && s.owner[i := o] == s.owner;
      states', actions' := states, actions;
      assert GoesOn(states, actions, states, actions, 0) by { Stays(states, actions); }
    }
  }

  lemma Stays(states: seq<State>, actions: seq<Action>)
    requires |states| == |actions| + 1
    ensures GoesOn(states, actions, states, actions, 0)
  {}

  /** So it does with all cells from `i` on. */
  lemma {:induction false} SetCells(c: Config, states: seq<State>, actions: seq<Action>, t: nat, m: nat, i: nat, mem: seq<int>, owner: seq<int>)
    returns (states': seq<State>, actions': seq<Action>)
    requires Trace(c, states, actions) && |states| == |actions| + 1
    requires var s := states[|actions|];
      && t in s.writers && s.writers[t] == Inside(m) && i <= |s.mem| == |s.owner| == |mem| == |owner|
      && s.mem[..i] == mem[..i] && s.owner[..i] == owner[..i]
      && forall k {:trigger mem[k]} {:trigger owner[k]} | i <= k < |mem| :: MayChange(m, s.mem[k], s.owner[k], mem[k], owner[k])
    ensures Trace(c, states', actions') && GoesOn(states, actions, states', actions', 0)
    ensures states'[|actions'|] == states[|actions|].(mem := mem, owner := owner)
    decreases |mem| - i
  {
    hide Trace, GoesOn, MayChange;
    var s := states[|actions|];
    if i == |mem| {
      assert s.mem == s.mem[..i] && s.owner == s.owner[..i] && mem == mem[..i] && owner == owner[..i];
      states', actions' := states, actions;
      Stays(states, actions);
    } else {
      assert MayChange(m, s.mem[i], s.owner[i], mem[i], owner[i]);
      var states1, actions1 := SetCell(c, states, actions, t, m, i, mem[i], owner[i]);
      Lengths(states, actions, states1, actions1);
      var s1 := states1[|actions1|];
      assert s1.mem[..i + 1] == s.mem[..i] + [mem[i]] == mem[..i + 1];
      assert s1.owner[..i + 1] == s.owner[..i] + [owner[i]] == owner[..i + 1];
      states', actions' := SetCells(c, states1, actions1, t, m, i + 1, mem, owner);
      GoesOnTrans(states, actions, states1, actions1, states', actions', 0);
    }
  }

  lemma Lengths(states: seq<State>, actions: seq<Action>, states': seq<State>, actions': seq<Action>)
    requires GoesOn(states, actions, states', actions', 0)
    ensures |states'| == |actions'| + 1
  {}

  /** A writer comes to an even version and enters. */
  lemma EnterBucket(c: Config, states: seq<State>, actions: seq<Action>, t: nat, m: nat)
    returns (states': seq<State>, actions': seq<Action>)
    requires c.retryOnFailure && Trace(c, states, actions) && |states| == |actions| + 1
    requires var s := states[|actions|];
      && m < |s.version| && s.version[m] % 2 == 0 && t in s.writers && s.writers[t] == Outside && |s.mem| == |s.owner|
    ensures Trace(c, states', actions') && GoesOn(states, actions, states', actions', 0) && |states'| == |actions'| + 1
    ensures var s := states[|actions|];
      states'[|actions'|] == s.(version := s.version[m := s.version[m] + 1], writers := s.writers[t := Inside(m)])
  {
    hide Trace, GoesOn;
    var s := states[|actions|];
    var v := s.version[m];
    var s1 := s.(writers := s.writers[t := Swapping(m, v)]);
    var states1, actions1 := Then(c, states, actions, Load(t, m), s1);
    var s2 := s1.(version := s.version[m := v + 1], writers := s1.writers[t := Inside(m)]);
    states', actions' := Then(c, states1, actions1, Swap(t), s2);
    GoesOnTrans(states, actions, states1, actions1, states', actions', 0);
    assert s2.writers == s.writers[t := Inside(m)];
  }

  /** A writer inside unlocks, with a log in memory. */
  lemma LeaveBucket(c: Config, states: seq<State>, actions: seq<Action>, r: Rest, y: Layout, hash: Hash, keyOf: nat -> Key, t: nat, m: nat)
    returns (states': seq<State>, actions': seq<Action>)
    requires Trace(c, states, actions) && |states| == |actions| + 1
    requires var s := states[|actions|];
      Shows(s, r, hash) && Fits(r, y) && AllLookUp(c, y, hash, keyOf) && IsInside(s, t, m)
    ensures Trace(c, states', actions') && GoesOn(states, actions, states', actions', 1)
    ensures |actions'| == |actions| + 1 && actions'[|actions|] == Unlock(t) && states'[|actions|] == states[|actions|]
    ensures var s := states[|actions|];
      states'[|actions'|] == s.(version := s.version[m := s.version[m] + 1], writers := s.writers[t := Outside])
  {
    hide Trace, GoesOn, Shows, AllLookUp, VersionLock.Next;
    var s := states[|actions|];
    MayUnlock(c, s, r, y, hash, keyOf, t, m);
    states', actions' := Then(c, states, actions, Unlock(t),
      s.(version := s.version[m := s.version[m] + 1], writers := s.writers[t := Outside]));
  }

  lemma Owned(s: State, r: Rest, hash: Hash)
    requires Shows(s, r, hash)
    ensures |s.mem| == |s.owner| && |r.l.slots| > 0
  {
    RestFacts(r, hash);
  }

  /** The log in memory is replaced by another. */
  lemma Rewrite(c: Config, states: seq<State>, actions: seq<Action>, r: Rest, r': Rest, hash: Hash, key: Key, t: nat, m: nat)
    returns (states': seq<State>, actions': seq<Action>)
    requires Trace(c, states, actions) && |states| == |actions| + 1 && Operates(r, r', hash, key)
    requires var s := states[|actions|];
      Shows(s, r, hash) && |r.l.slots| > 0 && m == ChainOf(r.l, hash, key) && t in s.writers && s.writers[t] == Inside(m)
    ensures Trace(c, states', actions') && GoesOn(states, actions, states', actions', 0) && |states'| == |actions'| + 1
    ensures Shows(states'[|actions'|], r', hash)
    ensures var s, s' := states[|actions|], states'[|actions'|];
      s'.version == s.version && s'.writers == s.writers && s'.readers == s.readers
  {
    var s, mem, owner := states[|actions|], MemoryOf(r'.p, r'.l.v.w), OwnersOf(r', hash);
    assert AtRest(r', hash);
    hide Trace, GoesOn, MayChange, Operates, AtRest, MemoryOf, OwnersOf, ChainOf;
    SameSize(r, r', hash, key);
    forall k {:trigger mem[k]} {:trigger owner[k]} | 0 <= k < |mem| ensures MayChange(m, s.mem[k], s.owner[k], mem[k], owner[k]) {
      OtherCellsKept(r, r', hash, key, k);
    }
    states', actions' := SetCells(c, states, actions, t, m, 0, mem, owner);
    Lengths(states, actions, states', actions');
  }

  /** The log `r` is in memory, the bucket `m` is free, and writer `t` is outside. */
  ghost predicate Before(s: State, r: Rest, hash: Hash, m: nat, t: nat) {
    Shows(s, r, hash) && m < |s.version| && s.version[m] % 2 == 0 && t in s.writers && s.writers[t] == Outside
  }

  /** The log `r` is in memory, and the version of bucket `m` has moved on by two. */
  ghost predicate Afterwards(s: State, s': State, r: Rest, hash: Hash, m: nat) {
    && Shows(s', r, hash) && m < |s.version| && s'.version == s.version[m := s.version[m] + 2]
    && s'.writers == s.writers && s'.readers == s.readers
  }

  /** Every operation on a log is possible as a critical section of the corrected lock: from the log
      `r` in memory, a writer that enters the key's bucket can bring `r'` into memory, and unlock. */
  lemma Operation(c: Config, states: seq<State>, actions: seq<Action>, r: Rest, r': Rest, y: Layout, hash: Hash, keyOf: nat -> Key,
                  key: Key, m: nat, t: nat) returns (states': seq<State>, actions': seq<Action>)
    requires c.retryOnFailure && Trace(c, states, actions) && |states| == |actions| + 1
    requires Operates(r, r', hash, key) && Fits(r', y) && AllLookUp(c, y, hash, keyOf) && |r.l.slots| > 0 && m == ChainOf(r.l, hash, key)
    requires Before(states[|actions|], r, hash, m, t)
    ensures Trace(c, states', actions') && GoesOn(states, actions, states', actions', 1)
    ensures actions'[|actions'| - 1] == Unlock(t) && Shows(states'[|actions'| - 1], r', hash)
    ensures Afterwards(states[|actions|], states'[|actions'|], r', hash, m)
  {
    hide Trace, GoesOn, Operates, AtRest, MemoryOf, OwnersOf, AllLookUp, ChainOf;
    var s := states[|actions|];
    Owned(s, r, hash);
    var states1, actions1 := EnterBucket(c, states, actions, t, m);
    var states2, actions2 := Rewrite(c, states1, actions1, r, r', hash, key, t, m);
    GoesOnTrans(states, actions, states1, actions1, states2, actions2, 0);
    assert IsInside(states2[|actions2|], t, m);
    states', actions' := LeaveBucket(c, states2, actions2, r', y, hash, keyOf, t, m);
    GoesOnTrans(states, actions, states2, actions2, states', actions', 1);
    assert states'[|actions'|].version == s.version[m := s.version[m] + 2];
    assert states'[|actions'|].writers == s.writers;
  }

  // ---------- A lookup that nobody disturbs ----------

  lemma {:induction false} ReplaysPrefix(c: Config, t: nat, mem: seq<int>, seen: seq<int>, n: nat)
    requires Replays(c, t, mem, seen) && n < |seen|
    ensures var move := c.reader(t, seen[..n]); move.Fetch? && move.cell < |mem| && seen[n] == mem[move.cell]
    decreases |seen|
  {
    if n < |seen| - 1 {
      var before := seen[..|seen| - 1];
      ReplaysPrefix(c, t, mem, before, n);
      assert before[..n] == seen[..n];
    }
  }

  /** Reader `t` has fetched the first `n` values and goes on, alone, to the end. */
  lemma {:induction false} ReadOn(c: Config, states: seq<State>, actions: seq<Action>, t: nat, v: nat, answer: seq<int>, n: nat,
                                  mem0: seq<int>, owner0: seq<int>) returns (states': seq<State>, actions': seq<Action>)
    requires Trace(c, states, actions) && |states| == |actions| + 1 && n <= |answer|
    requires var s := states[|actions|];
      && |s.mem| == |s.owner| && Replays(c, t, s.mem, answer)
      && t in s.readers && s.readers[t] == Reading(v, answer[..n], mem0, owner0)
    ensures Trace(c, states', actions') && GoesOn(states, actions, states', actions', 0) && |states'| == |actions'| + 1
    ensures var s := states[|actions|];
      states'[|actions'|] == s.(readers := s.readers[t := Reading(v, answer, mem0, owner0)])
    decreases |answer| - n
  {
    hide Trace, GoesOn;
    var s := states[|actions|];
    if n == |answer| {
      assert answer[..n] == answer;
      assert s.readers[t := Reading(v, answer, mem0, owner0)] == s.readers;
      states', actions' := states, actions;
      Stays(states, actions);
    } else {
      ReplaysPrefix(c, t, s.mem, answer, n);
      assert answer[..n] + [answer[n]] == answer[..n + 1];
      var s1 := s.(readers := s.readers[t := Reading(v, answer[..n + 1], mem0, owner0)]);
      var states1, actions1 := Then(c, states, actions, Read(t), s1);
      states', actions' := ReadOn(c, states1, actions1, t, v, answer, n + 1, mem0, owner0);
      GoesOnTrans(states, actions, states1, actions1, states', actions', 0);
      assert s1.readers[t := Reading(v, answer, mem0, owner0)] == s.readers[t := Reading(v, answer, mem0, owner0)];
    }
  }

  /** A reader alone, at an even version, is accepted with its answer. */
  lemma ReadAlone(c: Config, states: seq<State>, actions: seq<Action>, t: nat, answer: seq<int>)
    returns (states': seq<State>, actions': seq<Action>)
    requires Trace(c, states, actions) && |states| == |actions| + 1
    requires var s := states[|actions|];
      && |s.mem| == |s.owner| && c.target(t) < |s.version| && s.version[c.target(t)] % 2 == 0
      && t in s.readers && !s.readers[t].Reading? && Replays(c, t, s.mem, answer) && c.reader(t, answer) == Done
    ensures Trace(c, states', actions') && GoesOn(states, actions, states', actions', 0) && |states'| == |actions'| + 1
    ensures var s := states[|actions|];
      states'[|actions'|] == s.(readers := s.readers[t := Accepted(s.version[c.target(t)], answer)])
  {
    hide Trace, GoesOn;
    var s := states[|actions|];
    var v := s.version[c.target(t)];
    var s1 := s.(readers := s.readers[t := Reading(v, [], s.mem, s.owner)]);
    var states1, actions1 := Then(c, states, actions, Begin(t), s1);
    assert answer[..0] == [];
    var states2, actions2 := ReadOn(c, states1, actions1, t, v, answer, 0, s.mem, s.owner);
    GoesOnTrans(states, actions, states1, actions1, states2, actions2, 0);
    var s2 := states2[|actions2|];
    var s3 := s2.(readers := s2.readers[t := Accepted(v, answer)]);
    states', actions' := Then(c, states2, actions2, End(t), s3);
    GoesOnTrans(states, actions, states2, actions2, states', actions', 0);
    assert s3.readers == s.readers[t := Accepted(v, answer)];
  }

  /** With the log `r` in memory and its bucket not held, a lookup is possible: it ends, is accepted,
      and answers what the table of `r` says. */
  lemma LookupSucceeds(c: Config, states: seq<State>, actions: seq<Action>, r: Rest, y: Layout, hash: Hash, keyOf: nat -> Key, t: nat)
    returns (states': seq<State>, actions': seq<Action>)
    requires Trace(c, states, actions) && |states| == |actions| + 1
    requires Fits(r, y) && AllLookUp(c, y, hash, keyOf)
    requires var s, m := states[|actions|], BucketOf(hash(keyOf(t)), y.mainSize);
      && Shows(s, r, hash) && m < |s.version| && s.version[m] % 2 == 0 && t in s.readers && !s.readers[t].Reading?
    ensures Trace(c, states', actions') && GoesOn(states, actions, states', actions', 0) && |states'| == |actions'| + 1
    ensures var q, s, s' := QueryOf(y.total, y.mainSize, y.base, hash, keyOf(t)), states[|actions|], states'[|actions'|];
      && s'.mem == s.mem && s'.owner == s.owner && s'.version == s.version && s'.writers == s.writers
      && t in s'.readers && s'.readers[t].Accepted? && Answers(q, r.l, s'.readers[t].answer)
  {
    var q := QueryOf(y.total, y.mainSize, y.base, hash, keyOf(t));
    assert LooksUp(c, t, q);
    var s := states[|actions|];
    RestFacts(r, hash);
    LaidOut(r, hash, q.main);
    Owned(s, r, hash);
    hide Trace, GoesOn, Shows, AllLookUp, Published, Answers;
    var answer := LookupFinishes(c, t, q, r.p, r.l, hash, s.mem, s.owner);
    states', actions' := ReadAlone(c, states, actions, t, answer);
  }

  // ---------- The log's own operations ----------

  ghost function RestOf(log: C.CircularLog): Rest
    reads log, log.heap, log.heap.words, log.heap.heads, log.pool, log.pool.version, log.pool.next, log.pool.entries
  {
    Rest(log.pool.View(), log.View())
  }

  lemma LogAtRest(log: C.CircularLog)
    requires log.Valid()
    ensures AtRest(RestOf(log), log.hash) && |RestOf(log).l.slots| == log.pool.mainSize > 0
  {}

  /** Put, and the critical section it stands for: from a run that has come to the log in memory to
      one that has come to the new log, with the version two up.  Nothing is said of a put that
      finds no block and leaves without unlocking, or that faults. */
  method PutUnderLock(log: C.CircularLog, e: Entry, keyhash: nat, ghost c: Config, ghost states: seq<State>, ghost actions: seq<Action>,
                      ghost y: Layout, ghost keyOf: nat -> Key, ghost t: nat)
    returns (ok: bool, ghost placed: bool, ghost states': seq<State>, ghost actions': seq<Action>)
    requires log.Valid() && keyhash == log.hash(e.key) && |e.key| < MAX_UINT32 && |e.val| < MAX_UINT32
    requires c.retryOnFailure && Trace(c, states, actions) && |states| == |actions| + 1
    requires AllLookUp(c, y, log.hash, keyOf) && Fits(RestOf(log), y)
    requires Before(states[|actions|], RestOf(log), log.hash, BucketOf(keyhash, log.pool.mainSize), t)
    modifies log`dir, log`table, log`leaked, log.heap`blocks, log.heap`lists, log.heap.words, log.heap.heads
    modifies log.pool`chains, log.pool`slots, log.pool`claimed, log.pool.version, log.pool.next, log.pool.entries
    ensures ok ==> log.Valid() && log.table == if placed then old(log.table)[e.key := e] else old(log.table) - {e.key}
    ensures ok ==> Trace(c, states', actions') && GoesOn(states, actions, states', actions', 1)
    ensures ok ==> Afterwards(states[|actions|], states'[|actions'|], RestOf(log), log.hash, BucketOf(keyhash, log.pool.mainSize))
  {
    hide AtRest, Shows, GoesOn, Trace, AllLookUp, OthersKept, HeapInvariant.Inv, PoolInvariant.Inv, Consistent;
    ghost var r, m := RestOf(log), BucketOf(keyhash, log.pool.mainSize);
    LogAtRest(log);
    var fault;
    ghost var mid;
    ok, fault, placed, mid := log.Put(e, keyhash);
    states', actions' := states, actions;
    if ok {
      LogAtRest(log);
      assert Operates(r, RestOf(log), log.hash, e.key);
      states', actions' := Operation(c, states, actions, r, RestOf(log), y, log.hash, keyOf, e.key, m, t);
    }
  }

  /** Remove, likewise. */
  method RemoveUnderLock(log: C.CircularLog, key: Key, keyhash: nat, ghost c: Config, ghost states: seq<State>, ghost actions: seq<Action>,
                         ghost y: Layout, ghost keyOf: nat -> Key, ghost t: nat)
    returns (removed: bool, ghost states': seq<State>, ghost actions': seq<Action>)
    requires log.Valid() && keyhash == log.hash(key)
    requires c.retryOnFailure && Trace(c, states, actions) && |states| == |actions| + 1
    requires AllLookUp(c, y, log.hash, keyOf) && Fits(RestOf(log), y)
    requires Before(states[|actions|], RestOf(log), log.hash, BucketOf(keyhash, log.pool.mainSize), t)
    modifies log`dir, log`table, log`leaked, log.heap`blocks, log.heap`lists, log.heap.words, log.heap.heads
    modifies log.pool`slots, log.pool.version, log.pool.entries
    ensures log.Valid() && removed == (key in old(log.table)) && log.table == old(log.table) - {key}
    ensures Trace(c, states', actions') && GoesOn(states, actions, states', actions', 1)
    ensures Afterwards(states[|actions|], states'[|actions'|], RestOf(log), log.hash, BucketOf(keyhash, log.pool.mainSize))
  {
    hide AtRest, Shows, GoesOn, Trace, AllLookUp, OthersKept, HeapInvariant.Inv, PoolInvariant.Inv, Consistent;
    ghost var r, m := RestOf(log), BucketOf(keyhash, log.pool.mainSize);
    LogAtRest(log);
    removed := log.Remove(key, keyhash);
    LogAtRest(log);
    assert Operates(r, RestOf(log), log.hash, key);
    states', actions' := Operation(c, states, actions, r, RestOf(log), y, log.hash, keyOf, key, m, t);
  }
}
