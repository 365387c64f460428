/** A second key with the first one's bucket and tag: looking it up as written never ends. */
module LogExamples {
  import opened Arithmetic
  import opened Blocks
  import opened HeapInvariant
  import opened HeapSteps
  import opened FreeLists
  import opened PoolInvariant
  import opened BucketPool
  import opened LogEntry
  import opened LogIndex
  import C = CircularLog
  import SegregatedFits

  /** A heap of one free block of the largest class serves any class. */
  lemma OneBlockServes(v: HeapState, n: nat, c: nat)
    requires HeapInvariant.Inv(v, {}) && n >= 1 && v.b == WholeRegion(n) && |v.w| == n <= |v.h| + 2 && c < |v.h| && c + 3 <= n
    ensures !OutOfRangeRequest(v, c) && !Unservable(v, c)
  {
    assert v.b[0] == Block(n, false);
    if FirstClass(v.q, c + 1) < |v.q| {
      OverflowExactly(v, c);
    }
  }

  /** A fresh log with one main bucket and one free block; every key has hash 0. */
  method FreshLog() returns (log: C.CircularLog)
    ensures fresh(log) && fresh(log.heap) && fresh(log.heap.words) && fresh(log.heap.heads)
    ensures fresh(log.pool) && fresh(log.pool.version) && fresh(log.pool.next) && fresh(log.pool.entries)
    ensures log.Valid() && log.pool.mainSize == 1 && log.hash == (key => 0) && log.table == map[]
    ensures log.heap.blocks == WholeRegion(162) && log.heap.words.Length == 162 && log.heap.heads.Length == 160
    ensures !log.heap.repaired && log.Room(0)
  {
    hide HeapInvariant.Inv, PoolInvariant.Inv, Consistent, WholeRegion;
    var pool := new BucketPool(1, 0);
    log := new C.CircularLog(pool, 0, 1296, false, key => 0);
    assert SegregatedFits.ClassCount(C.SEGREGATED_MAX_DATA_SIZE) == 160;
    assert |pool.slots| == 1 by { log.Domain(); }
    assert First(pool.slots[0], IsEmpty, 0) == 0;
  }

  /** A log in which the empty key is stored. */
  method OneKey() returns (log: C.CircularLog)
    ensures log.Valid() && log.pool.mainSize == 1 && log.hash == (key => 0)
    ensures log.table == map[[] := Entry([], [], 0)]
  {
    hide HeapInvariant.Inv, PoolInvariant.Inv, Consistent, WholeRegion, Unservable, OutOfRangeRequest, OthersKept, FreeLists.ReleaseLists, Release;
    log := FreshLog();
    var e := Entry([], [], 0);
    assert e.Size() == 32 && C.ClassOf(e) == 3;
    log.Domain();
    var ok, fault;
    ghost var placed, mid;
    ok, fault, placed, mid := log.Put(e, 0);
    OneBlockServes(mid, 162, 3);
  }

  /** Looking up, putting or removing the key [1] then never gets past the slot of the first key. */
  method SecondKeyHangs() returns (log: C.CircularLog)
    ensures log.Valid() && |log.table| == 1
    ensures |log.View().slots| > 0 && forall fuel: nat :: LoopAsWritten(log.View(), log.hash, [1], fuel).Running?
  {
    log := OneKey();
    log.Domain();
    Hangs(log.View(), log.hash, [], [1]);
  }

  /** One key is stored, another collides with it. */
  lemma Hangs(l: Log, hash: Hash, stored: Key, key: Key)
    requires Consistent(l, hash) && l.table.Keys == {stored} && Collide(hash, |l.slots|, stored, key)
    ensures forall fuel: nat :: LoopAsWritten(l, hash, key, fuel).Running?
  {
    hide BucketOf, TagOf;
    assert l.dir.Keys == {stored};
    forall fuel: nat ensures LoopAsWritten(l, hash, key, fuel).Running? {
      if fuel > 0 { LookupEndsExactly(l, hash, key, fuel); }
    }
  }
}
