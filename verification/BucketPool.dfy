/** The bucket index: fifteen-slot buckets with overflow chains into a pool of spares. */
module BucketPool {
  import opened Arithmetic
  import opened PoolInvariant

  // ---------- Portions of the key hash ----------

  /** lookup_key_tag_hash_portion: the low 16 bits, never the empty marker. */
  function TagOf(keyhash: nat): (tag: nat)
    ensures 1 <= tag <= 0xffff
  {
    var tag := keyhash % 0x1_0000;
    if tag == 0 then 0xffff else tag
  }

  /** Bitwise conjunction. */
  function BitAnd(x: nat, y: nat): nat
    decreases x
  {
    if x == 0 || y == 0 then 0 else 2 * BitAnd(x / 2, y / 2) + (x % 2) * (y % 2)
  }

  lemma BitAndBound(x: nat, y: nat)
    ensures BitAnd(x, y) <= y
    decreases x
  {
    if x != 0 && y != 0 {
      BitAndBound(x / 2, y / 2);
      assert (x % 2) * (y % 2) <= y % 2;
    }
  }

  /** bucket_hash_portion, masked as in get_entry_bucket. */
  function BucketOf(keyhash: nat, mainSize: nat): (m: nat)
    requires mainSize > 0
    ensures m < mainSize
  {
    var portion := keyhash / 0x1_0000 % MAX_UINT32;
    BitAndBound(portion, mainSize - 1);
    BitAnd(portion, mainSize - 1)
  }

  // ---------- Slots in chain order ----------

  datatype Sought = IsEmpty | HasTag(tag: nat) | Is(slot: Slot)

  predicate Matches(q: Sought, x: Slot) {
    match q
    case IsEmpty => x.tag == 0
    case HasTag(tag) => x.tag == tag
    case Is(slot) => x == slot
  }

  /** The first slot at or after `from` that matches; the number of slots if none does. */
  ghost function First(s: seq<Slot>, q: Sought, from: nat): (r: nat)
    requires from <= |s|
    ensures from <= r <= |s| && (r < |s| ==> Matches(q, s[r]))
    ensures forall j {:trigger s[j]} | from <= j < r :: !Matches(q, s[j])
    decreases |s| - from
  {
    if from == |s| || Matches(q, s[from]) then from else First(s, q, from + 1)
  }

  /** An entry goes to the first empty slot, else to a fresh bucket at the end if there is one. */
  ghost function Placed(s: seq<Slot>, x: Slot, room: bool): seq<Slot> {
    var j := First(s, IsEmpty, 0);
    if j < |s| then s[j := x]
    else if room then s + NoSlots()[0 := x]
    else s
  }

  /** The entries in use. */
  ghost function Live(s: seq<Slot>): multiset<Slot> {
    multiset(s)[EMPTY := 0]
  }

  /** Placing an entry adds it to those in use and nothing else, and fails exactly when every slot
      is taken and there is no spare bucket left; then nothing changes. */
  lemma PlacedLive(s: seq<Slot>, x: Slot, room: bool)
    requires Clean(s) && x.tag != 0
    ensures Clean(Placed(s, x, room))
    ensures if room || exists j :: 0 <= j < |s| && s[j].tag == 0
            then Live(Placed(s, x, room)) == Live(s) + multiset{x}
            else Placed(s, x, room) == s
  {
    var j := First(s, IsEmpty, 0);
    if j < |s| {
      assert s[j] == EMPTY;
      MultisetUpdate(s, j, x);
    } else if room {
      NewBucketLive(s, x);
    }
  }

  lemma NewBucketLive(s: seq<Slot>, x: Slot)
    requires Clean(s) && x.tag != 0
    ensures Clean(s + NoSlots()[0 := x]) && Live(s + NoSlots()[0 := x]) == Live(s) + multiset{x}
  {
    var rest := NoSlots()[1..];
    assert NoSlots()[0 := x] == [x] + rest;
    assert s + ([x] + rest) == (s + [x]) + rest;
    forall y | y != EMPTY ensures multiset(rest)[y] == 0 {
      assert y !in rest;
    }
    assert Live(s + NoSlots()[0 := x]) == Live(s + [x]);
  }

  /** Clearing a slot in use takes its entry out of those in use and nothing else. */
  lemma ClearedLive(s: seq<Slot>, j: nat)
    requires Clean(s) && j < |s| && s[j].tag != 0
    ensures Clean(s[j := EMPTY]) && Live(s[j := EMPTY]) == Live(s) - multiset{s[j]}
  {
    MultisetUpdate(s, j, EMPTY);
  }

  lemma MultisetUpdate(s: seq<Slot>, j: nat, x: Slot)
    requires j < |s|
    ensures multiset(s[j := x]) == multiset(s) - multiset{s[j]} + multiset{x}
  {
    assert s == s[..j] + [s[j]] + s[j + 1..];
    assert s[j := x] == s[..j] + [x] + s[j + 1..];
  }

  /** The positions that repeated searches report when the cursor moves past every hit. */
  ghost function Hits(s: seq<Slot>, q: Sought, from: nat): seq<nat>
    requires from <= |s|
    decreases |s| - from
  {
    var j := First(s, q, from);
    if j == |s| then [] else [j] + Hits(s, q, j + 1)
  }

  /** Repeated searches visit every matching slot, in order and once. */
  lemma {:induction false} HitsAll(s: seq<Slot>, q: Sought, from: nat)
    requires from <= |s|
    ensures forall j :: j in Hits(s, q, from) <==> from <= j < |s| && Matches(q, s[j])
    ensures forall a, b | 0 <= a < b < |Hits(s, q, from)| :: Hits(s, q, from)[a] < Hits(s, q, from)[b]
    decreases |s| - from
  {
    var j := First(s, q, from);
    if j < |s| {
      HitsAll(s, q, j + 1);
      var h := Hits(s, q, j + 1);
      forall a, b | 0 <= a < b < |[j] + h| ensures ([j] + h)[a] < ([j] + h)[b] {
        assert h[b - 1] in h;
      }
    }
  }

  // ---------- The lookup loop, as written and corrected ----------

  datatype LookupResult = Running | Missing | FoundAt(j: nat)

  /** The loop around search_index_entry after `fuel` rounds: `same` are the slots whose entry has
      the key, and the cursor goes `advance` slots past a hit: 0 as written, 1 as intended. */
  ghost function LookupLoop(s: seq<Slot>, q: Sought, same: set<nat>, from: nat, advance: nat, fuel: nat): LookupResult
    requires from <= |s| && advance <= 1
    decreases fuel
  {
    if fuel == 0 then Running
    else
      var j := First(s, q, from);
      if j == |s| then Missing
      else if j in same then FoundAt(j)
      else LookupLoop(s, q, same, j + advance, advance, fuel - 1)
  }

  /** Moving past each hit, the loop ends and finds the key's slot exactly if there is one. */
  lemma {:induction false} CorrectedLookup(s: seq<Slot>, q: Sought, same: set<nat>, from: nat, fuel: nat)
    requires from <= |s| && fuel > |s| - from
    ensures var r := LookupLoop(s, q, same, from, 1, fuel);
      && !r.Running?
      && (r.Missing? <==> forall j {:trigger s[j]} | from <= j < |s| && Matches(q, s[j]) :: j !in same)
      && (r.FoundAt? ==> from <= r.j < |s| && Matches(q, s[r.j]) && r.j in same)
    decreases fuel
  {
    var j := First(s, q, from);
    if j < |s| && j !in same {
      CorrectedLookup(s, q, same, j + 1, fuel - 1);
    }
  }

  /** As written the loop ends exactly if no slot has the tag or the first one that does is the
      key's; then it agrees with the corrected loop.  Otherwise it runs forever. */
  lemma {:induction false} LookupAsWritten(s: seq<Slot>, q: Sought, same: set<nat>, fuel: nat)
    requires fuel > 0
    ensures var j := First(s, q, 0);
      var r := LookupLoop(s, q, same, 0, 0, fuel);
      && (!r.Running? <==> j == |s| || j in same)
      && (!r.Running? ==> r == LookupLoop(s, q, same, 0, 1, fuel))
  {
    var j := First(s, q, 0);
    if j < |s| && j !in same {
      StuckAtHit(s, q, same, j, fuel - 1);
    }
  }

  lemma {:induction false} StuckAtHit(s: seq<Slot>, q: Sought, same: set<nat>, j: nat, fuel: nat)
    requires j < |s| && Matches(q, s[j]) && j !in same
    ensures LookupLoop(s, q, same, j, 0, fuel) == Running
    decreases fuel
  {
    if fuel > 0 { StuckAtHit(s, q, same, j, fuel - 1); }
  }

  lemma PlacedAtEnd(s: seq<Slot>, x: Slot)
    requires First(s, IsEmpty, 0) == |s|
    ensures Placed(s, x, true) == (s + NoSlots())[|s| := x]
  {}

  class BucketPool {
    const mainSize: nat
    const spareSize: nat
    const version: array<nat>
    const next: array<nat>
    const entries: array<Slot>
    ghost var chains: seq<seq<nat>>
    ghost var slots: seq<seq<Slot>>
    ghost var claimed: nat

    ghost function View(): (p: Pool)
      reads this, version, next, entries
    {
      Pool(version[..], next[..], entries[..], chains, slots, claimed)
    }

    /** Pool sizes: the byte size of all buckets fits 32 bits, as create_bucket_pool computes it. */
    ghost predicate Shape()
      reads this
    {
      && version != next && mainSize > 0 && BUCKET_BYTES * (mainSize + spareSize) < MAX_UINT32
      && version.Length == next.Length == mainSize + spareSize && entries.Length == BUCKET_ENTRIES * (mainSize + spareSize)
      && |chains| == |slots| == mainSize
    }

    ghost predicate Valid()
      reads this, version, next, entries
    {
      Shape() && Inv(View())
    }

    /** create_bucket_pool, over memory set to zero */
    constructor (mainSize: nat, spareSize: nat)
      requires mainSize > 0 && BUCKET_BYTES * (mainSize + spareSize) < MAX_UINT32
      ensures Valid() && this.mainSize == mainSize && this.spareSize == spareSize && claimed == 0
      ensures forall m | 0 <= m < mainSize :: slots[m] == NoSlots()
      ensures forall b | 0 <= b < version.Length :: version[b] == 0
      ensures fresh(version) && fresh(next) && fresh(entries)
    {
      this.mainSize := mainSize;
      this.spareSize := spareSize;
      var total := mainSize + spareSize;
      version := new nat[total](_ => 0);
      next := new nat[total](_ => 0);
      entries := new Slot[BUCKET_ENTRIES * total](_ => EMPTY);
      chains := seq(mainSize, m => [m]);
      slots := seq(mainSize, _ => NoSlots());
      claimed := 0;
      new;
      FreshInv(View());
    }

    /** Chain `m`, its `k`-th bucket and that bucket's slot `i`. */
    lemma Facts(m: nat, k: nat, i: nat)
      requires Valid() && m < mainSize && k < |chains[m]| && i < BUCKET_ENTRIES
      ensures ChainOk(View(), m) && LinkOk(View(), m, k) && SlotOk(View(), m, k, i) && Clean(slots[m])
      ensures claimed <= spareSize
    {
      assert ChainOk(View(), m) && LinkOk(View(), m, k) && SlotOk(View(), m, k, i) && Clean(View().slots[m]);
    }

    lemma ChainFacts(m: nat)
      requires Valid() && m < mainSize
      ensures ChainOk(View(), m) && chains[m][0] == m && Clean(slots[m]) && claimed <= spareSize
    {
      assert ChainOk(View(), m) && LinkOk(View(), m, 0) && Clean(View().slots[m]);
    }

    /** next_spare_bucket */
    method NextSpareBucket(b: nat, ghost m: nat, ghost k: nat) returns (r: int)
      requires Valid() && m < mainSize && k < |chains[m]| && b == chains[m][k]
      ensures r == if k + 1 < |chains[m]| then chains[m][k + 1] else -1
    {
      assert LinkOk(View(), m, k);
      if next[b] == 0 {
        return -1;
      }
      return b + next[b] / BUCKET_BYTES;
    }

    /** next_empty_spare_bucket: the lowest spare with version 0, whose version becomes 2. */
    method NextEmptySpareBucket() returns (r: int)
      requires Valid()
      modifies version
      ensures r == -1 ==> claimed == spareSize && version[..] == old(version[..])
      ensures r != -1 ==> claimed < spareSize && r == mainSize + claimed && version[..] == old(version[..])[r := 2]
    {
      var i := 0;
      while i < spareSize
        invariant 0 <= i <= claimed && i <= spareSize
      {
        assert SpareOk(View(), mainSize + i);
        if version[mainSize + i] == 0 {
          version[mainSize + i] := 2;
          return mainSize + i;
        }
        i := i + 1;
      }
      return -1;
    }

    /** The loop over one bucket's entries, shared by search, insert and delete: the first entry at
        or after `from` that matches, or 15. */
    method ScanEntries(b: nat, q: Sought, from: nat, ghost m: nat, ghost k: nat) returns (i: nat)
      requires Valid() && m < mainSize && k < |chains[m]| && b == chains[m][k] && from <= BUCKET_ENTRIES
      ensures i <= BUCKET_ENTRIES && |slots[m]| == BUCKET_ENTRIES * |chains[m]|
      ensures First(slots[m], q, BUCKET_ENTRIES * k + from) ==
              if i < BUCKET_ENTRIES then BUCKET_ENTRIES * k + i else First(slots[m], q, BUCKET_ENTRIES * (k + 1))
    {
      hide Inv;
      ChainFacts(m);
      i := from;
      while i < BUCKET_ENTRIES
        invariant from <= i <= BUCKET_ENTRIES
        invariant First(slots[m], q, BUCKET_ENTRIES * k + from) == First(slots[m], q, BUCKET_ENTRIES * k + i)
      {
        Facts(m, k, i);
        if Matches(q, entries[BUCKET_ENTRIES * b + i]) {
          return;
        }
        i := i + 1;
      }
    }

    /** search_index_entry: from slot `index` of bucket `b` on, find the next slot with the tag. */
    method SearchIndexEntry(b: nat, keyhash: nat, index: nat, ghost m: nat, ghost k: nat)
      returns (found: bool, b': int, index': nat, ghost k': nat)
      requires Valid() && m < mainSize && k < |chains[m]| && b == chains[m][k] && index <= BUCKET_ENTRIES
      requires |slots[m]| == BUCKET_ENTRIES * |chains[m]|
      ensures var q := First(slots[m], HasTag(TagOf(keyhash)), BUCKET_ENTRIES * k + index);
        && (found <==> q < |slots[m]|)
        && (found ==> k' < |chains[m]| && b' == chains[m][k'] && index' < BUCKET_ENTRIES && BUCKET_ENTRIES * k' + index' == q)
        && (!found ==> b' == -1 && index' == 0)
    {
      hide Inv;
      ghost var tag := HasTag(TagOf(keyhash));
      ghost var start := BUCKET_ENTRIES * k + index;
      b', index', k' := b, index, k;
      while b' != -1
        invariant b' != -1 ==> k' < |chains[m]| && b' == chains[m][k'] && index' <= BUCKET_ENTRIES
        invariant b' != -1 ==> First(slots[m], tag, start) == First(slots[m], tag, BUCKET_ENTRIES * k' + index')
        invariant b' == -1 ==> First(slots[m], tag, start) == |slots[m]| && index' == 0
        decreases if b' == -1 then 0 else |chains[m]| - k'
      {
        var i := ScanEntries(b', HasTag(TagOf(keyhash)), index', m, k');
        if i < BUCKET_ENTRIES {
          return true, b', i, k';
        }
        index' := 0;
        b' := NextSpareBucket(b', m, k');
        k' := k' + 1;
      }
      found := false;
    }

    /** Write one slot of chain `m`: an index entry's tag and offset. */
    method Store(b: nat, i: nat, x: Slot, ghost m: nat, ghost k: nat)
      requires Valid() && m < mainSize && k < |chains[m]| && b == chains[m][k] && i < BUCKET_ENTRIES
      requires x.tag == 0 ==> x == EMPTY
      modifies entries, this`slots
      ensures Valid() && BUCKET_ENTRIES * k + i < |old(slots)[m]|
      ensures slots == old(slots)[m := old(slots)[m][BUCKET_ENTRIES * k + i := x]]
    {
      hide Inv;
      Facts(m, k, i);
      StoreStep(View(), m, k, i, x);
      entries[BUCKET_ENTRIES * b + i] := x;
      slots := slots[m := slots[m][BUCKET_ENTRIES * k + i := x]];
      assert View() == Stored(old(View()), m, k, i, x);
    }

    /** delete_index_entry_with_index */
    method DeleteIndexEntryWithIndex(b: nat, index: nat, ghost m: nat, ghost k: nat)
      requires Valid() && m < mainSize && k < |chains[m]| && b == chains[m][k] && index < BUCKET_ENTRIES
      modifies entries, this`slots
      ensures Valid() && BUCKET_ENTRIES * k + index < |old(slots)[m]|
      ensures slots == old(slots)[m := old(slots)[m][BUCKET_ENTRIES * k + index := EMPTY]]
    {
      Store(b, index, EMPTY, m, k);
    }

    /** Claim a spare and link it to the last bucket of chain `m`. */
    method ExtendChain(b: nat, ghost m: nat) returns (r: int)
      requires Valid() && m < mainSize && |chains[m]| > 0 && b == chains[m][|chains[m]| - 1]
      modifies version, next, this`chains, this`slots, this`claimed
      ensures Valid() && forall i | 0 <= i < mainSize :: version[i] == old(version[i])
      ensures r == -1 <==> old(claimed) == spareSize
      ensures r == -1 ==> View() == old(View())
      ensures r != -1 ==>
                && claimed == old(claimed) + 1 && r == mainSize + old(claimed)
                && chains == old(chains)[m := old(chains)[m] + [r]]
                && slots == old(slots)[m := old(slots)[m] + NoSlots()]
    {
      hide Inv;
      ghost var v := View();
      Facts(m, |chains[m]| - 1, 0);
      r := NextEmptySpareBucket();
      if r != -1 {
        ExtendStep(v, m);
        next[b] := (BUCKET_BYTES * (r - b)) % MAX_UINT32;
        Remainder(BUCKET_BYTES * (r - b), 0, BUCKET_BYTES * (r - b), MAX_UINT32);
        chains := chains[m := chains[m] + [r]];
        slots := slots[m := slots[m] + NoSlots()];
        claimed := claimed + 1;
        assert version[..] == Extended(v, m).version;
        assert next[..] == Extended(v, m).next;
        assert View() == Extended(v, m);
      } else {
        assert View() == v;
      }
    }

    /** insert_index_entry, called with a main bucket */
    method InsertIndexEntry(m: nat, keyhash: nat, offset: nat) returns (ok: bool)
      requires Valid() && m < mainSize
      modifies version, next, entries, this`chains, this`slots, this`claimed
      ensures Valid() && forall i | 0 <= i < mainSize :: version[i] == old(version[i])
      ensures var x, room := Slot(TagOf(keyhash), offset), old(claimed) < spareSize;
        && slots == old(slots)[m := Placed(old(slots)[m], x, room)]
        && (ok <==> First(old(slots)[m], IsEmpty, 0) < |old(slots)[m]| || room)
        && (if First(old(slots)[m], IsEmpty, 0) < |old(slots)[m]| || !room then chains == old(chains) && claimed == old(claimed)
            else chains == old(chains)[m := old(chains)[m] + [mainSize + old(claimed)]] && claimed == old(claimed) + 1)
      ensures !ok ==> View() == old(View())
    {
      hide Inv;
      ChainFacts(m);
      ghost var s := slots[m];
      var b: int, x := m, Slot(TagOf(keyhash), offset);
      ghost var k := 0;
      while b != -1
        invariant Valid() && View() == old(View()) && s == slots[m] && |s| == BUCKET_ENTRIES * |chains[m]|
        invariant b != -1 ==> k < |chains[m]| && b == chains[m][k]
        invariant b != -1 ==> First(s, IsEmpty, 0) == First(s, IsEmpty, BUCKET_ENTRIES * k)
        invariant b == -1 ==> First(s, IsEmpty, 0) == |s| && claimed == spareSize
        decreases if b == -1 then 0 else |chains[m]| - k
      {
        var i := ScanEntries(b, IsEmpty, 0, m, k);
        if i < BUCKET_ENTRIES {
          Store(b, i, x, m, k);
          return true;
        }
        var following := NextSpareBucket(b, m, k);
        k := k + 1;
        if following == -1 {
          following := ExtendChain(b, m);
          if following != -1 {
            Store(following, 0, x, m, k);
            PlacedAtEnd(s, x);
            assert slots == old(slots)[m := (s + NoSlots())[|s| := x]];
            return true;
          }
        }
        b := following;
      }
      return false;
    }

    /** delete_index_entry: clear the first slot with this tag and offset, if there is one. */
    method DeleteIndexEntry(m: nat, keyhash: nat, offset: nat)
      requires Valid() && m < mainSize
      modifies entries, this`slots
      ensures Valid()
      ensures var s := old(slots)[m];
        var j := First(s, Is(Slot(TagOf(keyhash), offset)), 0);
        slots == if j < |s| then old(slots)[m := s[j := EMPTY]] else old(slots)
    {
      hide Inv;
      ChainFacts(m);
      ghost var s, q := slots[m], Is(Slot(TagOf(keyhash), offset));
      var b: int := m;
      ghost var k := 0;
      while b != -1
        invariant Valid() && slots == old(slots) && s == slots[m] && |s| == BUCKET_ENTRIES * |chains[m]|
        invariant b != -1 ==> k < |chains[m]| && b == chains[m][k]
        invariant if b != -1 then First(s, q, 0) == First(s, q, BUCKET_ENTRIES * k) else First(s, q, 0) == |s|
        decreases if b == -1 then 0 else |chains[m]| - k
      {
        var i := ScanEntries(b, Is(Slot(TagOf(keyhash), offset)), 0, m, k);
        if i < BUCKET_ENTRIES {
          Store(b, i, EMPTY, m, k);
          return;
        }
        b := NextSpareBucket(b, m, k);
        k := k + 1;
      }
    }

    /** OPTIMISTIC_LOCK as written: it loops while the compare-and-swap succeeds, so alone it makes
        the version odd and stops at the second round. */
    method OptimisticLock(b: nat)
      requires Valid() && b < mainSize
      modifies version
      ensures Valid() && version[..] == old(version[..])[b := old(version[b]) - old(version[b]) % 2 + 1]
    {
      var swapped := true;
      ghost var old_ := version[..];
      while swapped
        invariant version[..] == old_ || version[..] == old_[b := old_[b] - old_[b] % 2 + 1]
        invariant !swapped ==> version[b] % 2 == 1
        decreases if swapped then 1 else 0, if version[b] % 2 == 0 then 1 else 0
      {
        var v := version[b] - version[b] % 2;
        swapped := version[b] == v;
        if swapped {
          version[b] := v + 1;
        }
      }
      VersionInv(old(View()), version[..]);
    }

    /** OPTIMISTIC_UNLOCK */
    method OptimisticUnlock(b: nat)
      requires Valid() && b < mainSize
      modifies version
      ensures Valid() && version[..] == old(version[..])[b := (old(version[b]) + 1) % MAX_UINT32]
    {
      version[b] := (version[b] + 1) % MAX_UINT32;
      VersionInv(old(View()), version[..]);
    }
  }
}
