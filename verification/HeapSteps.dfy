/** The allocator's elementary updates as functions on the concrete heap, each with the proof that
    it keeps the heap invariant and the clients' blocks. */
module HeapSteps {
  import opened Blocks
  import opened HeapInvariant

  /** Header and footer of the block at `s`, of `k` words, overwritten. */
  function Stamp(w: seq<int>, s: nat, k: nat, tag: int): (r: seq<int>)
    requires k >= 1 && s + k <= |w|
    ensures |r| == |w|
  {
    w[s := tag][s + k - 1 := tag]
  }

  lemma StampFacts(w: seq<int>, b: BlockMap, s: nat, used: bool)
    requires s in b && b[s].size >= 1 && s + b[s].size <= |w|
    ensures var u := Stamp(w, s, b[s].size, Tag(Block(b[s].size, used)));
      SameOutside(w, u, b, s) && (b[s].used == used ==> Tagged(u, b, s))
  {}

  /** The loose block at `s` is tagged as free and pushed on list `c`. */
  ghost function Inserted(v: HeapState, s: nat, c: nat): HeapState
    requires c < |v.h| == |v.q| && s in v.b && v.b[s].size == c + 3 && s + c + 3 <= |v.w|
  {
    HeapState(Stamp(v.w, s, c + 3, 8 * (c + 3))[s + 1 := v.h[c]], v.h[c := s + 1],
         Mark(v.b, s, false), v.q[c := [s] + v.q[c]])
  }

  lemma InsertStep(v: HeapState, out: set<nat>, s: nat, c: nat)
    requires Inv(v, out) && s in out && c < |v.h| && v.b[s].size == c + 3
    ensures s + c + 3 <= |v.w|
    ensures Inv(Inserted(v, s, c), out - {s}) && KeepsUsed(v, Inserted(v, s, c), s)
  {
    assert v.b[s].size >= 1;
    var v' := Inserted(v, s, c);
    StoreLoose(v, out, s, v'.w);
    StoreKeeps(v, v'.w, s, s);
    var v1 := v.(w := v'.w);
    MarkInv(v1, out, s, false);
    var v2 := v1.(b := v'.b);
    Push(v2, out, s, c);
    ReshapeKeeps(v1, v', s);
    KeepsUsedTrans(v, v1, v', s, s, s);
  }

  /** The block at `s` gets its used bit set or cleared in both tags. */
  ghost function Flagged(v: HeapState, s: nat, used: bool): HeapState
    requires s in v.b && v.b[s].size >= 1 && s + v.b[s].size <= |v.w|
  {
    v.(w := Stamp(v.w, s, v.b[s].size, Tag(Block(v.b[s].size, used))), b := Mark(v.b, s, used))
  }

  lemma FlagStep(v: HeapState, out: set<nat>, s: nat, used: bool)
    requires Inv(v, out) && s in out
    ensures v.b[s].size >= 1 && s + v.b[s].size <= |v.w|
    ensures Inv(Flagged(v, s, used), out) && KeepsUsed(v, Flagged(v, s, used), s)
    ensures Tagged(Flagged(v, s, used).w, Flagged(v, s, used).b, s)
  {
    assert v.b[s].size >= 1;
    var v' := Flagged(v, s, used);
    StoreLoose(v, out, s, v'.w);
    StoreKeeps(v, v'.w, s, s);
    var v1 := v.(w := v'.w);
    MarkInv(v1, out, s, used);
    ReshapeKeeps(v1, v', s);
    KeepsUsedTrans(v, v1, v', s, s, s);
  }

  /** The first block of list `c` is unlinked and marked used. */
  ghost function Popped(v: HeapState, c: nat): HeapState
    requires Inv(v, {}) && c < |v.h| && v.q[c] != []
  {
    Unlink(v, {}, c, 0);
    var s := v.q[c][0];
    assert {} + {s} == {s};
    FlagStep(Unlinked(v, c, 0), {s}, s, true);
    Flagged(Unlinked(v, c, 0), s, true)
  }

  lemma PopStep(v: HeapState, c: nat)
    requires Inv(v, {}) && c < |v.h| && v.q[c] != []
    ensures var s := v.q[c][0];
      && s in v.b && v.b[s] == Block(c + 3, false)
      && Inv(Popped(v, c), {}) && KeepsUsed(v, Popped(v, c), s)
      && Popped(v, c).b == Mark(v.b, s, true)
  {
    var s := v.q[c][0];
    Unlink(v, {}, c, 0);
    assert {} + {s} == {s};
    var v1 := Unlinked(v, c, 0);
    FlagStep(v1, {s}, s, true);
    var v' := Popped(v, c);
    ReshapeKeeps(v, v1, s);
    KeepsUsedTrans(v, v1, v', s, s, s);
    assert BlockOk(v', s);
    Settle(v', {s}, s);
    assert {s} - {s} == {};
  }

  lemma UnlinkKeeps(v: HeapState, out: set<nat>, c: nat, k: nat)
    requires Inv(v, out) && c < |v.h| && k < |v.q[c]| && (k > 0 ==> NodeOk(v, out, c, k - 1))
    ensures KeepsUsed(v, Unlinked(v, c, k), -1)
    ensures forall s {:trigger KeepsBlock(v, Unlinked(v, c, k), s)} | s in out || s == v.q[c][k] :: KeepsBlock(v, Unlinked(v, c, k), s)
  {
    var v' := Unlinked(v, c, k);
    assert NodeOk(v, out, c, k) && HeadOk(v, c);
    forall s {:trigger KeepsBlock(v, v', s)} | s in v.b && (v.b[s].used || s in out || s == v.q[c][k]) ensures KeepsBlock(v, v', s) {
      assert v.b[s].size >= 1;
      if k > 0 { assert v.b[v.q[c][k - 1]].size >= 1; }
    }
  }

  /** Two adjacent loose blocks become one, tagged as free. */
  ghost function Joined(v: HeapState, a: nat, c: nat): HeapState
    requires a in v.b && c in v.b && a + v.b[a].size == c && v.b[a].size >= 1 && c + v.b[c].size <= |v.w|
  {
    v.(w := Stamp(v.w, a, v.b[a].size + v.b[c].size, 8 * (v.b[a].size + v.b[c].size)), b := Fuse(v.b, a, c))
  }

  lemma FuseStep(v: HeapState, out: set<nat>, a: nat, c: nat)
    requires Inv(v, out) && a in out && c in out && a + v.b[a].size == c && !v.b[a].used && !v.b[c].used
    ensures v.b[a].size >= 1 && v.b[c].size >= 1 && c + v.b[c].size <= |v.w|
    ensures var b := Fuse(v.b, a, c);
      && a in b && b[a] == Block(v.b[a].size + v.b[c].size, false) && a != c && Tiling(|v.w|, b)
      && Inv(v.(b := b), out - {c}) && KeepsUsed(v, v.(b := b), -1)
  {
    assert v.b[a].size >= 1 && v.b[c].size >= 1 && c + v.b[c].size <= |v.w|;
    FuseInv(v, out, a, c);
    FuseTiling(|v.w|, v.b, a, c);
    ReshapeKeeps(v, v.(b := Fuse(v.b, a, c)), -1);
  }

  lemma JoinStep(v: HeapState, out: set<nat>, a: nat, c: nat)
    requires Inv(v, out) && a in out && c in out && a + v.b[a].size == c && !v.b[a].used && !v.b[c].used
    ensures v.b[a].size >= 1 && v.b[c].size >= 1 && c + v.b[c].size <= |v.w|
    ensures Inv(Joined(v, a, c), out - {c}) && KeepsUsed(v, Joined(v, a, c), -1)
    ensures Tagged(Joined(v, a, c).w, Joined(v, a, c).b, a)
  {
    FuseStep(v, out, a, c);
    hide Inv, Tiling, KeepsUsed, Stamp, SameOutside, Tagged, Fuse;
    var v' := Joined(v, a, c);
    var v1 := v.(b := v'.b);
    StampFacts(v.w, v1.b, a, false);
    StoreLoose(v1, out - {c}, a, v'.w);
    StoreKeeps(v1, v'.w, a, -1);
    KeepsUsedTrans(v, v1, v', -1, -1, -1);
  }

  // ---------- Which block an allocation takes ----------

  /** The first non-empty class at or after `i`; the number of classes if there is none. */
  ghost function FirstClass(q: seq<seq<nat>>, i: nat): (r: nat)
    requires i <= |q|
    ensures i <= r <= |q| && (r < |q| ==> q[r] != []) && forall j | i <= j < r :: q[j] == []
    decreases |q| - i
  {
    if i == |q| || q[i] != [] then i else FirstClass(q, i + 1)
  }

  /** The block at `s` is cut for class `c`; the rest absorbs the free blocks to its right. */
  ghost function Halved(n: nat, b: BlockMap, s: nat, c: nat, cap: nat, capped: bool): (r: Merge)
    requires FreeAt(n, b, s) && c + 3 < b[s].size && cap >= 1
    ensures FreeAt(n, r.b, r.cur)
  {
    hide Tiling, Cut;
    CutFree(n, b, s, c + 3);
    AbsorbRight(n, Cut(b, s, c + 3), s + c + 3, cap, capped)
  }

  /** The block that a division for class `c` cuts: the head of the first larger non-empty class. */
  ghost function Victim(v: HeapState, c: nat): (s: nat)
    requires Inv(v, {}) && c < |v.q| && FirstClass(v.q, c + 1) < |v.q|
    ensures s in v.b && !v.b[s].used && v.b[s].size == FirstClass(v.q, c + 1) + 3 > c + 3
  {
    var i := FirstClass(v.q, c + 1);
    assert NodeOk(v, {}, i, 0);
    v.q[i][0]
  }

  ghost function Division(v: HeapState, c: nat, capped: bool): (r: Merge)
    requires Inv(v, {}) && c < |v.q| && FirstClass(v.q, c + 1) < |v.q|
  {
    Halved(|v.w|, v.b, Victim(v, c), c, |v.h| + 2, capped)
  }

  /** Without the size test, the rest of the cut block may grow beyond the largest class. */
  ghost predicate Overflows(v: HeapState, c: nat, capped: bool)
    requires Inv(v, {}) && c < |v.q| && FirstClass(v.q, c + 1) < |v.q|
  {
    var m := Division(v, c, capped);
    m.b[m.cur].size > |v.h| + 2
  }

  lemma AllBounded(v: HeapState)
    requires Inv(v, {})
    ensures Bounded(|v.h| + 2, v.b, {})
  {
    forall s {:trigger v.b[s]} | s in v.b ensures v.b[s].size <= |v.h| + 2 {
      assert BlockOk(v, s);
    }
  }

  lemma CutBounded(b: BlockMap, s: nat, k: nat, cap: nat)
    requires s in b && 0 < k < b[s].size && Bounded(cap, b, {})
    ensures Bounded(cap, Cut(b, s, k), {})
  {
    var c := Cut(b, s, k);
    forall t {:trigger c[t]} | t in c ensures c[t].size <= cap {
      if t != s && t != s + k { assert c[t] == b[t]; }
    }
  }

  /** With the size test every block stays within the largest class. */
  lemma DivisionBounded(v: HeapState, c: nat)
    requires Inv(v, {}) && c < |v.q| && FirstClass(v.q, c + 1) < |v.q|
    ensures !Overflows(v, c, true) && Bounded(|v.h| + 2, Division(v, c, true).b, {})
  {
    hide Tiling, AbsorbRight, Bounded;
    AllBounded(v);
    HalvedBounded(|v.w|, v.b, Victim(v, c), c, |v.h| + 2);
  }

  lemma HalvedBounded(n: nat, b: BlockMap, s: nat, c: nat, cap: nat)
    requires FreeAt(n, b, s) && c + 3 < b[s].size && cap >= 1 && Bounded(cap, b, {})
    ensures var m := Halved(n, b, s, c, cap, true); m.b[m.cur].size <= cap && Bounded(cap, m.b, {})
  {
    hide Tiling, AbsorbRight, Retiled;
    CutTiling(n, b, s, c + 3);
    CutBounded(b, s, c + 3, cap);
    AbsorbRightEffect(n, Cut(b, s, c + 3), s + c + 3, cap);
    var m := Halved(n, b, s, c, cap, true);
    assert m.b[m.cur].size <= cap;
  }

  /** The lists know exactly which sizes are free: no class from `c` on has an entry if and only if
      no free block has the size of class `c` or more. */
  lemma ListsComplete(v: HeapState, c: nat)
    requires Inv(v, {}) && c <= |v.q|
    ensures FirstClass(v.q, c) == |v.q| <==> forall s {:trigger v.b[s]} | s in v.b && !v.b[s].used :: v.b[s].size < c + 3
  {
    var i := FirstClass(v.q, c);
    if i < |v.q| {
      assert NodeOk(v, {}, i, 0);
      assert v.b[v.q[i][0]].size >= c + 3;
    } else {
      forall s {:trigger v.b[s]} | s in v.b && !v.b[s].used ensures v.b[s].size < c + 3 {
        assert BlockOk(v, s);
      }
    }
  }

  // ---------- Loops that merge ----------

  lemma AbsorbRightStep(n: nat, b: BlockMap, cur: nat, cap: nat, capped: bool)
    requires cap >= 1 && FreeAt(n, b, cur)
    ensures !FreeAfter(b, cur) ==> AbsorbRight(n, b, cur, cap, capped) == Merge(b, cur, false)
    ensures FreeAfter(b, cur) ==>
              var nx := cur + b[cur].size;
              var m := Fuse(b, cur, nx);
              FreeAt(n, m, cur) && nx < n && nx < nx + b[nx].size <= n &&
              AbsorbRight(n, b, cur, cap, capped) ==
                if capped && m[cur].size > cap then Merge(Cut(m, cur, cap), cur + cap, true)
                else AbsorbRight(n, m, cur, cap, capped)
  {
    Next(n, b, cur);
    if FreeAfter(b, cur) {
      var nx := cur + b[cur].size;
      assert b[nx].size >= 1;
      FuseTiling(n, b, cur, nx);
    } else {
      assert cur + b[cur].size == n || b[cur + b[cur].size].used;
    }
  }

  lemma AbsorbLeftStep(n: nat, b: BlockMap, cur: nat, cap: nat)
    requires cap >= 1 && FreeAt(n, b, cur)
    ensures !FreeBefore(n, b, cur) ==> AbsorbLeft(n, b, cur, cap) == Merge(b, cur, false)
    ensures FreeBefore(n, b, cur) ==>
              var p := Predecessor(n, b, cur);
              var m := Fuse(b, p, cur);
              FreeAt(n, m, p) && p < cur &&
              AbsorbLeft(n, b, cur, cap) ==
                if m[p].size > cap then Merge(Cut(m, p, cap), p + cap, true) else AbsorbLeft(n, m, p, cap)
  {
    if FreeBefore(n, b, cur) {
      var p := Predecessor(n, b, cur);
      assert b[p].size >= 1;
      FuseTiling(n, b, p, cur);
    }
  }

  // ---------- What an allocation takes and leaves ----------

  lemma {:induction false} AbsorbRightUsed(n: nat, b: BlockMap, cur: nat, cap: nat, capped: bool)
    requires cap >= 1 && FreeAt(n, b, cur)
    ensures Used(AbsorbRight(n, b, cur, cap, capped).b) == Used(b)
    decreases n - cur - b[cur].size
  {
    hide Tiling;
    AbsorbRightStep(n, b, cur, cap, capped);
    if FreeAfter(b, cur) {
      var nx := cur + b[cur].size;
      var m := Fuse(b, cur, nx);
      FuseUsed(b, cur, nx);
      if capped && m[cur].size > cap {
        CutTiling(n, m, cur, cap);
        CutUsed(m, cur, cap);
      } else {
        AbsorbRightUsed(n, m, cur, cap, capped);
      }
    }
  }

  /** Merging to the right does not touch the blocks on the left. */
  lemma {:induction false} AbsorbRightBefore(n: nat, b: BlockMap, cur: nat, cap: nat, capped: bool, t: nat)
    requires cap >= 1 && FreeAt(n, b, cur) && t in b && t < cur
    ensures var m := AbsorbRight(n, b, cur, cap, capped); t in m.b && m.b[t] == b[t]
    decreases n - cur - b[cur].size
  {
    hide Tiling;
    AbsorbRightStep(n, b, cur, cap, capped);
    if FreeAfter(b, cur) {
      var m := Fuse(b, cur, cur + b[cur].size);
      if !(capped && m[cur].size > cap) {
        AbsorbRightBefore(n, m, cur, cap, capped, t);
      }
    }
  }

  lemma DivisionFront(v: HeapState, c: nat, capped: bool)
    requires Inv(v, {}) && c < |v.q| && FirstClass(v.q, c + 1) < |v.q|
    ensures var m, s := Division(v, c, capped).b, Victim(v, c); s in m && m[s] == Block(c + 3, false)
  {
    hide Tiling, AbsorbRight;
    var s := Victim(v, c);
    CutTiling(|v.w|, v.b, s, c + 3);
    AbsorbRightBefore(|v.w|, Cut(v.b, s, c + 3), s + c + 3, |v.h| + 2, capped, s);
  }

  /** The tiling from which a request for class `c` is served: as it is if the class's list has
      an entry, else after dividing a larger block. */
  ghost function Provided(v: HeapState, c: nat, capped: bool): BlockMap
    requires Inv(v, {}) && c < |v.q| && (v.q[c] != [] || FirstClass(v.q, c + 1) < |v.q|)
  {
    if v.q[c] != [] then v.b else Division(v, c, capped).b
  }

  /** A free block at `s` of exactly class `c` was taken to serve the request. */
  ghost predicate Served(v: HeapState, b: BlockMap, s: nat, c: nat, capped: bool)
    requires Inv(v, {}) && c < |v.q|
  {
    && (v.q[c] != [] || FirstClass(v.q, c + 1) < |v.q|)
    && var m := Provided(v, c, capped);
    s in m && m[s] == Block(c + 3, false) && b == Mark(m, s, true)
  }

  /** The requests on which the C code indexes the list heads out of range: the class is one too
      high, or the block it divides leaves too large a rest. */
  ghost predicate OutOfRangeRequest(v: HeapState, c: int)
    requires Inv(v, {})
  {
    c == |v.q| || (0 <= c < |v.q| && v.q[c] == [] && FirstClass(v.q, c + 1) < |v.q| && Overflows(v, c, false))
  }

  /** No class serves the request, or no free block is large enough. */
  ghost predicate Unservable(v: HeapState, c: int) {
    c < 0 || c >= |v.h| || forall s {:trigger v.b[s]} | s in v.b && !v.b[s].used :: v.b[s].size < c + 3
  }

  /** An allocation adds one block of exactly the class's size to the used ones. */
  lemma ServedUsed(v: HeapState, b: BlockMap, s: nat, c: nat, capped: bool)
    requires Inv(v, {}) && c < |v.q| && Served(v, b, s, c, capped)
    ensures s in b && b[s] == Block(c + 3, true) && s !in Used(v.b)
    ensures Used(b) == Used(v.b)[s := c + 3]
  {
    hide Tiling, AbsorbRight, Used;
    if v.q[c] == [] {
      DivisionUsed(v, c, capped);
    }
    TakeUsed(Provided(v, c, capped), s);
  }

  lemma TakeUsed(b: BlockMap, s: nat)
    requires s in b && !b[s].used
    ensures s !in Used(b) && Used(Mark(b, s, true)) == Used(b)[s := b[s].size]
  {
    MarkUsed(b, s);
  }

  lemma DivisionUsed(v: HeapState, c: nat, capped: bool)
    requires Inv(v, {}) && c < |v.q| && FirstClass(v.q, c + 1) < |v.q|
    ensures Used(Division(v, c, capped).b) == Used(v.b)
  {
    hide Tiling, AbsorbRight, Used;
    var x, n := Victim(v, c), |v.w|;
    CutTiling(n, v.b, x, c + 3);
    CutUsed(v.b, x, c + 3);
    AbsorbRightUsed(n, Cut(v.b, x, c + 3), x + c + 3, |v.h| + 2, capped);
  }

  // ---------- When the merge without a size test goes wrong ----------

  /** Without the size test a merge absorbs the whole run of free words; with it, it does the same
      as long as that run is no longer than `cap`. */
  lemma {:induction false} AbsorbRightUncapped(n: nat, b: BlockMap, cur: nat, cap: nat)
    requires cap >= 1 && FreeAt(n, b, cur)
    ensures var r := AbsorbRight(n, b, cur, cap, false);
      && r.cur == cur && End(r.b, cur) == RunEnd(n, b, cur)
      && (RunEnd(n, b, cur) <= cur + cap ==> AbsorbRight(n, b, cur, cap, true) == r)
    decreases n - cur - b[cur].size
  {
    hide Tiling;
    AbsorbRightStep(n, b, cur, cap, false);
    AbsorbRightStep(n, b, cur, cap, true);
    RunEndStep(n, b, cur);
    Next(n, b, cur);
    if FreeAfter(b, cur) {
      var nx := cur + b[cur].size;
      var m := Fuse(b, cur, nx);
      AbsorbRightUncapped(n, m, cur, cap);
      RunEndStep(n, m, cur);
      RunEndStep(n, b, nx);
      RunEndSame(n, b, m, nx + b[nx].size);
    }
  }

  lemma RunEndStep(n: nat, b: BlockMap, p: nat)
    requires FreeAt(n, b, p)
    ensures b[p].size >= 1 && (End(b, p) == n || End(b, p) in b)
    ensures RunEnd(n, b, p) == RunEnd(n, b, End(b, p)) >= End(b, p)
  {
    Next(n, b, p);
  }

  /** The end of a run depends only on the blocks from its start on. */
  lemma {:induction false} RunEndSame(n: nat, b: BlockMap, c: BlockMap, p: nat)
    requires Tiling(n, b) && Tiling(n, c) && (p == n || (p in b && p in c))
    requires forall s {:trigger b[s]} {:trigger c[s]} | s >= p :: (s in b <==> s in c) && (s in b ==> b[s] == c[s])
    ensures RunEnd(n, b, p) == RunEnd(n, c, p)
    decreases n - p
  {
    hide Tiling;
    if p != n && !b[p].used {
      Next(n, b, p);
      assert b[p] == c[p];
      Next(n, c, p);
      RunEndSame(n, b, c, p + b[p].size);
    }
  }

  lemma CutRunEnd(n: nat, b: BlockMap, s: nat, k: nat)
    requires FreeAt(n, b, s) && 0 < k < b[s].size
    ensures FreeAt(n, Cut(b, s, k), s + k)
    ensures RunEnd(n, Cut(b, s, k), s + k) == RunEnd(n, b, s)
  {
    hide Tiling;
    CutTiling(n, b, s, k);
    RunEndStep(n, Cut(b, s, k), s + k);
    RunEndStep(n, b, s);
    RunEndSame(n, b, Cut(b, s, k), End(b, s));
  }

  /** The exact condition under which a division as written overruns the largest class: the run of
      free words that starts at the block it cuts is longer than the request's block and the
      largest block together.  Otherwise the size test would make no difference. */
  lemma OverflowExactly(v: HeapState, c: nat)
    requires Inv(v, {}) && c < |v.q| && FirstClass(v.q, c + 1) < |v.q|
    ensures Overflows(v, c, false) <==> RunEnd(|v.w|, v.b, Victim(v, c)) > Victim(v, c) + (c + 3) + (|v.h| + 2)
    ensures !Overflows(v, c, false) ==> Division(v, c, true) == Division(v, c, false)
  {
    hide Tiling, AbsorbRight, RunEnd;
    var s, n := Victim(v, c), |v.w|;
    CutRunEnd(n, v.b, s, c + 3);
    AbsorbRightUncapped(n, Cut(v.b, s, c + 3), s + c + 3, |v.h| + 2);
  }
}
