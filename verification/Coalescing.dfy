/** How far free coalesces, in terms of the blocks before the call. */
module Coalescing {
  import opened Blocks
  import opened HeapInvariant
  import opened HeapSteps

  lemma {:induction false} AbsorbRightCarves(n: nat, b: BlockMap, cur: nat, cap: nat)
    requires cap >= 1 && FreeAt(n, b, cur) && b[cur].size <= cap
    ensures var r := AbsorbRight(n, b, cur, cap, true);
      && (r.carved <==> RunEnd(n, b, cur) > cur + cap)
      && (!r.carved ==> r.cur == cur && End(r.b, cur) == RunEnd(n, b, cur))
    decreases n - cur - b[cur].size
  {
    hide Tiling;
    AbsorbRightStep(n, b, cur, cap, true);
    RunEndStep(n, b, cur);
    if FreeAfter(b, cur) {
      var nx := cur + b[cur].size;
      var m := Fuse(b, cur, nx);
      RunEndStep(n, b, nx);
      assert End(m, cur) == End(b, nx);
      if m[cur].size <= cap {
        AbsorbRightCarves(n, m, cur, cap);
        RunEndStep(n, m, cur);
        RunEndSame(n, b, m, nx + b[nx].size);
        assert RunEnd(n, m, cur) == RunEnd(n, b, cur);
      }
    }
  }

  lemma RunStartStep(n: nat, b: BlockMap, p: nat)
    requires FreeAt(n, b, p)
    ensures FreeBefore(n, b, p) ==> RunStart(n, b, p) == RunStart(n, b, Predecessor(n, b, p)) <= Predecessor(n, b, p)
    ensures !FreeBefore(n, b, p) ==> RunStart(n, b, p) == p
  {}

  /** The start of a run depends only on the blocks before it. */
  lemma {:induction false} RunStartSame(n: nat, b: BlockMap, c: BlockMap, p: nat)
    requires Tiling(n, b) && Tiling(n, c) && p in b && p in c
    requires forall s {:trigger b[s]} {:trigger c[s]} | s < p :: (s in b <==> s in c) && (s in b ==> b[s] == c[s])
    ensures RunStart(n, b, p) == RunStart(n, c, p)
    decreases p
  {
    if p > 0 {
      var q, r := Predecessor(n, b, p), Predecessor(n, c, p);
      assert b[q].size >= 1 && c[r].size >= 1 && b[q] == c[q];
      assert q == r;
      if !b[q].used { RunStartSame(n, b, c, q); }
    }
  }

  /** A merge to the left carves exactly if the run before and the block itself are too long
      together; otherwise it makes them one block. */
  lemma {:induction false} AbsorbLeftCarves(n: nat, b: BlockMap, cur: nat, cap: nat)
    requires cap >= 1 && FreeAt(n, b, cur) && b[cur].size <= cap
    ensures var l := AbsorbLeft(n, b, cur, cap);
      && (l.carved <==> End(b, cur) > RunStart(n, b, cur) + cap)
      && (!l.carved ==> l.cur == RunStart(n, b, cur) && End(l.b, l.cur) == End(b, cur))
      && (!l.carved ==> forall s {:trigger b[s]} {:trigger l.b[s]} | s >= End(b, cur) :: (s in b <==> s in l.b) && (s in b ==> b[s] == l.b[s]))
    decreases cur
  {
    hide Tiling;
    Next(n, b, cur);
    AbsorbLeftStep(n, b, cur, cap);
    RunStartStep(n, b, cur);
    if FreeBefore(n, b, cur) {
      var p := Predecessor(n, b, cur);
      var m := Fuse(b, p, cur);
      assert End(m, p) == End(b, cur);
      if m[p].size <= cap {
        AbsorbLeftCarves(n, m, p, cap);
        RunStartSame(n, b, m, p);
        assert RunStart(n, m, p) == RunStart(n, b, cur);
        forall s {:trigger b[s]} {:trigger m[s]} | s >= End(b, cur) ensures (s in b <==> s in m) && (s in b ==> b[s] == m[s]) {}
      }
    }
  }

  /** The free run around the block at `s`, itself included, once it is free. */
  ghost function RunAround(n: nat, b: BlockMap, s: nat): (k: nat)
    requires Tiling(n, b) && s in b
    ensures k >= b[s].size
  {
    MarkTiling(n, b, s, false);
    var f := Mark(b, s, false);
    RunEndStep(n, f, s);
    RunEnd(n, f, s) - RunStart(n, f, s)
  }

  /** Freeing carves exactly if the free run around the block is longer than the largest class. */
  lemma ReleaseCarves(n: nat, b: BlockMap, s: nat, cap: nat)
    requires cap >= 1 && Tiling(n, b) && s in b && Bounded(cap, b, {})
    ensures var r := Release(n, b, s, cap);
      && (r.carved <==> RunAround(n, b, s) > cap)
      && (!r.carved ==> r.b[r.cur].size == RunAround(n, b, s))
  {
    hide Tiling;
    MarkTiling(n, b, s, false);
    var f := Mark(b, s, false);
    AbsorbLeftCarves(n, f, s, cap);
    RunEndStep(n, f, s);
    var l := AbsorbLeft(n, f, s, cap);
    if !l.carved {
      AbsorbRightCarves(n, l.b, l.cur, cap);
      RunEndStep(n, l.b, l.cur);
      RunEndSame(n, f, l.b, End(f, s));
    }
  }

  lemma FreeBehind(n: nat, b: BlockMap, s: nat, p: nat)
    requires Tiling(n, b) && s in b && EndsAt(b, p, s) && !b[p].used
    ensures !Isolated(n, b, s)
  {
    assert b[p].size >= 1;
    var q := Predecessor(n, b, s);
    assert b[q].size >= 1;
  }

  /** After a carve the carved block lies free before the rest. */
  lemma CarvedTouches(n: nat, b: BlockMap, cur: nat, cap: nat, l: Merge, r: Merge)
    requires cap >= 1 && MergedLeft(n, b, cur, cap, l) && MergedRight(n, l.b, l.cur, cap, r) && (l.carved || r.carved)
    ensures !Isolated(n, r.b, r.cur)
  {
    hide Tiling, Bounded, Isolated;
    if r.carved {
      FreeBehind(n, r.b, r.cur, l.cur);
    } else {
      assert l.b[l.cur - cap] == r.b[l.cur - cap];
      FreeBehind(n, r.b, r.cur, l.cur - cap);
    }
  }

  /** How far free coalesces: the freed block ends with no free neighbour if and only if the free
      run around it, itself included, is no longer than the largest class; then all of that run is
      the one block. */
  lemma CoalescesExactly(n: nat, b: BlockMap, s: nat, cap: nat)
    requires cap >= 1 && Tiling(n, b) && s in b && b[s].used && Bounded(cap, b, {})
    ensures var r := Release(n, b, s, cap);
      && (Isolated(n, r.b, r.cur) <==> RunAround(n, b, s) <= cap)
      && (RunAround(n, b, s) <= cap ==> r.b[r.cur].size == RunAround(n, b, s))
  {
    hide Tiling, Bounded, Isolated, Retiled, Used, RunAround;
    ReleaseCarves(n, b, s, cap);
    var lo, hi := ReleaseEffect(n, b, s, cap);
    var f := Mark(b, s, false);
    MarkTiling(n, b, s, false);
    MarkBounded(b, s, cap);
    AbsorbLeftEffect(n, f, s, cap);
    var l := AbsorbLeft(n, f, s, cap);
    AbsorbRightEffect(n, l.b, l.cur, cap);
    var r := AbsorbRight(n, l.b, l.cur, cap, true);
    if l.carved || r.carved {
      hide MergedLeft, MergedRight;
      CarvedTouches(n, f, s, cap, l, r);
    }
  }

  // ---------- What free leaves, in closed form ----------

  /** The end of the block at which a walk to the right from the boundary `p` through free blocks
      passes `limit`, or else the end of the run. */
  ghost function ReachRight(n: nat, b: BlockMap, p: nat, limit: int): (e: nat)
    requires Tiling(n, b) && (p == n || p in b)
    ensures p <= e <= n
    decreases n - p
  {
    if p == n || b[p].used || p > limit then p
    else
      assert b[p].size >= 1 && Followed(n, b, p);
      ReachRight(n, b, p + b[p].size, limit)
  }

  /** The start of the block at which a walk to the left from the block at `p` through free blocks
      passes `limit`, or else the start of the run. */
  ghost function ReachLeft(n: nat, b: BlockMap, p: nat, limit: int): (e: nat)
    requires Tiling(n, b) && p in b
    ensures e <= p && e in b
    decreases p
  {
    if p == 0 || b[Predecessor(n, b, p)].used || p < limit then p
    else
      assert b[Predecessor(n, b, p)].size >= 1;
      ReachLeft(n, b, Predecessor(n, b, p), limit)
  }

  lemma {:induction false} ReachRightSame(n: nat, b: BlockMap, c: BlockMap, p: nat, limit: int)
    requires Tiling(n, b) && Tiling(n, c) && (p == n || (p in b && p in c))
    requires forall s {:trigger b[s]} {:trigger c[s]} | s >= p :: (s in b <==> s in c) && (s in b ==> b[s] == c[s])
    ensures ReachRight(n, b, p, limit) == ReachRight(n, c, p, limit)
    decreases n - p
  {
    hide Tiling;
    if p != n && !b[p].used && p <= limit {
      Next(n, b, p);
      assert b[p] == c[p];
      Next(n, c, p);
      ReachRightSame(n, b, c, p + b[p].size, limit);
    }
  }

  lemma {:induction false} ReachLeftSame(n: nat, b: BlockMap, c: BlockMap, p: nat, limit: int)
    requires Tiling(n, b) && Tiling(n, c) && p in b && p in c
    requires forall s {:trigger b[s]} {:trigger c[s]} | s < p :: (s in b <==> s in c) && (s in b ==> b[s] == c[s])
    ensures ReachLeft(n, b, p, limit) == ReachLeft(n, c, p, limit)
    decreases p
  {
    if p > 0 {
      var q, r := Predecessor(n, b, p), Predecessor(n, c, p);
      assert b[q].size >= 1 && c[r].size >= 1 && b[q] == c[q];
      assert q == r;
      if !b[q].used && p >= limit { ReachLeftSame(n, b, c, q, limit); }
    }
  }

  /** A capped merge to the right takes whole blocks up to the first that passes the cap. */
  lemma {:induction false} AbsorbRightExactly(n: nat, b: BlockMap, cur: nat, cap: nat)
    requires cap >= 1 && FreeAt(n, b, cur) && b[cur].size <= cap && (End(b, cur) == n || End(b, cur) in b)
    ensures var r, e := AbsorbRight(n, b, cur, cap, true), ReachRight(n, b, End(b, cur), cur + cap);
      && (r.carved <==> e > cur + cap) && r.cur == (if r.carved then cur + cap else cur) && End(r.b, r.cur) == e
    decreases n - cur - b[cur].size
  {
    hide Tiling;
    AbsorbRightStep(n, b, cur, cap, true);
    if FreeAfter(b, cur) {
      var nx := cur + b[cur].size;
      var m := Fuse(b, cur, nx);
      Next(n, b, nx);
      assert End(m, cur) == End(b, nx);
      assert ReachRight(n, b, nx, cur + cap) == ReachRight(n, b, End(b, nx), cur + cap);
      if m[cur].size <= cap {
        AbsorbRightExactly(n, m, cur, cap);
        ReachRightSame(n, b, m, End(b, nx), cur + cap);
      }
    }
  }

  /** And a capped merge to the left. */
  lemma {:induction false} AbsorbLeftExactly(n: nat, b: BlockMap, cur: nat, cap: nat)
    requires cap >= 1 && FreeAt(n, b, cur) && b[cur].size <= cap
    ensures var l, e := AbsorbLeft(n, b, cur, cap), ReachLeft(n, b, cur, End(b, cur) - cap);
      && (l.carved <==> e < End(b, cur) - cap) && l.cur == (if l.carved then e + cap else e)
    decreases cur
  {
    hide Tiling;
    AbsorbLeftStep(n, b, cur, cap);
    if FreeBefore(n, b, cur) {
      var p := Predecessor(n, b, cur);
      var m := Fuse(b, p, cur);
      assert End(m, p) == End(b, cur);
      assert ReachLeft(n, b, cur, End(b, cur) - cap) == ReachLeft(n, b, p, End(b, cur) - cap);
      if m[p].size <= cap {
        AbsorbLeftExactly(n, m, p, cap);
        ReachLeftSame(n, b, m, p, End(b, cur) - cap);
      }
    }
  }

  /** Where free stops: the words `lo..hi` are re-tiled; `mid` is where the left merge leaves the
      block that goes on to the right. */
  datatype Extent = Extent(lo: nat, mid: nat, hi: nat)

  ghost function ExtentOf(n: nat, b: BlockMap, s: nat, cap: nat): (x: Extent)
    requires Tiling(n, b) && s in b
  {
    MarkTiling(n, b, s, false);
    var f := Mark(b, s, false);
    Next(n, f, s);
    var lo := ReachLeft(n, f, s, End(b, s) - cap);
    var mid := if lo < End(b, s) - cap then lo + cap else lo;
    Extent(lo, mid, ReachRight(n, f, End(b, s), mid + cap))
  }

  /** The free blocks of `c` from `lo` to `hi`: one of `cap` words before `mid` if there is room, one
      of `cap` words at `mid` if more than that is left, and the rest, which starts at `last`. */
  ghost predicate Pieces(c: BlockMap, x: Extent, cap: nat, last: nat) {
    && x.lo <= x.mid <= last < x.hi
    && (if x.lo < x.mid then x.mid == x.lo + cap && x.lo in c && c[x.lo] == Block(cap, false) else x.lo == x.mid)
    && (if x.hi > x.mid + cap then last == x.mid + cap && x.mid in c && c[x.mid] == Block(cap, false) else last == x.mid)
    && last in c && c[last] == Block(x.hi - last, false)
  }

  /** Both merges around the free block at `s`: where each stops and whether it carves. */
  lemma MergesExactly(n: nat, f: BlockMap, s: nat, cap: nat, lo: nat, mid: nat, hi: nat)
    requires cap >= 1 && FreeAt(n, f, s) && Bounded(cap, f, {}) && (End(f, s) == n || End(f, s) in f)
    requires lo == ReachLeft(n, f, s, End(f, s) - cap) && mid == (if lo < End(f, s) - cap then lo + cap else lo)
    requires hi == ReachRight(n, f, End(f, s), mid + cap)
    ensures var l := AbsorbLeft(n, f, s, cap);
      var r := AbsorbRight(n, l.b, l.cur, cap, true);
      && MergedLeft(n, f, s, cap, l) && MergedRight(n, l.b, l.cur, cap, r)
      && l.cur == mid && Low(l, cap) == lo && (l.carved <==> lo < mid)
      && End(r.b, r.cur) == hi && (r.carved <==> hi > mid + cap) && r.cur == if r.carved then mid + cap else mid
  {
    hide Tiling, Bounded, Retiled, ReachLeft, ReachRight, AbsorbLeft, AbsorbRight;
    Fits(f, s, cap);
    AbsorbLeftEffect(n, f, s, cap);
    AbsorbLeftExactly(n, f, s, cap);
    var l := AbsorbLeft(n, f, s, cap);
    Fits(l.b, l.cur, cap);
    Next(n, l.b, l.cur);
    AbsorbRightEffect(n, l.b, l.cur, cap);
    AbsorbRightExactly(n, l.b, l.cur, cap);
    LeftKeepsRight(n, f, s, cap, l);
    ReachRightSame(n, f, l.b, End(f, s), l.cur + cap);
  }

  /** Blocks of a tiling that lie among the pieces are pieces. */
  lemma PiecesAreAll(n: nat, c: BlockMap, x: Extent, cap: nat, last: nat, t: nat)
    requires Tiling(n, c) && Pieces(c, x, cap, last) && t in c && x.lo <= t < x.hi
    ensures t in {x.lo, x.mid, last}
  {
    assert c[t].size >= 1;
  }

  /** Free, in closed form: the blocks outside `lo..hi` stay, and those inside are the pieces and no
      others. */
  lemma ReleaseExactly(n: nat, b: BlockMap, s: nat, cap: nat)
    requires cap >= 1 && Tiling(n, b) && s in b && Bounded(cap, b, {})
    ensures var r, x := Release(n, b, s, cap), ExtentOf(n, b, s, cap);
      Tiling(n, r.b) && Retiled(Mark(b, s, false), r.b, x.lo, x.hi) && Pieces(r.b, x, cap, r.cur)
    ensures var r, x := Release(n, b, s, cap), ExtentOf(n, b, s, cap);
      forall t {:trigger t in r.b} | t in r.b && x.lo <= t < x.hi :: t in {x.lo, x.mid, r.cur}
  {
    hide Tiling, Bounded, Retiled, ReachLeft, ReachRight, AbsorbLeft, AbsorbRight, MergedLeft, MergedRight;
    MarkTiling(n, b, s, false);
    MarkBounded(b, s, cap);
    var f, x := Mark(b, s, false), ExtentOf(n, b, s, cap);
    Next(n, f, s);
    MergesExactly(n, f, s, cap, x.lo, x.mid, x.hi);
    var l := AbsorbLeft(n, f, s, cap);
    var r := AbsorbRight(n, l.b, l.cur, cap, true);
    MergesRetile(n, f, s, cap, l, r);
    LeftPieceStays(n, f, s, cap, l, r);
    Next(n, r.b, r.cur);
    assert Pieces(r.b, x, cap, r.cur);
    forall t {:trigger t in r.b} | t in r.b && x.lo <= t < x.hi ensures t in {x.lo, x.mid, r.cur} {
      PiecesAreAll(n, r.b, x, cap, r.cur, t);
    }
  }

  lemma MergesRetile(n: nat, f: BlockMap, s: nat, cap: nat, l: Merge, r: Merge)
    requires cap >= 1 && FreeAt(n, f, s) && MergedLeft(n, f, s, cap, l) && MergedRight(n, l.b, l.cur, cap, r)
    ensures FreeAt(n, r.b, r.cur) && Retiled(f, r.b, Low(l, cap), End(r.b, r.cur))
  {
    hide Tiling, Bounded, Retiled;
    RetiledTrans(n, f, l.b, r.b, Low(l, cap), l.cur, End(f, s), End(r.b, r.cur));
  }

  lemma Fits(b: BlockMap, s: nat, cap: nat)
    requires Bounded(cap, b, {}) && s in b
    ensures b[s].size <= cap
  {}

  lemma LeftKeepsRight(n: nat, b: BlockMap, cur: nat, cap: nat, l: Merge)
    requires MergedLeft(n, b, cur, cap, l)
    ensures forall s {:trigger b[s]} {:trigger l.b[s]} | s >= End(b, cur) :: (s in b <==> s in l.b) && (s in b ==> b[s] == l.b[s])
  {
    hide Tiling, Bounded;
  }

  lemma LeftPieceStays(n: nat, b: BlockMap, cur: nat, cap: nat, l: Merge, r: Merge)
    requires cap >= 1 && MergedLeft(n, b, cur, cap, l) && MergedRight(n, l.b, l.cur, cap, r)
    ensures l.carved ==> l.cur - cap in r.b && r.b[l.cur - cap] == Block(cap, false)
    ensures r.carved ==> l.cur in r.b && r.b[l.cur] == Block(cap, false)
    ensures !r.b[r.cur].used
  {
    hide Tiling, Bounded;
    if l.carved {
      assert l.b[l.cur - cap] == r.b[l.cur - cap];
    }
  }

  /** Unless the last piece starts behind the freed block, free has merged all there is to the right,
      whatever happened on the left. */
  lemma ReleaseReaches(n: nat, b: BlockMap, s: nat, cap: nat)
    requires cap >= 1 && Tiling(n, b) && s in b && Bounded(cap, b, {})
    ensures Tiling(n, Mark(b, s, false))
    ensures var r := Release(n, b, s, cap);
      r.cur < End(b, s) ==> End(r.b, r.cur) == RunEnd(n, Mark(b, s, false), s)
  {
    hide Tiling, Bounded, Retiled, ReachLeft, ReachRight, Release;
    MarkTiling(n, b, s, false);
    var f, x := Mark(b, s, false), ExtentOf(n, b, s, cap);
    ReleaseExactly(n, b, s, cap);
    Next(n, f, s);
    RunEndStep(n, f, s);
    if x.hi <= x.mid + cap {
      ReachIsRunEnd(n, f, End(b, s), x.mid + cap);
    } else {
      MarkBounded(b, s, cap);
      Fits(b, s, cap);
      ReachLeftNear(n, f, s, End(b, s) - cap, cap);
    }
  }

  lemma {:induction false} ReachIsRunEnd(n: nat, b: BlockMap, p: nat, limit: int)
    requires Tiling(n, b) && (p == n || p in b) && ReachRight(n, b, p, limit) <= limit
    ensures ReachRight(n, b, p, limit) == RunEnd(n, b, p)
    decreases n - p
  {
    if p != n && !b[p].used {
      Next(n, b, p);
      ReachIsRunEnd(n, b, p + b[p].size, limit);
    }
  }

  /** A walk to the left passes its limit by less than a block. */
  lemma {:induction false} ReachLeftNear(n: nat, b: BlockMap, p: nat, limit: int, cap: nat)
    requires Tiling(n, b) && p in b && p >= limit && Bounded(cap, b, {})
    ensures ReachLeft(n, b, p, limit) >= limit - cap
    decreases p
  {
    if p > 0 {
      var q := Predecessor(n, b, p);
      assert 1 <= b[q].size <= cap;
      if q >= limit { ReachLeftNear(n, b, q, limit, cap); }
    }
  }

  // ---------- What a division leaves ----------

  lemma CutFacts(n: nat, b: BlockMap, s: nat, k: nat)
    requires FreeAt(n, b, s) && 0 < k < b[s].size
    ensures var d := Cut(b, s, k);
      && FreeAt(n, d, s + k) && s in d && d[s] == Block(k, false) && End(d, s + k) == End(b, s) && d[s + k].size < b[s].size
      && forall t {:trigger b[t]} {:trigger d[t]} | t >= End(b, s) :: (t in b <==> t in d) && (t in b ==> b[t] == d[t])
  {
    hide Tiling;
    CutTiling(n, b, s, k);
  }

  lemma HalvedExactly(n: nat, b: BlockMap, s: nat, c: nat, cap: nat)
    requires FreeAt(n, b, s) && c + 3 < b[s].size <= cap && Bounded(cap, b, {}) && (End(b, s) == n || End(b, s) in b)
    ensures var m, p, e := Halved(n, b, s, c, cap, true), s + c + 3, ReachRight(n, b, End(b, s), s + c + 3 + cap);
      && Retiled(b, m.b, s, e) && s in m.b && m.b[s] == Block(c + 3, false)
      && End(m.b, m.cur) == e && m.cur == (if e > p + cap then p + cap else p)
      && (e > p + cap ==> p in m.b && m.b[p] == Block(cap, false))
  {
    hide Tiling, Bounded, Retiled, ReachRight, AbsorbRight, Cut, MergedRight;
    CutFacts(n, b, s, c + 3);
    CutBounded(b, s, c + 3, cap);
    CutRetiled(n, b, s, c + 3);
    var d, p := Cut(b, s, c + 3), s + c + 3;
    AbsorbRightEffect(n, d, p, cap);
    Next(n, d, p);
    AbsorbRightExactly(n, d, p, cap);
    AbsorbRightBefore(n, d, p, cap, true, s);
    ReachRightSame(n, b, d, End(b, s), p + cap);
    var m := AbsorbRight(n, d, p, cap, true);
    RestRetiles(n, b, d, s, p, cap, m);
  }

  lemma RestRetiles(n: nat, b: BlockMap, d: BlockMap, s: nat, p: nat, cap: nat, m: Merge)
    requires cap >= 1 && FreeAt(n, b, s) && FreeAt(n, d, p) && s <= p && End(d, p) == End(b, s)
    requires Retiled(b, d, s, End(b, s)) && MergedRight(n, d, p, cap, m)
    ensures Retiled(b, m.b, s, End(m.b, m.cur)) && (m.carved ==> p in m.b && m.b[p] == Block(cap, false))
  {
    hide Tiling, Bounded, Retiled;
    RetiledTrans(n, b, d, m.b, s, p, End(b, s), End(m.b, m.cur));
    CarvedIsFree(n, d, p, cap, m);
  }

  lemma CarvedIsFree(n: nat, b: BlockMap, cur: nat, cap: nat, m: Merge)
    requires cap >= 1 && MergedRight(n, b, cur, cap, m)
    ensures m.carved ==> m.b[cur] == Block(cap, false)
  {
    hide Tiling, Bounded;
  }

  /** A division with the size test, in closed form: the block it cuts becomes the request's block,
      and the rest takes whole free blocks to its right up to the first that passes the largest
      class, from which a largest block is cut off. */
  lemma DivisionExactly(v: HeapState, c: nat)
    requires HeapInvariant.Inv(v, {}) && c < |v.q| && FirstClass(v.q, c + 1) < |v.q|
    ensures var n, s, cap, m := |v.w|, Victim(v, c), |v.h| + 2, Division(v, c, true);
      && (End(v.b, s) == n || End(v.b, s) in v.b)
      && var p, e := s + c + 3, ReachRight(n, v.b, End(v.b, s), s + c + 3 + cap);
      && Retiled(v.b, m.b, s, e) && s in m.b && m.b[s] == Block(c + 3, false)
      && End(m.b, m.cur) == e && m.cur == (if e > p + cap then p + cap else p)
      && (e > p + cap ==> p in m.b && m.b[p] == Block(cap, false))
  {
    hide Tiling, Bounded, Retiled, ReachRight, Halved;
    AllBounded(v);
    Next(|v.w|, v.b, Victim(v, c));
    Fits(v.b, Victim(v, c), |v.h| + 2);
    HalvedExactly(|v.w|, v.b, Victim(v, c), c, |v.h| + 2);
  }
}
