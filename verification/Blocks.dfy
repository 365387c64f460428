/** The abstract view of the heap region: a tiling of word positions by blocks.

    A region of `n` eight-byte words is described by a finite map from the first word of each
    block to its size in words and its used bit.  The region's tags and free lists (module
    SegregatedFits) are a concrete encoding of this map. */
module Blocks {

  /** A block of `size` words, header and footer included. */
  datatype Block = Block(size: nat, used: bool)

  /** Blocks by the word index of their header. */
  type BlockMap = map<nat, Block>

  /** The block at `s` is followed by the region's end or by another block. */
  ghost predicate Followed(n: nat, b: BlockMap, s: nat) {
    s in b && (s + b[s].size == n || s + b[s].size in b)
  }

  /** The blocks cover the words `0..n` exactly: each starts where another ends. */
  ghost predicate Tiling(n: nat, b: BlockMap) {
    && (n > 0 ==> 0 in b)
    && (forall s {:trigger b[s]} | s in b :: b[s].size >= 1 && s + b[s].size <= n)
    && (forall s {:trigger Followed(n, b, s)} | s in b :: Followed(n, b, s))
    && (forall s, t {:trigger b[s], b[t]} | s in b && t in b && s < t :: s + b[s].size <= t)
  }

  /** No block outside `out` exceeds `cap` words. */
  ghost predicate Bounded(cap: nat, b: BlockMap, out: set<nat>) {
    forall s {:trigger b[s]} | s in b && s !in out :: b[s].size <= cap
  }

  /** Word `i` lies in the block that starts at `s`. */
  ghost predicate Covers(b: BlockMap, s: nat, i: nat) {
    s in b && s <= i < s + b[s].size
  }

  /** The used blocks: what the clients of the heap hold. */
  ghost function Used(b: BlockMap): map<nat, nat> {
    map s | s in b && b[s].used :: b[s].size
  }

  lemma NotUsed(b: BlockMap, s: nat)
    ensures s in Used(b) <==> s in b && b[s].used
  {}

  /** Every word belongs to exactly one block. */
  lemma ExactCover(n: nat, b: BlockMap, i: nat)
    requires Tiling(n, b) && i < n
    ensures exists s :: Covers(b, s, i)
    ensures forall s, t | Covers(b, s, i) && Covers(b, t, i) :: s == t
  {
    var s := FindCover(n, b, 0, i);
    forall s, t | Covers(b, s, i) && Covers(b, t, i) ensures s == t {
      assert b[s].size >= 1 && b[t].size >= 1;
    }
  }

  /** Walking from block `p` along block ends reaches the block that covers `i`. */
  lemma {:induction false} FindCover(n: nat, b: BlockMap, p: nat, i: nat) returns (s: nat)
    requires Tiling(n, b) && p in b && p <= i < n
    ensures Covers(b, s, i)
    decreases n - p
  {
    assert b[p].size >= 1 && Followed(n, b, p);
    if i < p + b[p].size {
      s := p;
    } else {
      s := FindCover(n, b, p + b[p].size, i);
    }
  }

  /** The block at `p` ends where word `s` starts. */
  ghost predicate EndsAt(b: BlockMap, p: nat, s: nat) {
    p in b && p + b[p].size == s
  }

  /** Every block but the first has a block that ends where it starts. */
  lemma PredecessorExists(n: nat, b: BlockMap, s: nat)
    requires Tiling(n, b) && s in b && s > 0
    ensures exists p: nat :: EndsAt(b, p, s)
  {
    assert b[s].size >= 1;
    var p := FindCover(n, b, 0, s - 1);
    assert b[p].size >= 1;
    assert EndsAt(b, p, s);
  }

  ghost function Predecessor(n: nat, b: BlockMap, s: nat): (p: nat)
    requires Tiling(n, b) && s in b && s > 0
    ensures EndsAt(b, p, s)
  {
    PredecessorExists(n, b, s);
    var p: nat :| EndsAt(b, p, s);
    p
  }

  // ---------- Splitting and joining blocks ----------

  /** The block at `a` is cut into a free block of `k` words and a free rest. */
  ghost function Cut(b: BlockMap, a: nat, k: nat): BlockMap
    requires a in b && 0 < k < b[a].size
  {
    b[a := Block(k, false)][a + k := Block(b[a].size - k, false)]
  }

  /** The block at `c` joins the free block at `a`, which ends where `c` starts. */
  ghost function Fuse(b: BlockMap, a: nat, c: nat): BlockMap
    requires a in b && c in b && a + b[a].size == c
  {
    (b - {c})[a := Block(b[a].size + b[c].size, false)]
  }

  lemma CutTiling(n: nat, b: BlockMap, a: nat, k: nat)
    requires Tiling(n, b) && a in b && 0 < k < b[a].size
    ensures Tiling(n, Cut(b, a, k)) && a + k !in b
  {
    var c := Cut(b, a, k);
    forall t | t in b ensures t != a + k {
      assert b[t].size >= 1;
    }
    forall s {:trigger c[s]} | s in c
      ensures c[s].size >= 1 && s + c[s].size <= n
    {
      if s != a && s != a + k { assert b[s] == c[s]; }
    }
    forall s {:trigger Followed(n, c, s)} | s in c ensures Followed(n, c, s) {
      if s == a {
      } else if s == a + k {
        assert Followed(n, b, a);
      } else {
        assert Followed(n, b, s);
      }
    }
    forall s, t {:trigger c[s], c[t]} | s in c && t in c && s < t ensures s + c[s].size <= t {
      CutDisjoint(n, b, a, k, s, t);
    }
  }

  lemma CutDisjoint(n: nat, b: BlockMap, a: nat, k: nat, s: nat, t: nat)
    requires Tiling(n, b) && a in b && 0 < k < b[a].size
    requires s in Cut(b, a, k) && t in Cut(b, a, k) && s < t
    ensures s + Cut(b, a, k)[s].size <= t
  {
    var x, y := if s == a + k then a else s, if t == a + k then a else t;
    assert b[x].size >= 1 && b[y].size >= 1;
  }

  lemma FuseTiling(n: nat, b: BlockMap, a: nat, c: nat)
    requires Tiling(n, b) && a in b && c in b && a + b[a].size == c
    ensures Tiling(n, Fuse(b, a, c))
  {
    var m := Fuse(b, a, c);
    assert b[a].size >= 1 && b[c].size >= 1;
    forall s {:trigger m[s]} | s in m ensures m[s].size >= 1 && s + m[s].size <= n {
      if s != a { assert b[s] == m[s]; }
    }
    forall s {:trigger Followed(n, m, s)} | s in m ensures Followed(n, m, s) {
      FuseFollowed(n, b, a, c, s);
    }
    forall s, t {:trigger m[s], m[t]} | s in m && t in m && s < t ensures s + m[s].size <= t {
      FuseDisjoint(n, b, a, c, s, t);
    }
  }

  lemma FuseFollowed(n: nat, b: BlockMap, a: nat, c: nat, s: nat)
    requires Tiling(n, b) && a in b && c in b && a + b[a].size == c && s in Fuse(b, a, c)
    ensures Followed(n, Fuse(b, a, c), s)
  {
    assert b[a].size >= 1 && b[c].size >= 1;
    if s == a {
      assert Followed(n, b, c);
    } else {
      assert Followed(n, b, s) && b[s].size >= 1;
      assert s < a ==> s + b[s].size <= a;
      assert a < s ==> c <= s;
    }
  }

  lemma FuseDisjoint(n: nat, b: BlockMap, a: nat, c: nat, s: nat, t: nat)
    requires Tiling(n, b) && a in b && c in b && a + b[a].size == c
    requires s in Fuse(b, a, c) && t in Fuse(b, a, c) && s < t
    ensures s + Fuse(b, a, c)[s].size <= t
  {
    assert b[a].size >= 1 && b[s].size >= 1 && b[t].size >= 1;
    if s == a {
      assert c <= t;
      assert c + b[c].size <= t;
    }
  }

  /** What follows a block. */
  lemma Next(n: nat, b: BlockMap, s: nat)
    requires Tiling(n, b) && s in b
    ensures b[s].size >= 1 && s + b[s].size <= n
    ensures s + b[s].size == n || (s + b[s].size in b && b[s + b[s].size].size >= 1)
  {
    assert b[s].size >= 1 && Followed(n, b, s);
  }

  lemma CutUsed(b: BlockMap, a: nat, k: nat)
    requires a in b && 0 < k < b[a].size && !b[a].used && a + k !in b
    ensures Used(Cut(b, a, k)) == Used(b)
  {}

  lemma FuseUsed(b: BlockMap, a: nat, c: nat)
    requires a in b && c in b && a + b[a].size == c && !b[a].used && !b[c].used
    ensures Used(Fuse(b, a, c)) == Used(b)
  {}

  // ---------- Coalescing ----------

  /** What a merge loop produces: the blocks, the free block it ends with, and whether it had to
      cut a block of the largest size off an oversized one. */
  datatype Merge = Merge(b: BlockMap, cur: nat, carved: bool)

  /** `cur` is a free block of the tiling. */
  ghost predicate FreeAt(n: nat, b: BlockMap, cur: nat) {
    Tiling(n, b) && cur in b && !b[cur].used
  }

  /** A free block follows (or precedes) the block at `cur`. */
  ghost predicate FreeAfter(b: BlockMap, cur: nat) {
    cur in b && cur + b[cur].size in b && !b[cur + b[cur].size].used
  }

  ghost predicate FreeBefore(n: nat, b: BlockMap, cur: nat) {
    Tiling(n, b) && cur in b && cur > 0 && !b[Predecessor(n, b, cur)].used
  }

  lemma CutFree(n: nat, b: BlockMap, s: nat, k: nat)
    requires FreeAt(n, b, s) && 0 < k < b[s].size
    ensures FreeAt(n, Cut(b, s, k), s + k)
  {
    CutTiling(n, b, s, k);
  }

  lemma FuseFree(n: nat, b: BlockMap, a: nat, c: nat)
    requires FreeAt(n, b, a) && c in b && a + b[a].size == c
    ensures FreeAt(n, Fuse(b, a, c), a) && Fuse(b, a, c)[a].size == b[a].size + b[c].size
  {
    assert b[a].size >= 1;
    FuseTiling(n, b, a, c);
  }

  /** Join the free blocks that follow `cur`, one at a time.  With `capped`, stop as soon as the
      block exceeds `cap` words, cut a block of `cap` words off its front and keep the rest. */
  ghost function AbsorbRight(n: nat, b: BlockMap, cur: nat, cap: nat, capped: bool): (r: Merge)
    requires cap >= 1 && FreeAt(n, b, cur)
    ensures FreeAt(n, r.b, r.cur)
    decreases n - cur - b[cur].size
  {
    var nx := cur + b[cur].size;
    Next(n, b, cur);
    if nx == n || b[nx].used then Merge(b, cur, false)
    else
      hide Tiling, Fuse, Cut;
      FuseFree(n, b, cur, nx);
      var m := Fuse(b, cur, nx);
      if capped && m[cur].size > cap then
        CutFree(n, m, cur, cap);
        Merge(Cut(m, cur, cap), cur + cap, true)
      else AbsorbRight(n, m, cur, cap, capped)
  }

  /** Join the free blocks that precede `cur`, one at a time, with the same cap. */
  ghost function AbsorbLeft(n: nat, b: BlockMap, cur: nat, cap: nat): (r: Merge)
    requires cap >= 1 && FreeAt(n, b, cur)
    ensures FreeAt(n, r.b, r.cur)
    decreases cur
  {
    if cur == 0 || b[Predecessor(n, b, cur)].used then Merge(b, cur, false)
    else
      var p := Predecessor(n, b, cur);
      assert b[p].size >= 1;
      hide Tiling, Fuse, Cut;
      FuseFree(n, b, p, cur);
      var m := Fuse(b, p, cur);
      if m[p].size > cap then
        CutFree(n, m, p, cap);
        Merge(Cut(m, p, cap), p + cap, true)
      else AbsorbLeft(n, m, p, cap)
  }

  /** The first word at or after the block boundary `p` that is not in a free block. */
  ghost function RunEnd(n: nat, b: BlockMap, p: nat): (e: nat)
    requires Tiling(n, b) && (p == n || p in b)
    ensures p <= e <= n
    decreases n - p
  {
    if p == n || b[p].used then p
    else
      assert b[p].size >= 1 && Followed(n, b, p);
      RunEnd(n, b, p + b[p].size)
  }

  /** The first word of the run of free blocks that ends where the block at `p` starts. */
  ghost function RunStart(n: nat, b: BlockMap, p: nat): (e: nat)
    requires Tiling(n, b) && p in b
    ensures e <= p && e in b
    decreases p
  {
    if p == 0 || b[Predecessor(n, b, p)].used then p
    else
      assert b[Predecessor(n, b, p)].size >= 1;
      RunStart(n, b, Predecessor(n, b, p))
  }

  /** `c` re-tiles the free words `lo..hi` of `b` with free blocks and keeps every other block. */
  ghost predicate Retiled(b: BlockMap, c: BlockMap, lo: nat, hi: nat) {
    && (forall s {:trigger b[s]} | s in b && !(lo <= s < hi) :: s in c && c[s] == b[s])
    && (forall s {:trigger c[s]} | s in c && !(lo <= s < hi) :: s in b)
    && (forall s {:trigger b[s]} | s in b && lo <= s < hi :: !b[s].used && s + b[s].size <= hi)
    && (forall s {:trigger c[s]} | s in c && lo <= s < hi :: !c[s].used && s + c[s].size <= hi)
  }

  /** Nothing free touches the block at `s`. */
  ghost predicate Isolated(n: nat, b: BlockMap, s: nat)
    requires Tiling(n, b) && s in b
  {
    && (s > 0 ==> b[Predecessor(n, b, s)].used)
    && (s + b[s].size < n ==> Followed(n, b, s) && b[s + b[s].size].used)
  }

  ghost function End(b: BlockMap, s: nat): nat
    requires s in b
  {
    s + b[s].size
  }

  lemma FuseRetiled(n: nat, b: BlockMap, a: nat, c: nat, d: BlockMap, lo: nat, hi: nat)
    requires Tiling(n, b) && a in b && c in b && End(b, a) == c && !b[a].used && !b[c].used
    requires Retiled(Fuse(b, a, c), d, lo, hi) && lo <= a && End(b, c) <= hi
    ensures Retiled(b, d, lo, hi)
  {
    var m := Fuse(b, a, c);
    assert b[a].size >= 1 && b[c].size >= 1;
    forall s {:trigger b[s]} | s in b && !(lo <= s < hi) ensures s in d && d[s] == b[s] {
      assert m[s] == b[s];
    }
    forall s {:trigger d[s]} | s in d && !(lo <= s < hi) ensures s in b {
      assert s in m && (s == a || m[s] == b[s]);
    }
    forall s {:trigger b[s]} | s in b && lo <= s < hi ensures !b[s].used && End(b, s) <= hi {
      if s != a && s != c { assert m[s] == b[s]; }
    }
  }

  lemma CutRetiled(n: nat, b: BlockMap, a: nat, k: nat)
    requires Tiling(n, b) && a in b && 0 < k < b[a].size && !b[a].used
    ensures Retiled(b, Cut(b, a, k), a, End(b, a))
  {
    hide Tiling;
    var c := Cut(b, a, k);
    CutTiling(n, b, a, k);
    assert c[a] == Block(k, false) && c[a + k] == Block(b[a].size - k, false);
    assert forall s {:trigger c[s]} {:trigger b[s]} | s != a && s != a + k :: (s in b <==> s in c) && (s in b ==> b[s] == c[s]);
    hide Cut;
    forall s {:trigger b[s]} | s in b && a <= s < End(b, a) ensures s == a {
      if a < s { Behind(n, b, a, s); }
    }
  }

  lemma Behind(n: nat, b: BlockMap, s: nat, t: nat)
    requires Tiling(n, b) && s in b && t in b && s < t
    ensures End(b, s) <= t
  {
    assert b[s].size >= 1 && b[t].size >= 1;
  }

  lemma SelfRetiled(n: nat, b: BlockMap, a: nat)
    requires FreeAt(n, b, a)
    ensures Retiled(b, b, a, End(b, a))
  {
    forall s {:trigger b[s]} | s in b && a <= s < End(b, a) ensures s == a {
      assert b[s].size >= 1;
    }
  }

  /** What a capped merge to the right guarantees: it re-tiles the free words it absorbed, keeps
      every block within the cap, and stops at a used block or the region's end unless it carved. */
  ghost predicate MergedRight(n: nat, b: BlockMap, cur: nat, cap: nat, r: Merge) {
    && FreeAt(n, r.b, r.cur) && cur in b && cur in r.b
    && Bounded(cap, r.b, {})
    && Retiled(b, r.b, cur, End(r.b, r.cur))
    && End(b, cur) <= End(r.b, r.cur)
    && (if r.carved then r.b[cur].size == cap && r.cur == cur + cap else r.cur == cur)
    && (!r.carved && End(r.b, cur) != n ==> End(r.b, cur) in r.b && r.b[End(r.b, cur)].used)
  }

  lemma {:induction false} AbsorbRightEffect(n: nat, b: BlockMap, cur: nat, cap: nat)
    requires cap >= 1 && FreeAt(n, b, cur) && Bounded(cap, b, {})
    ensures MergedRight(n, b, cur, cap, AbsorbRight(n, b, cur, cap, true))
    decreases n - cur - b[cur].size
  {
    var r := AbsorbRight(n, b, cur, cap, true);
    var nx := cur + b[cur].size;
    Next(n, b, cur);
    if nx == n || b[nx].used {
      SelfRetiled(n, b, cur);
      assert r == Merge(b, cur, false);
    } else {
      FuseTiling(n, b, cur, nx);
      var m := Fuse(b, cur, nx);
      if m[cur].size > cap {
        assert r == Merge(Cut(m, cur, cap), cur + cap, true);
        CarveRightEffect(n, b, cur, nx, cap);
      } else {
        FuseBounded(b, cur, nx, cap);
        AbsorbRightEffect(n, m, cur, cap);
        assert r == AbsorbRight(n, m, cur, cap, true);
        MergedRightFuse(n, b, cur, nx, cap, r);
      }
    }
  }

  lemma FuseBounded(b: BlockMap, a: nat, c: nat, cap: nat)
    requires a in b && c in b && End(b, a) == c && b[a].size + b[c].size <= cap && Bounded(cap, b, {})
    ensures Bounded(cap, Fuse(b, a, c), {})
  {
    var m := Fuse(b, a, c);
    forall s {:trigger m[s]} | s in m ensures m[s].size <= cap {
      if s != a { assert m[s] == b[s]; }
    }
  }

  lemma CarveBounded(b: BlockMap, a: nat, c: nat, cap: nat)
    requires a in b && c in b && End(b, a) == c && cap < b[a].size + b[c].size && cap > 0
    requires Bounded(cap, b, {})
    ensures Bounded(cap, Cut(Fuse(b, a, c), a, cap), {})
  {
    var r := Cut(Fuse(b, a, c), a, cap);
    forall s {:trigger r[s]} | s in r ensures r[s].size <= cap {
      if s != a && s != a + cap { assert r[s] == b[s]; }
    }
  }

  lemma MergedRightFuse(n: nat, b: BlockMap, a: nat, c: nat, cap: nat, r: Merge)
    requires FreeAt(n, b, a) && c in b && End(b, a) == c && !b[c].used
    requires MergedRight(n, Fuse(b, a, c), a, cap, r)
    ensures MergedRight(n, b, a, cap, r)
  {
    assert End(Fuse(b, a, c), a) == End(b, c);
    FuseRetiled(n, b, a, c, r.b, a, End(r.b, r.cur));
  }

  lemma CarveRightEffect(n: nat, b: BlockMap, a: nat, c: nat, cap: nat)
    requires cap >= 1 && FreeAt(n, b, a) && Bounded(cap, b, {})
    requires c in b && End(b, a) == c && !b[c].used && b[a].size + b[c].size > cap
    ensures MergedRight(n, b, a, cap, Merge(Cut(Fuse(b, a, c), a, cap), a + cap, true))
  {
    hide Tiling, Retiled, Bounded;
    var m := Fuse(b, a, c);
    FuseTiling(n, b, a, c);
    CutTiling(n, m, a, cap);
    CutRetiled(n, m, a, cap);
    var r := Cut(m, a, cap);
    assert End(r, a + cap) == End(m, a) == End(b, c);
    FuseRetiled(n, b, a, c, r, a, End(m, a));
    CarveBounded(b, a, c, cap);
  }

  lemma CarveLeftEffect(n: nat, b: BlockMap, p: nat, c: nat, cap: nat)
    requires cap >= 1 && FreeAt(n, b, c) && Bounded(cap, b, {})
    requires p in b && End(b, p) == c && !b[p].used && b[p].size + b[c].size > cap
    ensures MergedLeft(n, b, c, cap, Merge(Cut(Fuse(b, p, c), p, cap), p + cap, true))
  {
    hide Tiling, Retiled, Bounded;
    var m := Fuse(b, p, c);
    FuseTiling(n, b, p, c);
    CutTiling(n, m, p, cap);
    CutRetiled(n, m, p, cap);
    var r := Cut(m, p, cap);
    assert End(r, p + cap) == End(m, p) == End(b, c);
    FuseRetiled(n, b, p, c, r, p, End(m, p));
    CarveBounded(b, p, c, cap);
  }

  /** What a capped merge to the left guarantees, as for the right. */
  ghost predicate MergedLeft(n: nat, b: BlockMap, cur: nat, cap: nat, r: Merge) {
    && FreeAt(n, r.b, r.cur) && cur in b
    && Bounded(cap, r.b, {})
    && (r.carved ==> r.cur >= cap)
    && Low(r, cap) <= cur
    && Retiled(b, r.b, Low(r, cap), End(b, cur))
    && End(r.b, r.cur) == End(b, cur)
    && (r.carved ==> r.cur - cap in r.b && r.b[r.cur - cap].size == cap)
    && (!r.carved && r.cur > 0 ==> r.b[Predecessor(n, r.b, r.cur)].used)
  }

  /** The first word of the run that a merge to the left absorbed. */
  ghost function Low(r: Merge, cap: nat): nat
    requires r.carved ==> r.cur >= cap
  {
    if r.carved then r.cur - cap else r.cur
  }

  lemma {:induction false} AbsorbLeftEffect(n: nat, b: BlockMap, cur: nat, cap: nat)
    requires cap >= 1 && FreeAt(n, b, cur) && Bounded(cap, b, {})
    ensures MergedLeft(n, b, cur, cap, AbsorbLeft(n, b, cur, cap))
    decreases cur
  {
    var r := AbsorbLeft(n, b, cur, cap);
    if cur == 0 || b[Predecessor(n, b, cur)].used {
      SelfRetiled(n, b, cur);
      assert r == Merge(b, cur, false);
    } else {
      var p := Predecessor(n, b, cur);
      assert b[p].size >= 1;
      FuseTiling(n, b, p, cur);
      var m := Fuse(b, p, cur);
      if m[p].size > cap {
        assert r == Merge(Cut(m, p, cap), p + cap, true);
        CarveLeftEffect(n, b, p, cur, cap);
      } else {
        FuseBounded(b, p, cur, cap);
        AbsorbLeftEffect(n, m, p, cap);
        assert r == AbsorbLeft(n, m, p, cap);
        MergedLeftFuse(n, b, p, cur, cap, r);
      }
    }
  }

  lemma MergedLeftFuse(n: nat, b: BlockMap, p: nat, c: nat, cap: nat, r: Merge)
    requires FreeAt(n, b, c) && p in b && End(b, p) == c && !b[p].used
    requires MergedLeft(n, Fuse(b, p, c), p, cap, r)
    ensures MergedLeft(n, b, c, cap, r)
  {
    assert End(Fuse(b, p, c), p) == End(b, c);
    FuseRetiled(n, b, p, c, r.b, Low(r, cap), End(b, c));
  }

  lemma RetiledUsed(b: BlockMap, c: BlockMap, lo: nat, hi: nat)
    requires Retiled(b, c, lo, hi)
    ensures Used(b) == Used(c)
  {
    forall s | s in b && b[s].used ensures s in c && c[s] == b[s] {}
    forall s | s in c && c[s].used ensures s in b && c[s] == b[s] {
      assert !(lo <= s < hi);
      assert s in b;
      assert b[s] == c[s];
    }
  }

  lemma RetiledTrans(n: nat, b: BlockMap, c: BlockMap, d: BlockMap, lo: nat, a: nat, mid: nat, hi: nat)
    requires Tiling(n, b) && Tiling(n, c) && Tiling(n, d)
    requires Retiled(b, c, lo, mid) && Retiled(c, d, a, hi) && lo <= a && mid <= hi
    requires a in c && mid in {a + c[a].size}
    ensures Retiled(b, d, lo, hi)
  {
    forall s {:trigger b[s]} | s in b ensures !(lo <= s < hi) ==> s in d && d[s] == b[s] {
      if !(lo <= s < hi) { assert s in c && c[s] == b[s]; }
    }
    forall s {:trigger d[s]} | s in d && !(lo <= s < hi) ensures s in b {
      assert s in c;
      assert c[s] == d[s];
    }
    forall s {:trigger b[s]} | s in b && lo <= s < hi ensures !b[s].used && s + b[s].size <= hi {
      if s >= mid { assert s in c && c[s] == b[s]; }
    }
    forall s {:trigger d[s]} | s in d && lo <= s < hi ensures !d[s].used && s + d[s].size <= hi {
      if s < a { assert s in c && c[s] == d[s]; }
    }
  }

  // ---------- The effect of freeing a block ----------

  /** The free block at `s` absorbs its free neighbours, first to the left, then to the right; the
      result says where the last free block starts and whether any cut was made. */
  ghost function Coalesced(n: nat, b: BlockMap, s: nat, cap: nat): (r: Merge)
    requires cap >= 1 && FreeAt(n, b, s)
    ensures FreeAt(n, r.b, r.cur)
  {
    var l := AbsorbLeft(n, b, s, cap);
    var r := AbsorbRight(n, l.b, l.cur, cap, true);
    Merge(r.b, r.cur, l.carved || r.carved)
  }

  /** The used block at `s` becomes free and absorbs its free neighbours. */
  ghost function Release(n: nat, b: BlockMap, s: nat, cap: nat): (r: Merge)
    requires cap >= 1 && Tiling(n, b) && s in b
    ensures FreeAt(n, r.b, r.cur)
  {
    MarkTiling(n, b, s, false);
    Coalesced(n, Mark(b, s, false), s, cap)
  }

  ghost function Mark(b: BlockMap, s: nat, used: bool): BlockMap
    requires s in b
  {
    b[s := Block(b[s].size, used)]
  }

  lemma MarkSame(b: BlockMap, s: nat)
    requires s in b
    ensures Mark(b, s, b[s].used) == b
  {
    assert b[s] == Block(b[s].size, b[s].used);
  }

  lemma MarkTiling(n: nat, b: BlockMap, s: nat, used: bool)
    requires Tiling(n, b) && s in b
    ensures Tiling(n, Mark(b, s, used))
  {
    var c := Mark(b, s, used);
    forall t {:trigger c[t]} | t in c ensures c[t].size == b[t].size {}
    forall t {:trigger Followed(n, c, t)} | t in c ensures Followed(n, c, t) {
      assert Followed(n, b, t);
    }
  }

  ghost predicate Released(n: nat, b: BlockMap, s: nat, cap: nat, r: Merge, lo: nat, hi: nat) {
    && s in b && FreeAt(n, r.b, r.cur) && Bounded(cap, r.b, {})
    && Used(r.b) == Used(b) - {s}
    && lo <= s && End(b, s) <= hi && Retiled(Mark(b, s, false), r.b, lo, hi)
    && lo <= r.cur && End(r.b, r.cur) == hi
    && (!r.carved ==> r.cur == lo && Isolated(n, r.b, lo))
  }

  /** Freeing gives back exactly the block at `s`: the used blocks lose that one, the words
      `lo..hi` around it are re-tiled with free blocks, every other block stays, and when nothing
      was cut the run is one block with a used block or the region's end on each side. */
  lemma ReleaseEffect(n: nat, b: BlockMap, s: nat, cap: nat) returns (lo: nat, hi: nat)
    requires cap >= 1 && Tiling(n, b) && s in b && b[s].used && Bounded(cap, b, {})
    ensures Released(n, b, s, cap, Release(n, b, s, cap), lo, hi)
  {
    var f := Mark(b, s, false);
    MarkTiling(n, b, s, false);
    assert Bounded(cap, f, {}) by { MarkBounded(b, s, cap); }
    AbsorbLeftEffect(n, f, s, cap);
    var l := AbsorbLeft(n, f, s, cap);
    AbsorbRightEffect(n, l.b, l.cur, cap);
    var r := AbsorbRight(n, l.b, l.cur, cap, true);
    lo, hi := Low(l, cap), End(r.b, r.cur);
    ReleaseCombine(n, b, s, cap, l, r);
  }

  lemma ReleaseUsed(n: nat, b: BlockMap, s: nat, cap: nat)
    requires cap >= 1 && Tiling(n, b) && s in b && b[s].used && Bounded(cap, b, {})
    ensures var r := Release(n, b, s, cap); r.b[r.cur].size <= cap && Used(r.b) == Used(b) - {s}
  {
    hide Tiling, Release, Used, Retiled;
    var lo, hi := ReleaseEffect(n, b, s, cap);
  }

  lemma MarkUsed(b: BlockMap, s: nat)
    requires s in b
    ensures Used(Mark(b, s, false)) == Used(b) - {s}
    ensures Used(Mark(b, s, true)) == Used(b)[s := b[s].size]
  {}

  lemma MarkBounded(b: BlockMap, s: nat, cap: nat)
    requires s in b && Bounded(cap, b, {})
    ensures Bounded(cap, Mark(b, s, false), {})
  {
    var f := Mark(b, s, false);
    forall t {:trigger f[t]} | t in f ensures f[t].size == b[t].size {}
  }

  lemma ReleaseCombine(n: nat, b: BlockMap, s: nat, cap: nat, l: Merge, r: Merge)
    requires cap >= 1 && Tiling(n, b) && s in b && b[s].used && FreeAt(n, Mark(b, s, false), s)
    requires MergedLeft(n, Mark(b, s, false), s, cap, l) && MergedRight(n, l.b, l.cur, cap, r)
    ensures Released(n, b, s, cap, Merge(r.b, r.cur, l.carved || r.carved), Low(l, cap), End(r.b, r.cur))
  {
    var f := Mark(b, s, false);
    var lo, hi := Low(l, cap), End(r.b, r.cur);
    RetiledTrans(n, f, l.b, r.b, lo, l.cur, End(b, s), hi);
    RetiledUsed(f, r.b, lo, hi);
    MarkUsed(b, s);
    if !l.carved && !r.carved {
      ReleaseIsolated(n, l.b, r.b, lo);
    }
  }

  lemma ReleaseIsolated(n: nat, l: BlockMap, r: BlockMap, a: nat)
    requires FreeAt(n, l, a) && FreeAt(n, r, a) && Retiled(l, r, a, End(r, a))
    requires a > 0 ==> l[Predecessor(n, l, a)].used
    requires End(r, a) != n ==> End(r, a) in r && r[End(r, a)].used
    ensures Isolated(n, r, a)
  {
    if a > 0 {
      var p := Predecessor(n, l, a);
      var q := Predecessor(n, r, a);
      assert l[p].size >= 1 && r[q].size >= 1;
      assert r[p] == l[p];
      assert p == q;
    }
    assert Followed(n, r, a);
  }

  // ---------- Words in use ----------

  ghost predicate InUse(b: BlockMap, i: nat) {
    exists s :: Covers(b, s, i) && b[s].used
  }

  ghost function UsedWords(n: nat, b: BlockMap): set<nat> {
    set i: nat | i < n && InUse(b, i)
  }

  ghost predicate IsFree(b: BlockMap, i: nat) {
    exists s :: Covers(b, s, i) && !b[s].used
  }

  ghost function FreeWords(n: nat, b: BlockMap): set<nat> {
    set i: nat | i < n && IsFree(b, i)
  }

  predicate Within(s: nat, k: nat, i: nat) {
    s <= i < s + k
  }

  ghost function Range(s: nat, k: nat): set<nat> {
    set i: nat | i < s + k && Within(s, k, i)
  }

  lemma {:induction false} RangeSize(s: nat, k: nat)
    ensures |Range(s, k)| == k
  {
    if k > 0 {
      RangeSize(s, k - 1);
      assert Range(s, k) == Range(s, k - 1) + {s + k - 1};
    } else {
      assert Range(s, k) == {};
    }
  }

  /** Conservation: every word of the region is either in a used block or in a free one. */
  lemma WordsConserved(n: nat, b: BlockMap)
    requires Tiling(n, b)
    ensures UsedWords(n, b) + FreeWords(n, b) == Range(0, n) && UsedWords(n, b) !! FreeWords(n, b)
    ensures |UsedWords(n, b)| + |FreeWords(n, b)| == n
  {
    forall i: nat | i < n ensures InUse(b, i) <==> !IsFree(b, i) {
      ExactCover(n, b, i);
    }
    hide Tiling, InUse, IsFree;
    RangeSize(0, n);
    assert UsedWords(n, b) + FreeWords(n, b) == Range(0, n);
  }

  /** The used blocks of `c` are those of `b`, and one of `k` words at `s`. */
  lemma UsedGain(n: nat, b: BlockMap, c: BlockMap, s: nat, k: nat)
    requires Tiling(n, c) && s !in Used(b) && Used(c) == Used(b)[s := k]
    ensures s in c && c[s] == Block(k, true) && s + k <= n
    ensures forall t {:trigger b[t]} | t in b && b[t].used :: t != s && t in c && c[t] == b[t]
    ensures forall t {:trigger c[t]} | t in c && c[t].used && t != s :: t in b && b[t] == c[t]
  {
    assert s in Used(c);
    forall t {:trigger b[t]} | t in b && b[t].used ensures t != s && t in c && c[t] == b[t] {
      assert t in Used(b) && t in Used(c);
    }
    forall t {:trigger c[t]} | t in c && c[t].used && t != s ensures t in b && b[t] == c[t] {
      assert t in Used(c) && t in Used(b);
    }
  }

  lemma UsedWordsAt(n: nat, b: BlockMap, c: BlockMap, s: nat, k: nat, i: nat)
    requires Tiling(n, b) && Tiling(n, c) && s !in Used(b) && Used(c) == Used(b)[s := k]
    ensures InUse(c, i) <==> InUse(b, i) || Within(s, k, i)
    ensures !(InUse(b, i) && Within(s, k, i)) && (Within(s, k, i) ==> i < n)
  {
    hide Tiling, Used;
    UsedGain(n, b, c, s, k);
    if t: nat :| Covers(b, t, i) && b[t].used {
      assert Covers(c, t, i);
      if t < s { Behind(n, c, t, s); } else { Behind(n, c, s, t); }
    }
    if Within(s, k, i) {
      assert Covers(c, s, i);
    }
    if t: nat :| Covers(c, t, i) && c[t].used && t != s {
      assert Covers(b, t, i);
    }
  }

  lemma UsedWordsSet(n: nat, b: BlockMap, c: BlockMap, s: nat, k: nat)
    requires Tiling(n, b) && Tiling(n, c) && s !in Used(b) && Used(c) == Used(b)[s := k]
    ensures UsedWords(n, c) == UsedWords(n, b) + Range(s, k)
    ensures Range(s, k) !! UsedWords(n, b) && Range(s, k) <= Range(0, n)
  {
    forall i: nat ensures
      && (InUse(c, i) <==> InUse(b, i) || Within(s, k, i))
      && !(InUse(b, i) && Within(s, k, i)) && (Within(s, k, i) ==> i < n)
    {
      UsedWordsAt(n, b, c, s, k, i);
    }
    hide Tiling, Used, InUse;
  }

  /** When the used blocks gain one, or lose one read the other way, exactly its words change sides:
      from free to used, and the rest stay. */
  lemma UsedWordsGrow(n: nat, b: BlockMap, c: BlockMap, s: nat, k: nat)
    requires Tiling(n, b) && Tiling(n, c) && s !in Used(b) && Used(c) == Used(b)[s := k]
    ensures Range(s, k) <= FreeWords(n, b)
    ensures UsedWords(n, c) == UsedWords(n, b) + Range(s, k) && FreeWords(n, c) == FreeWords(n, b) - Range(s, k)
    ensures |UsedWords(n, c)| == |UsedWords(n, b)| + k && |FreeWords(n, c)| == |FreeWords(n, b)| - k
  {
    hide Tiling, Used, UsedWords, FreeWords, Range;
    UsedWordsSet(n, b, c, s, k);
    WordsConserved(n, b);
    WordsConserved(n, c);
    RangeSize(s, k);
    RangeSize(0, n);
  }
}
