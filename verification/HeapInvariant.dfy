/** The concrete encoding of a block tiling: boundary tags in the region's words, free lists
    threaded through the free blocks, and the invariant that ties both to the tiling.

    All steps of the allocator work on a heap in which some blocks are "loose": they are part of
    the tiling, but their tags may be stale and they are in no list.  Each lemma below says how
    one elementary step keeps the invariant for all the other blocks. */
module HeapInvariant {
  import opened Blocks

  /** The region's words `w`, the list heads `h`, the tiling `b`, and per size class the block
      starts in list order `q`. */
  datatype HeapState = HeapState(w: seq<int>, h: seq<int>, b: BlockMap, q: seq<seq<nat>>)

  /** Header and footer word of a block: its size in bytes and the used bit. */
  function Tag(x: Block): int {
    8 * x.size + if x.used then 1 else 0
  }

  /** The value that ends list `c`: the list head's own address. */
  function Sentinel(c: nat): int {
    -1 - c
  }

  /** The address of entry `k` of list `c`: a block's address is its first payload word. */
  ghost function Link(q: seq<nat>, c: nat, k: nat): int {
    if k < |q| then q[k] + 1 else Sentinel(c)
  }

  ghost predicate Tagged(w: seq<int>, b: BlockMap, s: nat) {
    && s in b && b[s].size >= 1 && s + b[s].size <= |w|
    && w[s] == Tag(b[s]) && w[s + b[s].size - 1] == Tag(b[s])
  }

  /** A free block large enough to hold a link is in the list of its class. */
  ghost predicate Filed(v: HeapState, s: nat)
    requires s in v.b
  {
    v.b[s].used || v.b[s].size < 3 || (v.b[s].size - 3 < |v.q| && s in v.q[v.b[s].size - 3])
  }

  ghost predicate BlockOk(v: HeapState, s: nat) {
    Tagged(v.w, v.b, s) && v.b[s].size <= |v.h| + 2 && Filed(v, s)
  }

  /** Entry `k` of list `c` is a free block of that class and links to the next entry. */
  ghost predicate NodeOk(v: HeapState, out: set<nat>, c: nat, k: nat) {
    && c < |v.q| && k < |v.q[c]|
    && var s := v.q[c][k];
    && s in v.b && s !in out && v.b[s] == Block(c + 3, false)
    && s + 1 < |v.w| && v.w[s + 1] == Link(v.q[c], c, k + 1)
  }

  ghost predicate Distinct(q: seq<nat>) {
    forall j, k | 0 <= j < k < |q| :: q[j] != q[k]
  }

  ghost predicate HeadOk(v: HeapState, c: nat) {
    c < |v.h| == |v.q| && v.h[c] == Link(v.q[c], c, 0) && Distinct(v.q[c])
  }

  /** The heap invariant, for all blocks but the loose ones. */
  ghost predicate Inv(v: HeapState, out: set<nat>) {
    && |v.h| == |v.q|
    && Tiling(|v.w|, v.b)
    && out <= v.b.Keys
    && (forall s {:trigger BlockOk(v, s)} | s in v.b && s !in out :: BlockOk(v, s))
    && (forall c {:trigger HeadOk(v, c)} | 0 <= c < |v.h| :: HeadOk(v, c))
    && (forall c, k {:trigger NodeOk(v, out, c, k)} | 0 <= c < |v.q| && 0 <= k < |v.q[c]| :: NodeOk(v, out, c, k))
  }

  /** `u` and `w` agree outside the words of block `s`. */
  ghost predicate SameOutside(u: seq<int>, w: seq<int>, b: BlockMap, s: nat) {
    && s in b && |u| == |w|
    && forall i {:trigger w[i]} | 0 <= i < |w| && !(s <= i < s + b[s].size) :: w[i] == u[i]
  }

  /** Words of a loose block may be overwritten. */
  lemma StoreLoose(v: HeapState, out: set<nat>, cur: nat, w: seq<int>)
    requires Inv(v, out) && cur in out && SameOutside(v.w, w, v.b, cur)
    ensures Inv(v.(w := w), out)
  {
    var v' := v.(w := w);
    forall s {:trigger BlockOk(v', s)} | s in v'.b && s !in out ensures BlockOk(v', s) {
      assert BlockOk(v, s);
      assert v.b[s].size >= 1 && v.b[cur].size >= 1;
    }
    forall c {:trigger HeadOk(v', c)} | 0 <= c < |v'.h| ensures HeadOk(v', c) {
      assert HeadOk(v, c);
    }
    forall c, k {:trigger NodeOk(v', out, c, k)} | 0 <= c < |v'.q| && 0 <= k < |v'.q[c]| ensures NodeOk(v', out, c, k) {
      assert NodeOk(v, out, c, k);
      var s := v.q[c][k];
      assert v.b[s].size >= 1 && v.b[cur].size >= 1;
    }
  }

  /** A loose free block with its tags and link in place is pushed on the list of its class. */
  lemma Push(v: HeapState, out: set<nat>, cur: nat, c: nat)
    requires Inv(v, out) && cur in out && c < |v.h|
    requires v.b[cur] == Block(c + 3, false) && Tagged(v.w, v.b, cur) && v.w[cur + 1] == v.h[c]
    ensures Inv(v.(h := v.h[c := cur + 1], q := v.q[c := [cur] + v.q[c]]), out - {cur})
  {
    var v' := v.(h := v.h[c := cur + 1], q := v.q[c := [cur] + v.q[c]]);
    var out' := out - {cur};
    assert HeadOk(v, c);
    forall s {:trigger BlockOk(v', s)} | s in v'.b && s !in out' ensures BlockOk(v', s) {
      if s == cur {
        assert v'.q[c][0] == cur;
      } else {
        assert BlockOk(v, s);
        if s in v.q[c] { assert s in [cur] + v.q[c]; }
      }
    }
    forall d {:trigger HeadOk(v', d)} | 0 <= d < |v'.h| ensures HeadOk(v', d) {
      assert HeadOk(v, d);
      if d == c {
        forall k | 0 <= k < |v.q[c]| ensures v.q[c][k] != cur { assert NodeOk(v, out, c, k); }
      }
    }
    forall d, k {:trigger NodeOk(v', out', d, k)} | 0 <= d < |v'.q| && 0 <= k < |v'.q[d]| ensures NodeOk(v', out', d, k) {
      if d != c {
        assert NodeOk(v, out, d, k);
      } else if k > 0 {
        assert NodeOk(v, out, c, k - 1);
        assert v'.q[c][k] == v.q[c][k - 1];
      }
    }
  }

  /** Entry `k` of list `c` is unlinked by redirecting its predecessor and becomes loose. */
  ghost function Unlinked(v: HeapState, c: nat, k: nat): HeapState
    requires c < |v.h| == |v.q| && k < |v.q[c]|
    requires k > 0 ==> v.q[c][k - 1] + 1 < |v.w|
  {
    var q := v.q[c := v.q[c][..k] + v.q[c][k + 1..]];
    var next := Link(v.q[c], c, k + 1);
    if k == 0 then v.(h := v.h[c := next], q := q)
    else v.(w := v.w[v.q[c][k - 1] + 1 := next], q := q)
  }

  lemma UnlinkWords(v: HeapState, out: set<nat>, c: nat, k: nat, s: nat)
    requires Inv(v, out) && c < |v.h| && 0 < k < |v.q[c]| && s in v.b && s !in out
    ensures v.q[c][k - 1] + 1 < |v.w| && BlockOk(v, s)
    ensures s != v.q[c][k - 1] ==> !(s <= v.q[c][k - 1] + 1 < s + v.b[s].size)
    ensures v.q[c][k - 1] in v.b && v.b[v.q[c][k - 1]].size == c + 3
  {
    assert NodeOk(v, out, c, k - 1) && BlockOk(v, s);
    var p := v.q[c][k - 1];
    assert v.b[s].size >= 1 && v.b[p].size >= 1;
  }

  lemma Unlink(v: HeapState, out: set<nat>, c: nat, k: nat)
    requires Inv(v, out) && c < |v.h| && k < |v.q[c]|
    ensures k > 0 ==> NodeOk(v, out, c, k - 1)
    ensures NodeOk(v, out, c, k)
    ensures v.q[c][k] in v.b && v.q[c][k] !in out && v.b[v.q[c][k]] == Block(c + 3, false)
    ensures Inv(Unlinked(v, c, k), out + {v.q[c][k]})
  {
    assert NodeOk(v, out, c, k) && HeadOk(v, c);
    if k > 0 { assert NodeOk(v, out, c, k - 1); }
    assert v.q[c][k] in v.b;
    var v' := Unlinked(v, c, k);
    var s := v.q[c][k];
    var out' := out + {s};
    forall t {:trigger BlockOk(v', t)} | t in v'.b && t !in out' ensures BlockOk(v', t) {
      UnlinkBlock(v, out, c, k, t);
    }
    forall d {:trigger HeadOk(v', d)} | 0 <= d < |v'.h| ensures HeadOk(v', d) {
      assert HeadOk(v, d);
    }
    forall d, j {:trigger NodeOk(v', out', d, j)} | 0 <= d < |v'.q| && 0 <= j < |v'.q[d]| ensures NodeOk(v', out', d, j) {
      UnlinkNode(v, out, c, k, d, j);
    }
  }

  lemma UnlinkBlock(v: HeapState, out: set<nat>, c: nat, k: nat, t: nat)
    requires Inv(v, out) && c < |v.h| && k < |v.q[c]| && (k > 0 ==> NodeOk(v, out, c, k - 1))
    requires t in v.b && t !in out && t != v.q[c][k]
    ensures BlockOk(Unlinked(v, c, k), t)
  {
    var v' := Unlinked(v, c, k);
    assert BlockOk(v, t);
    if k > 0 { UnlinkWords(v, out, c, k, t); }
    if t in v.q[c] {
      var j :| 0 <= j < |v.q[c]| && v.q[c][j] == t;
      assert v'.q[c][if j < k then j else j - 1] == t;
    }
  }

  lemma UnlinkNode(v: HeapState, out: set<nat>, c: nat, k: nat, d: nat, j: nat)
    requires Inv(v, out) && c < |v.h| && k < |v.q[c]| && (k > 0 ==> NodeOk(v, out, c, k - 1))
    requires d < |v.q| && j < |Unlinked(v, c, k).q[d]|
    ensures NodeOk(Unlinked(v, c, k), out + {v.q[c][k]}, d, j)
  {
    var i := if d == c && j >= k then j + 1 else j;
    assert NodeOk(v, out, d, i) && NodeOk(v, out, c, k);
    var t := v.q[d][i];
    assert t == Unlinked(v, c, k).q[d][j];
    assert t != v.q[c][k] by {
      assert HeadOk(v, c);
      if d != c { assert v.b[t].size == d + 3; }
    }
    if k > 0 {
      UnlinkWords(v, out, c, k, t);
      if t == v.q[c][k - 1] {
        assert d == c && i == k - 1 by { assert HeadOk(v, c); }
      }
    }
  }

  /** A loose block that meets the invariant needs no special care any more. */
  lemma Settle(v: HeapState, out: set<nat>, cur: nat)
    requires Inv(v, out) && cur in out && BlockOk(v, cur)
    ensures Inv(v, out - {cur})
  {
    forall s {:trigger BlockOk(v, s)} | s in v.b && s !in out - {cur} ensures BlockOk(v, s) {}
    forall c, k {:trigger NodeOk(v, out - {cur}, c, k)} | 0 <= c < |v.q| && 0 <= k < |v.q[c]|
      ensures NodeOk(v, out - {cur}, c, k)
    {
      assert NodeOk(v, out, c, k);
    }
  }

  /** A used block is in no list, so it may become loose. */
  lemma Loosen(v: HeapState, out: set<nat>, cur: nat)
    requires Inv(v, out) && cur in v.b && v.b[cur].used
    ensures Inv(v, out + {cur})
  {
    forall c, k {:trigger NodeOk(v, out + {cur}, c, k)} | 0 <= c < |v.q| && 0 <= k < |v.q[c]|
      ensures NodeOk(v, out + {cur}, c, k)
    {
      assert NodeOk(v, out, c, k);
    }
  }

  /** A block too small for the lists may become loose. */
  lemma LoosenSmall(v: HeapState, out: set<nat>, cur: nat)
    requires Inv(v, out) && cur in v.b && v.b[cur].size < 3
    ensures Inv(v, out + {cur})
  {
    forall c, k {:trigger NodeOk(v, out + {cur}, c, k)} | 0 <= c < |v.q| && 0 <= k < |v.q[c]|
      ensures NodeOk(v, out + {cur}, c, k)
    {
      assert NodeOk(v, out, c, k);
    }
  }

  /** The tiling may change as long as only loose blocks do. */
  lemma Reshape(v: HeapState, out: set<nat>, b: BlockMap, out': set<nat>)
    requires Inv(v, out) && Tiling(|v.w|, b) && out' <= b.Keys
    requires forall s {:trigger v.b[s]} | s in v.b && s !in out :: s in b && b[s] == v.b[s] && s !in out'
    requires forall s {:trigger b[s]} | s in b && s !in out' :: s in v.b && s !in out
    ensures Inv(v.(b := b), out')
  {
    var v' := v.(b := b);
    forall s {:trigger BlockOk(v', s)} | s in v'.b && s !in out' ensures BlockOk(v', s) {
      assert b[s] == b[s];
      assert BlockOk(v, s);
      assert b[s] == v.b[s];
    }
    forall c {:trigger HeadOk(v', c)} | 0 <= c < |v'.h| ensures HeadOk(v', c) {
      assert HeadOk(v, c);
    }
    forall c, k {:trigger NodeOk(v', out', c, k)} | 0 <= c < |v'.q| && 0 <= k < |v'.q[c]| ensures NodeOk(v', out', c, k) {
      assert NodeOk(v, out, c, k);
      assert v.b[v.q[c][k]] == b[v.q[c][k]];
    }
  }

  lemma MarkInv(v: HeapState, out: set<nat>, cur: nat, used: bool)
    requires Inv(v, out) && cur in out
    ensures Inv(v.(b := Mark(v.b, cur, used)), out)
  {
    MarkTiling(|v.w|, v.b, cur, used);
    Reshape(v, out, Mark(v.b, cur, used), out);
  }

  lemma CutInv(v: HeapState, out: set<nat>, cur: nat, k: nat)
    requires Inv(v, out) && cur in out && 0 < k < v.b[cur].size
    ensures Inv(v.(b := Cut(v.b, cur, k)), out + {cur + k})
  {
    CutTiling(|v.w|, v.b, cur, k);
    Reshape(v, out, Cut(v.b, cur, k), out + {cur + k});
  }

  lemma FuseInv(v: HeapState, out: set<nat>, a: nat, c: nat)
    requires Inv(v, out) && a in out && c in out && a + v.b[a].size == c
    ensures Inv(v.(b := Fuse(v.b, a, c)), out - {c})
  {
    assert v.b[a].size >= 1;
    FuseTiling(|v.w|, v.b, a, c);
    Reshape(v, out, Fuse(v.b, a, c), out - {c});
  }

  // ---------- What the clients' blocks keep ----------

  ghost predicate KeepsBlock(v: HeapState, v': HeapState, s: nat) {
    && s in v.b && s in v'.b && v'.b[s] == v.b[s]
    && s + v.b[s].size <= |v.w| == |v'.w|
    && forall i {:trigger v'.w[i]} | s <= i < s + v.b[s].size :: v'.w[i] == v.w[i]
  }

  /** Every used block but `x` keeps its place, its size and all its words. */
  ghost predicate KeepsUsed(v: HeapState, v': HeapState, x: int) {
    forall s {:trigger KeepsBlock(v, v', s)} | s in v.b && v.b[s].used && s != x :: KeepsBlock(v, v', s)
  }

  lemma KeepsUsedTrans(u: HeapState, v: HeapState, w: HeapState, x: int, y: int, z: int)
    requires KeepsUsed(u, v, x) && KeepsUsed(v, w, y)
    requires x in {z, -1} || x !in u.b || !u.b[x].used
    requires y in {z, -1} || y !in u.b || !u.b[y].used
    ensures KeepsUsed(u, w, z)
  {
    forall s {:trigger KeepsBlock(u, w, s)} | s in u.b && u.b[s].used && s != z ensures KeepsBlock(u, w, s) {
      assert KeepsBlock(u, v, s) && KeepsBlock(v, w, s);
    }
  }

  /** Overwriting words of a block that is not used, or is `x`, keeps the used blocks. */
  lemma StoreKeeps(v: HeapState, w: seq<int>, cur: nat, x: int)
    requires Tiling(|v.w|, v.b) && SameOutside(v.w, w, v.b, cur) && (!v.b[cur].used || cur == x)
    ensures KeepsUsed(v, v.(w := w), x)
  {
    var v' := v.(w := w);
    forall s {:trigger KeepsBlock(v, v', s)} | s in v.b && v.b[s].used && s != x ensures KeepsBlock(v, v', s) {
      assert v.b[s].size >= 1 && v.b[cur].size >= 1;
    }
  }

  /** Changing blocks that are not used, or are `x`, keeps the used blocks. */
  lemma ReshapeKeeps(v: HeapState, v': HeapState, x: int)
    requires Tiling(|v.w|, v.b) && v'.w == v.w
    requires forall s {:trigger v.b[s]} | s in v.b && v.b[s].used && s != x :: s in v'.b && v'.b[s] == v.b[s]
    ensures KeepsUsed(v, v', x)
  {
    forall s {:trigger KeepsBlock(v, v', s)} | s in v.b && v.b[s].used && s != x ensures KeepsBlock(v, v', s) {
      assert v.b[s].size >= 1;
    }
  }

  lemma MarkKeeps(v: HeapState, s: nat, used: bool)
    requires Tiling(|v.w|, v.b) && s in v.b
    ensures KeepsUsed(v, v.(b := Mark(v.b, s, used)), s)
  {
    ReshapeKeeps(v, v.(b := Mark(v.b, s, used)), s);
  }

  /** A heap whose words form one loose block and whose lists are empty. */
  lemma EmptyInv(v: HeapState)
    requires |v.h| == |v.q| && forall c | 0 <= c < |v.q| :: v.q[c] == [] && v.h[c] == Sentinel(c)
    requires v.b == if |v.w| > 0 then map[0 := Block(|v.w|, false)] else map[]
    ensures Inv(v, if |v.w| > 0 then {0} else {})
  {
    var n := |v.w|;
    forall s {:trigger Followed(n, v.b, s)} | s in v.b ensures Followed(n, v.b, s) {}
    forall c {:trigger HeadOk(v, c)} | 0 <= c < |v.h| ensures HeadOk(v, c) {}
  }

  /** `w` differs from the heap's words only in the payload of block `s`. */
  ghost predicate SamePayloadOutside(v: HeapState, s: nat, w: seq<int>) {
    && s in v.b && |w| == |v.w|
    && forall i {:trigger w[i]} | 0 <= i < |w| && !(s < i < s + v.b[s].size - 1) :: w[i] == v.w[i]
  }

  /** Clients may overwrite the payload of their blocks. */
  lemma PayloadStore(v: HeapState, s: nat, w: seq<int>)
    requires Inv(v, {}) && SamePayloadOutside(v, s, w) && v.b[s].used
    ensures Inv(v.(w := w), {}) && KeepsUsed(v, v.(w := w), s)
  {
    Loosen(v, {}, s);
    assert {} + {s} == {s} && {s} - {s} == {};
    assert BlockOk(v, s);
    StoreLoose(v, {s}, s, w);
    StoreKeeps(v, w, s, s);
    Settle(v.(w := w), {s}, s);
  }
}
