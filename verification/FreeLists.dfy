/** The free lists as sequences, one per size class, newest block first: what the allocator's steps
    do to their order. */
module FreeLists {
  import opened Blocks
  import opened HeapInvariant
  import opened HeapSteps

  type Lists = seq<seq<nat>>

  /** The block at `s` becomes the first of list `c`; blocks of one or two words have no list. */
  ghost function Pushed(q: Lists, c: int, s: nat): Lists {
    if 0 <= c < |q| then q[c := [s] + q[c]] else q
  }

  ghost function Drop(x: seq<nat>, s: nat): seq<nat> {
    if x == [] then [] else if x[0] == s then x[1..] else [x[0]] + Drop(x[1..], s)
  }

  /** The block at `s` leaves list `c`. */
  ghost function Without(q: Lists, c: int, s: nat): Lists {
    if 0 <= c < |q| then q[c := Drop(q[c], s)] else q
  }

  lemma {:induction false} DropAt(x: seq<nat>, k: nat)
    requires k < |x| && Distinct(x)
    ensures Drop(x, x[k]) == x[..k] + x[k + 1..]
    decreases |x|
  {
    if k > 0 {
      DropAt(x[1..], k - 1);
      assert x[0] != x[k];
      assert x[..k] + x[k + 1..] == [x[0]] + (x[1..][..k - 1] + x[1..][k..]);
    }
  }

  // ---------- The fresh heap ----------

  /** The blocks after carving the free block of `left` words at `addr`: pieces of `cap` words, and
      what remains. */
  ghost function CarvedBlocks(b: BlockMap, addr: nat, left: nat, cap: nat): BlockMap
    requires cap >= 1 && (left > 0 ==> addr in b && b[addr].size == left)
    decreases left
  {
    if left > cap then CarvedBlocks(Cut(b, addr, cap), addr + cap, left - cap, cap) else b
  }

  /** The lists after that carving. */
  ghost function CarvedLists(q: Lists, addr: nat, left: nat, cap: nat): Lists
    requires cap >= 1
    decreases left
  {
    if left > cap then CarvedLists(Pushed(q, cap - 3, addr), addr + cap, left - cap, cap) else Pushed(q, left - 3, addr)
  }

  /** One turn of the carving loop. */
  lemma CarvedStep(b: BlockMap, q: Lists, addr: nat, left: nat, cap: nat)
    requires cap >= 1 && (left > 0 ==> addr in b && b[addr].size == left)
    ensures CarvedBlocks(b, addr, left, cap) ==
            if left > cap then CarvedBlocks(Cut(b, addr, cap), addr + cap, left - cap, cap) else CarvedBlocks(b, addr + left, 0, cap)
    ensures CarvedLists(q, addr, left, cap) ==
            if left > cap then CarvedLists(Pushed(q, cap - 3, addr), addr + cap, left - cap, cap)
            else CarvedLists(Pushed(q, left - 3, addr), addr + left, 0, cap)
  {}

  lemma CarvedEnd(b: BlockMap, q: Lists, addr: nat, cap: nat)
    requires cap >= 1
    ensures CarvedBlocks(b, addr, 0, cap) == b && CarvedLists(q, addr, 0, cap) == q
  {}

  /** Every block but the last has `cap` words, and the last, which takes the rest, no more. */
  lemma {:induction false} CarvedShape(b: BlockMap, addr: nat, left: nat, cap: nat)
    requires cap >= 1 && if left > 0 then addr in b && b[addr] == Block(left, false) else addr !in b
    requires forall s {:trigger b[s]} | s in b && s != addr :: b[s] == Block(cap, false)
    ensures var c := CarvedBlocks(b, addr, left, cap);
      forall s {:trigger c[s]} | s in c :: !c[s].used && c[s].size <= cap && (c[s].size == cap || s + c[s].size == addr + left)
    decreases left
  {
    var r := CarvedBlocks(b, addr, left, cap);
    if left > cap {
      var c := Cut(b, addr, cap);
      forall s {:trigger c[s]} | s in c && s != addr + cap ensures c[s] == Block(cap, false) {
        if s != addr { assert c[s] == b[s]; }
      }
      assert c[addr + cap] == Block(left - cap, false);
      CarvedShape(c, addr + cap, left - cap, cap);
      assert r == CarvedBlocks(c, addr + cap, left - cap, cap);
    } else {
      assert r == b;
      forall s {:trigger r[s]} | s in r ensures !r[s].used && r[s].size <= cap && (r[s].size == cap || s + r[s].size == addr + left) {
        if s != addr { assert b[s] == Block(cap, false); }
      }
    }
  }

  ghost function WholeRegion(n: nat): BlockMap {
    if n > 0 then map[0 := Block(n, false)] else map[]
  }

  ghost function NoLists(classes: nat): Lists {
    seq(classes, _ => [])
  }

  // ---------- Coalescing ----------

  /** The lists after `AbsorbRight`. */
  ghost function RightLists(n: nat, b: BlockMap, q: Lists, cur: nat, cap: nat, capped: bool): Lists
    requires cap >= 1 && FreeAt(n, b, cur)
    decreases n - cur - b[cur].size
  {
    if !FreeAfter(b, cur) then q
    else
      var nx := cur + b[cur].size;
      Next(n, b, cur);
      FuseTiling(n, b, cur, nx);
      var m := Fuse(b, cur, nx);
      var q1 := Without(q, b[nx].size - 3, nx);
      if capped && m[cur].size > cap then Pushed(q1, cap - 3, cur)
      else RightLists(n, m, q1, cur, cap, capped)
  }

  /** The lists after `AbsorbLeft`. */
  ghost function LeftLists(n: nat, b: BlockMap, q: Lists, cur: nat, cap: nat): Lists
    requires cap >= 1 && FreeAt(n, b, cur)
    decreases cur
  {
    if !FreeBefore(n, b, cur) then q
    else
      var p := Predecessor(n, b, cur);
      Next(n, b, p);
      FuseTiling(n, b, p, cur);
      var m := Fuse(b, p, cur);
      var q1 := Without(q, b[p].size - 3, p);
      if m[p].size > cap then Pushed(q1, cap - 3, p) else LeftLists(n, m, q1, p, cap)
  }

  /** One turn of each loop, on the lists. */
  lemma RightListsStep(n: nat, b: BlockMap, q: Lists, cur: nat, cap: nat, capped: bool)
    requires cap >= 1 && FreeAt(n, b, cur)
    ensures !FreeAfter(b, cur) ==> RightLists(n, b, q, cur, cap, capped) == q
    ensures FreeAfter(b, cur) ==>
              var nx := cur + b[cur].size;
              var m := Fuse(b, cur, nx);
              var q1 := Without(q, b[nx].size - 3, nx);
              FreeAt(n, m, cur) &&
              RightLists(n, b, q, cur, cap, capped) ==
                if capped && m[cur].size > cap then Pushed(q1, cap - 3, cur) else RightLists(n, m, q1, cur, cap, capped)
  {
    AbsorbRightStep(n, b, cur, cap, capped);
  }

  lemma LeftListsStep(n: nat, b: BlockMap, q: Lists, cur: nat, cap: nat)
    requires cap >= 1 && FreeAt(n, b, cur)
    ensures !FreeBefore(n, b, cur) ==> LeftLists(n, b, q, cur, cap) == q
    ensures FreeBefore(n, b, cur) ==>
              var p := Predecessor(n, b, cur);
              var m := Fuse(b, p, cur);
              var q1 := Without(q, b[p].size - 3, p);
              FreeAt(n, m, p) &&
              LeftLists(n, b, q, cur, cap) ==
                if m[p].size > cap then Pushed(q1, cap - 3, p) else LeftLists(n, m, q1, p, cap)
  {
    AbsorbLeftStep(n, b, cur, cap);
  }

  /** The lists after `Halved`, when the rest has been filed. */
  ghost function HalvedLists(n: nat, b: BlockMap, q: Lists, s: nat, c: nat, cap: nat, capped: bool): Lists
    requires FreeAt(n, b, s) && c + 3 < b[s].size && cap >= 1
  {
    hide Tiling, Cut, RightLists;
    CutFree(n, b, s, c + 3);
    var m := Halved(n, b, s, c, cap, capped);
    Pushed(RightLists(n, Cut(b, s, c + 3), q, s + c + 3, cap, capped), m.b[m.cur].size - 3, m.cur)
  }

  /** The lists after a division for class `c`. */
  ghost function DivisionLists(v: HeapState, c: nat, capped: bool): Lists
    requires Inv(v, {}) && c < |v.q| && FirstClass(v.q, c + 1) < |v.q|
  {
    var i, s := FirstClass(v.q, c + 1), Victim(v, c);
    HalvedLists(|v.w|, v.b, Pushed(v.q[i := v.q[i][1..]], c, s), s, c, |v.h| + 2, capped)
  }

  /** The lists from which a request for class `c` is served. */
  ghost function ProvidedLists(v: HeapState, c: nat, capped: bool): Lists
    requires Inv(v, {}) && c < |v.q| && (v.q[c] != [] || FirstClass(v.q, c + 1) < |v.q|)
  {
    if v.q[c] != [] then v.q else DivisionLists(v, c, capped)
  }

  /** The block at `s` is the head of the list that serves class `c`, and leaves it. */
  ghost predicate HeadServed(v: HeapState, q: Lists, s: nat, c: nat, capped: bool)
    requires Inv(v, {}) && c < |v.q|
  {
    && (v.q[c] != [] || FirstClass(v.q, c + 1) < |v.q|)
    && var m := ProvidedLists(v, c, capped);
    c < |m| && m[c] != [] && s == m[c][0] && q == m[c := m[c][1..]]
  }

  /** The lists after `Coalesced`. */
  ghost function CoalescedLists(n: nat, f: BlockMap, q: Lists, s: nat, cap: nat): Lists
    requires cap >= 1 && FreeAt(n, f, s)
  {
    var l := AbsorbLeft(n, f, s, cap);
    RightLists(n, l.b, LeftLists(n, f, q, s, cap), l.cur, cap, true)
  }

  /** The lists after `Release`, when the last free block has been filed. */
  ghost function ReleaseLists(n: nat, b: BlockMap, q: Lists, s: nat, cap: nat): Lists
    requires cap >= 1 && Tiling(n, b) && s in b
  {
    MarkTiling(n, b, s, false);
    var r := Release(n, b, s, cap);
    Pushed(CoalescedLists(n, Mark(b, s, false), q, s, cap), r.b[r.cur].size - 3, r.cur)
  }
}
