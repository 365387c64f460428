/** A run of the heap as written that leaves the list heads' range. */
module HeapExamples {
  import opened Blocks
  import opened HeapInvariant
  import opened HeapSteps
  import opened FreeLists
  import SegregatedFits

  function F(size: nat): Block { Block(size, false) }

  function U(size: nat): Block { Block(size, true) }

  /** Blocks and lists of the heap in the run below: fresh, after each request, after each free. */
  function B0(): BlockMap { map[0 := F(5), 5 := F(5), 10 := F(5)] }
  function B1(): BlockMap { map[0 := F(5), 5 := F(5), 10 := U(5)] }
  function B2(): BlockMap { map[0 := F(5), 5 := U(5), 10 := U(5)] }
  function B3(): BlockMap { map[0 := U(3), 3 := F(2), 5 := U(5), 10 := U(5)] }
  function B4(): BlockMap { map[0 := U(3), 3 := F(5), 8 := F(2), 10 := U(5)] }
  function B5(): BlockMap { map[0 := U(3), 3 := F(5), 8 := F(5), 13 := F(2)] }
  function B6(): BlockMap { map[0 := F(5), 5 := F(3), 8 := F(5), 13 := F(2)] }

  function Q(small: seq<nat>, large: seq<nat>): Lists { [small, [], large] }

  ghost predicate At(v: HeapState, n: nat, b: BlockMap, small: seq<nat>, large: seq<nat>) {
    Inv(v, {}) && Tiling(n, v.b) && |v.w| == n && |v.h| == 3 && v.b == b && v.q == Q(small, large)
  }

  lemma ListSteps(small: seq<nat>, large: seq<nat>, s: nat)
    ensures Pushed(Q(small, large), 2, s) == Q(small, [s] + large)
    ensures Pushed(Q(small, large), 0, s) == Q([s] + small, large)
    ensures Without(Q(small, large), 2, s) == Q(small, Drop(large, s))
  {}

  lemma Fresh()
    ensures CarvedBlocks(WholeRegion(15), 0, 15, 5) == B0()
    ensures CarvedLists(NoLists(3), 0, 15, 5) == Q([], [10, 5, 0])
  {
    var b0 := WholeRegion(15);
    var b1, b2 := Cut(b0, 0, 5), Cut(Cut(b0, 0, 5), 5, 5);
    CarvedStep(b0, Q([], []), 0, 15, 5);
    CarvedStep(b1, Q([], [0]), 5, 10, 5);
    CarvedStep(b2, Q([], [5, 0]), 10, 5, 5);
    CarvedEnd(b2, Q([], [10, 5, 0]), 15, 5);
    ListSteps([], [], 0);
    ListSteps([], [0], 5);
    ListSteps([], [5, 0], 10);
    assert [0] + [] == [0] && [5] + [0] == [5, 0] && [10] + [5, 0] == [10, 5, 0];
    assert NoLists(3) == Q([], []);
    assert b2 == B0();
  }

  lemma PredecessorIs(n: nat, b: BlockMap, s: nat, p: nat)
    requires Tiling(n, b) && s in b && EndsAt(b, p, s)
    ensures s > 0 && Predecessor(n, b, s) == p
  {
    var r := Predecessor(n, b, s);
    assert b[r].size >= 1 && b[p].size >= 1;
  }

  /** The request for class 0 cuts the last block of class 2 that is left; the rest is too small
      for the lists. */
  lemma Third(v: HeapState)
    requires At(v, 15, B2(), [], [0])
    ensures FirstClass(v.q, 1) == 2
    ensures Provided(v, 0, false) == Mark(B3(), 0, false) && ProvidedLists(v, 0, false) == Q([0], [])
  {
    hide Inv, Tiling, AbsorbRight, RightLists;
    assert FirstClass(v.q, 1) == 2;
    assert Victim(v, 0) == 0;
    var b := Cut(B2(), 0, 3);
    CutTiling(15, B2(), 0, 3);
    AbsorbRightStep(15, b, 3, 5, false);
    assert [0][1..] == [] && [0] + [] == [0];
    assert v.q[2 := v.q[2][1..]] == Q([], []);
    ListSteps([], [], 0);
    RightListsStep(15, b, Q([0], []), 3, 5, false);
    assert b == Mark(B3(), 0, false);
  }

  /** Freeing the second block: it joins the small one before it, and the whole is carved. */
  lemma FirstFree()
    requires Tiling(15, B3())
    ensures Release(15, B3(), 5, 5).b == B4() && ReleaseLists(15, B3(), Q([], []), 5, 5) == Q([], [3])
  {
    hide Tiling, AbsorbRight, AbsorbLeft, RightLists, LeftLists;
    var f := Mark(B3(), 5, false);
    MarkTiling(15, B3(), 5, false);
    PredecessorIs(15, f, 5, 3);
    AbsorbLeftStep(15, f, 5, 5);
    LeftListsStep(15, f, Q([], []), 5, 5);
    var l := Cut(Fuse(f, 3, 5), 3, 5);
    assert l == B4();
    ListSteps([], [], 3);
    assert [3] + [] == [3];
    CutTiling(15, Fuse(f, 3, 5), 3, 5);
    AbsorbRightStep(15, l, 8, 5, true);
    RightListsStep(15, l, Q([], [3]), 8, 5, true);
  }

  /** Freeing the third block, likewise. */
  lemma SecondFree()
    requires Tiling(15, B4())
    ensures Release(15, B4(), 10, 5).b == B5() && ReleaseLists(15, B4(), Q([], [3]), 10, 5) == Q([], [8, 3])
  {
    hide Tiling, AbsorbRight, AbsorbLeft, RightLists, LeftLists;
    var f := Mark(B4(), 10, false);
    MarkTiling(15, B4(), 10, false);
    PredecessorIs(15, f, 10, 8);
    AbsorbLeftStep(15, f, 10, 5);
    LeftListsStep(15, f, Q([], [3]), 10, 5);
    var l := Cut(Fuse(f, 8, 10), 8, 5);
    assert l == B5();
    ListSteps([], [3], 8);
    assert [8] + [3] == [8, 3];
    CutTiling(15, Fuse(f, 8, 10), 8, 5);
    AbsorbRightStep(15, l, 13, 5, true);
    RightListsStep(15, l, Q([], [8, 3]), 13, 5, true);
  }

  /** Freeing the first block: it joins the large one after it, and the whole is carved; the merge
      stops there and leaves four free blocks side by side. */
  lemma ThirdFree()
    requires Tiling(15, B5())
    ensures Release(15, B5(), 0, 5).b == B6() && ReleaseLists(15, B5(), Q([], [8, 3]), 0, 5) == Q([5], [0, 8])
  {
    hide Tiling, AbsorbRight, AbsorbLeft, RightLists, LeftLists;
    var f := Mark(B5(), 0, false);
    MarkTiling(15, B5(), 0, false);
    AbsorbLeftStep(15, f, 0, 5);
    LeftListsStep(15, f, Q([], [8, 3]), 0, 5);
    AbsorbRightStep(15, f, 0, 5, true);
    RightListsStep(15, f, Q([], [8, 3]), 0, 5, true);
    assert Cut(Fuse(f, 0, 3), 0, 5) == B6();
    DropAt([8, 3], 1);
    assert Drop([8, 3], 3) == [8] && [0] + [8] == [0, 8] && [5] + [] == [5];
    ListSteps([], [8, 3], 3);
    ListSteps([], [8], 0);
    ListSteps([], [0, 8], 5);
  }

  /** A request for class 1 then divides the first block; the rest absorbs all that follows and has
      11 words, while the largest class has 5. */
  lemma LastRequest(v: HeapState)
    requires At(v, 15, B6(), [5], [0, 8])
    ensures FirstClass(v.q, 2) == 2 && Overflows(v, 1, false) && !Overflows(v, 1, true)
  {
    hide Inv;
    assert FirstClass(v.q, 2) == 2 && Victim(v, 1) == 0;
    OverflowExactly(v, 1);
    RunEndStep(15, v.b, 0);
    RunEndStep(15, v.b, 5);
    RunEndStep(15, v.b, 8);
    RunEndStep(15, v.b, 13);
    DivisionBounded(v, 1);
  }

  /** The class's list has an entry: the request takes the first one. */
  lemma Listed(v: HeapState, c: nat)
    requires Inv(v, {}) && c < |v.q| && v.q[c] != []
    ensures !OutOfRangeRequest(v, c) && !Unservable(v, c) && v.q[c][0] in v.b
    ensures forall s, b, q | Served(v, b, s, c, false) && HeadServed(v, q, s, c, false) ::
              s == v.q[c][0] && b == Mark(v.b, s, true) && q == v.q[c := v.q[c][1..]]
  {
    assert NodeOk(v, {}, c, 0);
    assert !v.b[v.q[c][0]].used;
  }

  /** A request for class 2 takes the first entry of its list. */
  method GetLarge(h: SegregatedFits.Heap, ghost b: BlockMap, ghost large: seq<nat>) returns (addr: nat)
    requires h.Valid() && !h.repaired && At(h.View(), 15, b, [], large) && large != []
    modifies h.words, h.heads, h`blocks, h`lists
    ensures addr == large[0] + 1 && large[0] in b
    ensures h.Valid() && At(h.View(), 15, Mark(b, large[0], true), [], large[1..])
  {
    hide Inv, Tiling, KeepsUsed, Served, HeadServed, OutOfRangeRequest, Unservable;
    ghost var v := h.View();
    Listed(v, 2);
    var r := h.Get(24);
    addr := r.addr;
    h.Basics({});
    ghost var s: nat := r.addr - 1;
    assert Served(v, h.blocks, s, 2, false) && HeadServed(v, h.lists, s, 2, false);
    assert v.q[2 := v.q[2][1..]] == Q([], large[1..]);
  }

  lemma ThirdServed(v: HeapState)
    requires At(v, 15, B2(), [], [0])
    ensures !OutOfRangeRequest(v, 0) && !Unservable(v, 0)
    ensures forall s, b, q | Served(v, b, s, 0, false) && HeadServed(v, q, s, 0, false) :: s == 0 && b == B3() && q == Q([], [])
  {
    hide Inv, Tiling, Provided, ProvidedLists, Overflows;
    Third(v);
    OverflowExactly(v, 0);
    RunEndStep(15, v.b, 0);
    assert v.b[0] == F(5) && [0][1..] == [];
    forall s, b, q | Served(v, b, s, 0, false) && HeadServed(v, q, s, 0, false) ensures s == 0 && b == B3() && q == Q([], []) {
      assert Mark(Mark(B3(), 0, false), 0, true) == B3();
      assert Q([0], [])[0 := []] == Q([], []);
    }
  }

  method GetSmall(h: SegregatedFits.Heap) returns (addr: nat)
    requires h.Valid() && !h.repaired && At(h.View(), 15, B2(), [], [0])
    modifies h.words, h.heads, h`blocks, h`lists
    ensures addr == 1 && h.Valid() && At(h.View(), 15, B3(), [], [])
  {
    hide Inv, Tiling, KeepsUsed, Served, HeadServed, OutOfRangeRequest, Unservable;
    ghost var v := h.View();
    Third(v);
    ThirdServed(v);
    var r := h.Get(8);
    addr := r.addr;
    h.Basics({});
    ghost var s: nat := r.addr - 1;
    assert Served(v, h.blocks, s, 0, false) && HeadServed(v, h.lists, s, 0, false);
  }

  /** The request that the free words could serve, but the code cannot. */
  method Last(h: SegregatedFits.Heap) returns (r: SegregatedFits.Allocation)
    requires h.Valid() && !h.repaired && At(h.View(), 15, B6(), [5], [0, 8])
    modifies h.words, h.heads, h`blocks, h`lists
    ensures r.OutOfRange?
  {
    hide Inv, Tiling, KeepsUsed, Overflows;
    LastRequest(h.View());
    r := h.Get(16);
  }

  /** A fresh heap from which three blocks were taken. */
  method Filled() returns (h: SegregatedFits.Heap, first: nat, second: nat, third: nat)
    ensures fresh(h) && fresh(h.words) && fresh(h.heads)
    ensures h.Valid() && !h.repaired && At(h.View(), 15, B3(), [], [])
    ensures first == 1 && second == 6 && third == 11
  {
    hide Inv, Tiling, KeepsUsed;
    Fresh();
    h := new SegregatedFits.Heap(24, 120, false);
    h.Basics({});
    third := GetLarge(h, B0(), [10, 5, 0]);
    assert B1() == Mark(B0(), 10, true) && [10, 5, 0][1..] == [5, 0];
    second := GetLarge(h, B1(), [5, 0]);
    assert B2() == Mark(B1(), 5, true) && [5, 0][1..] == [0];
    first := GetSmall(h);
  }

  /** The next example's blocks: two of the largest class, one of them cut for a request of class 1. */
  function Two(): BlockMap { map[0 := F(5), 5 := F(5)] }
  function Three(): BlockMap { map[0 := F(5), 5 := F(4), 9 := F(1)] }

  lemma FreshTwo()
    ensures CarvedBlocks(WholeRegion(10), 0, 10, 5) == Two()
    ensures CarvedLists(NoLists(3), 0, 10, 5) == Q([], [5, 0])
  {
    var b0 := WholeRegion(10);
    var b1 := Cut(b0, 0, 5);
    CarvedStep(b0, Q([], []), 0, 10, 5);
    CarvedStep(b1, Q([], [0]), 5, 5, 5);
    CarvedEnd(b1, Q([], [5, 0]), 10, 5);
    ListSteps([], [], 0);
    ListSteps([], [0], 5);
    assert [0] + [] == [0] && [5] + [0] == [5, 0];
    assert NoLists(3) == Q([], []);
    assert b1 == Two();
  }

  /** The request for class 1 cuts the second block; one word remains. */
  lemma CutForOne(v: HeapState)
    requires At(v, 10, Two(), [], [5, 0])
    ensures FirstClass(v.q, 2) == 2 && !OutOfRangeRequest(v, 1) && !Unservable(v, 1)
    ensures Provided(v, 1, false) == Three() && ProvidedLists(v, 1, false) == [[], [5], [0]]
  {
    hide Inv, Tiling, AbsorbRight, RightLists;
    assert FirstClass(v.q, 2) == 2;
    assert Victim(v, 1) == 5;
    var b := Cut(Two(), 5, 4);
    CutTiling(10, Two(), 5, 4);
    assert b == Three();
    AbsorbRightStep(10, b, 9, 5, false);
    assert [5, 0][1..] == [0] && [5] + [] == [5];
    assert Pushed(v.q[2 := v.q[2][1..]], 1, 5) == [[], [5], [0]];
    RightListsStep(10, b, [[], [5], [0]], 9, 5, false);
    OverflowExactly(v, 1);
  }

  /** Freeing that block: the left merge carves it off again, and the right merge takes the word. */
  lemma MergeBoth()
    requires Tiling(10, Mark(Three(), 5, true))
    ensures Release(10, Mark(Three(), 5, true), 5, 5).b == Two()
    ensures ReleaseLists(10, Mark(Three(), 5, true), Q([], [0]), 5, 5) == Q([], [5, 0])
  {
    hide Tiling, AbsorbRight, AbsorbLeft, RightLists, LeftLists;
    var b := Mark(Three(), 5, true);
    var f := Mark(b, 5, false);
    MarkTiling(10, b, 5, false);
    assert f == Three();
    PredecessorIs(10, f, 5, 0);
    AbsorbLeftStep(10, f, 5, 5);
    LeftListsStep(10, f, Q([], [0]), 5, 5);
    var l := Cut(Fuse(f, 0, 5), 0, 5);
    assert l == Three();
    assert Drop([0], 0) == [] && [0] + [] == [0] && [5] + [0] == [5, 0];
    ListSteps([], [0], 0);
    ListSteps([], [], 0);
    AbsorbRightStep(10, l, 5, 5, true);
    RightListsStep(10, l, Q([], [0]), 5, 5, true);
    assert Fuse(l, 5, 9) == Two();
    FuseTiling(10, l, 5, 9);
    AbsorbRightStep(10, Two(), 5, 5, true);
    RightListsStep(10, Two(), Q([], [0]), 5, 5, true);
    ListSteps([], [0], 5);
  }

  lemma OneServed(v: HeapState)
    requires At(v, 10, Two(), [], [5, 0])
    ensures !OutOfRangeRequest(v, 1) && !Unservable(v, 1)
    ensures forall s, b, q | Served(v, b, s, 1, false) && HeadServed(v, q, s, 1, false) ::
              s == 5 && b == Mark(Three(), 5, true) && q == Q([], [0])
  {
    hide Inv, Tiling, Provided, ProvidedLists, OutOfRangeRequest, Unservable;
    CutForOne(v);
    assert [5][1..] == [];
    assert [[], [5], [0]][1 := []] == Q([], [0]);
  }

  /** A round trip: a request of a fresh heap that cuts a block, and the free that puts it together
      again, lead back to the fresh heap, blocks and lists. */
  method RoundTrip() returns (h: SegregatedFits.Heap)
    ensures h.Valid() && h.words.Length == 10 && h.heads.Length == 3
    ensures h.blocks == CarvedBlocks(WholeRegion(10), 0, 10, 5) && h.lists == CarvedLists(NoLists(3), 0, 10, 5)
  {
    hide Inv, Tiling, KeepsUsed, Served, HeadServed, OutOfRangeRequest, Unservable, Release, ReleaseLists;
    FreshTwo();
    h := new SegregatedFits.Heap(24, 80, false);
    h.Basics({});
    ghost var v := h.View();
    OneServed(v);
    var r := h.Get(16);
    ghost var s: nat := r.addr - 1;
    assert Served(v, h.blocks, s, 1, false) && HeadServed(v, h.lists, s, 1, false);
    h.Basics({});
    MergeBoth();
    h.Free(r.addr);
  }

  /** Seven calls on a fresh heap of 15 words and three classes, after which the code as written
      indexes the list heads out of range. */
  method Overrun() returns (r: SegregatedFits.Allocation)
    ensures r.OutOfRange?
  {
    hide Inv, Tiling, KeepsUsed, Release, ReleaseLists;
    var h, first, second, third := Filled();
    FirstFree();
    h.Free(second);
    h.Basics({});
    SecondFree();
    h.Free(third);
    h.Basics({});
    ThirdFree();
    h.Free(first);
    h.Basics({});
    r := Last(h);
  }
}
