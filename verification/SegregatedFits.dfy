/** The segregated-fits allocator over a word-addressed region.

    Addresses are word indices relative to the region's first word; sizes in tags are bytes, as in
    the C code.  Where the C code would index the list heads out of range, the model stops with
    `OutOfRange`; with `repaired` set, the two tests that prevent this are made. */
module SegregatedFits {
  import opened Arithmetic
  import opened Blocks
  import opened HeapInvariant
  import opened HeapSteps
  import opened FreeLists

  const ENOMEM := 12

  datatype Allocation = Allocated(addr: nat) | Null | OutOfRange
  datatype DivideResult = Divided | NoBlock | Overflow

  /** `x & (~0U - 1)`: a tag without its used bit, cut to 32 bits. */
  function FreeBit(x: int): int {
    x % MAX_UINT32 - x % 2
  }

  /** Bytes to class, rounded up; a size of 2^31 or more is negative as a C `int`. */
  function ClassCeilIndex(size: nat): int
    requires size < MAX_UINT32
  {
    var signed := if size < MAX_INT32 then size else size - MAX_UINT32;
    var index := signed / 8 - 1;
    if size % 8 != 0 then index + 1 else if index < 0 then 0 else index
  }

  /** The class of a size below 2^31 is the smallest whose payload holds it. */
  lemma ClassFits(size: nat)
    requires size < MAX_INT32
    ensures ClassCeilIndex(size) >= 0 && ClassSize(ClassCeilIndex(size)) >= size
    ensures ClassCeilIndex(size) > 0 ==> ClassSize(ClassCeilIndex(size) - 1) < size
  {}

  /** A size of 2^31 or more is too large for every class as a `uint32`, but a negative `int`: it is
      turned away exactly if it is no multiple of 8; a multiple of 8 is taken for class 0. */
  lemma ClassOfHugeSize(size: nat)
    requires MAX_INT32 <= size < MAX_UINT32
    ensures ClassCeilIndex(size) < 0 <==> size % 8 != 0
    ensures size % 8 == 0 ==> ClassCeilIndex(size) == 0
  {}

  /** Exactly these requests are given a class whose payload is too small for them. */
  lemma ClassTooSmall(size: nat)
    requires size < MAX_UINT32
    ensures ClassCeilIndex(size) >= 0 && ClassSize(ClassCeilIndex(size)) < size <==> size >= MAX_INT32 && size % 8 == 0
  {
    if size < MAX_INT32 {
      ClassFits(size);
    } else {
      ClassOfHugeSize(size);
    }
  }

  /** The number of classes for payloads of up to `maxSize` bytes. */
  function ClassCount(maxSize: nat): nat {
    if maxSize % 8 != 0 then maxSize / 8 + 1 else maxSize / 8
  }

  /** The payload bytes of class `index`. */
  function ClassSize(index: nat): nat {
    8 * (index + 1)
  }

  lemma FreeBitEven(k: nat)
    requires 8 * k < MAX_UINT32
    ensures FreeBit(8 * k) == 8 * k && (8 * k) % 2 == 0
    ensures FreeBit(8 * k + 1) == 8 * k && (8 * k + 1) % 2 == 1
  {
    Remainder(8 * k, 0, 8 * k, MAX_UINT32);
    Remainder(8 * k + 1, 0, 8 * k + 1, MAX_UINT32);
    Remainder(8 * k, 4 * k, 0, 2);
    Remainder(8 * k + 1, 4 * k, 1, 2);
  }

  lemma TagBits(x: Block)
    requires 8 * x.size < MAX_UINT32
    ensures FreeBit(Tag(x)) == 8 * x.size
    ensures Tag(x) % 2 == (if x.used then 1 else 0)
  {
    FreeBitEven(x.size);
  }

  function Clamp(index: int, len: nat): int {
    if index >= len then len - 1 else index
  }

  class Heap {
    const words: array<int>
    const heads: array<int>
    const addrSize: nat
    const repaired: bool
    ghost var blocks: BlockMap
    ghost var lists: seq<seq<nat>>

    ghost function View(): (v: HeapState)
      reads this, words, heads
      ensures |v.w| == words.Length && |v.h| == heads.Length
    {
      HeapState(words[..], heads[..], blocks, lists)
    }

    ghost predicate Shape() {
      && words != heads && words.Length == addrSize / 8 && heads.Length >= 1
      && addrSize < MAX_UINT32 && 8 * (heads.Length + 3) < MAX_INT32
    }

    /** The invariant for all blocks but the loose ones in `out`. */
    ghost predicate Loose(out: set<nat>)
      reads this, words, heads
    {
      Shape() && Inv(View(), out)
    }

    ghost predicate Valid()
      reads this, words, heads
    {
      Loose({})
    }

    /** The size of the largest class's blocks, in words. */
    ghost function Cap(): nat {
      heads.Length + 2
    }

    /** The carved region: free blocks of the largest class, and a smaller one at the end at most. */
    ghost predicate Carved()
      reads this
    {
      forall s {:trigger blocks[s]} | s in blocks ::
        !blocks[s].used && (blocks[s].size == Cap() || s + blocks[s].size == words.Length)
    }

    /** create_segregated_fits, and the loop of create_circular_log that carves the region. */
    constructor (maxSize: nat, size: nat, repaired: bool)
      requires maxSize > 0 && 8 * (ClassCount(maxSize) + 3) < MAX_INT32 && size < MAX_UINT32
      ensures Valid() && fresh(words) && fresh(heads)
      ensures heads.Length == ClassCount(maxSize) && addrSize == size && this.repaired == repaired
      ensures Carved() && Bounded(Cap(), blocks, {})
      ensures blocks == CarvedBlocks(WholeRegion(size / 8), 0, size / 8, Cap())
      ensures lists == CarvedLists(NoLists(heads.Length), 0, size / 8, Cap())
    {
      var classes := ClassCount(maxSize);
      words := new int[size / 8];
      heads := new int[classes];
      addrSize := size;
      this.repaired := repaired;
      blocks := WholeRegion(size / 8);
      lists := NoLists(classes);
      new;
      for i := 0 to classes
        invariant forall j | 0 <= j < i :: heads[j] == Sentinel(j)
        invariant lists == NoLists(classes) && blocks == WholeRegion(size / 8)
      {
        heads[i] := Sentinel(i);
      }
      EmptyInv(View());
      Carve(size);
    }

    /** The carving loop of create_circular_log. */
    method Carve(size: nat)
      requires Shape() && size == addrSize && Rest(0, size)
      requires forall s | s in blocks :: s == 0
      modifies words, heads, this`blocks, this`lists
      ensures Valid() && Carved() && Bounded(Cap(), blocks, {})
      ensures size >= 8 ==> 0 in old(blocks) && old(blocks)[0].size == size / 8
      ensures blocks == CarvedBlocks(old(blocks), 0, size / 8, Cap())
      ensures lists == CarvedLists(old(lists), 0, size / 8, Cap())
    {
      hide Inv, KeepsUsed, Tiling, CarvedBlocks, CarvedLists, Pushed, Cut;
      var addr, left, res := 0, size, 0;
      RestFacts(addr, left);
      ghost var b, q := CarvedBlocks(blocks, 0, size / 8, Cap()), CarvedLists(lists, 0, size / 8, Cap());
      CarvedShape(blocks, 0, size / 8, Cap());
      while res <= 0
        invariant left == size - 8 * addr >= 0 && Rest(addr, left)
        invariant left >= 8 ==> addr in blocks && blocks[addr].size == left / 8
        invariant b == CarvedBlocks(blocks, addr, left / 8, Cap())
        invariant q == CarvedLists(lists, addr, left / 8, Cap())
        invariant res > 0 ==> left < 8
        decreases left, if res > 0 then 0 else 1
      {
        CarvedStep(blocks, lists, addr, left / 8, Cap());
        addr, left, res := Reclassing(addr, left);
        RestFacts(addr, left);
      }
      CarvedEnd(blocks, lists, addr, Cap());
    }

    lemma RestFacts(addr: nat, left: nat)
      requires Shape() && Rest(addr, left) && left == addrSize - 8 * addr
      ensures left >= 8 ==> addr in blocks && blocks[addr].size == left / 8
      ensures left < 8 && addr == 0 ==> words.Length == 0 && addr !in blocks
    {
    }

    /** segregated_fits_is_empty */
    method IsEmpty(c: nat, ghost out: set<nat>) returns (r: bool)
      requires Loose(out) && c < heads.Length
      ensures r <==> lists[c] == []
    {
      r := heads[c] == Sentinel(c);
      assert HeadOk(View(), c);
      if lists[c] != [] { assert NodeOk(View(), out, c, 0); }
    }

    lemma Basics(out: set<nat>)
      requires Loose(out)
      ensures |lists| == heads.Length && out <= blocks.Keys && Tiling(words.Length, blocks)
      ensures forall s {:trigger blocks[s]} | s in blocks :: blocks[s].size >= 1 && s + blocks[s].size <= words.Length
      ensures KeepsUsed(View(), View(), -1)
    {
      ReshapeKeeps(View(), View(), -1);
    }

    /** The first word, the tags and the tiling of a block of the heap. */
    lemma BlockFacts(s: nat, out: set<nat>)
      requires Loose(out) && s in blocks
      ensures Tiling(words.Length, blocks) && blocks[s].size >= 1 && s + blocks[s].size <= words.Length
      ensures 8 * blocks[s].size < MAX_UINT32
      ensures FreeBit(Tag(blocks[s])) == 8 * blocks[s].size
      ensures s !in out ==> words[s] == Tag(blocks[s]) == words[s + blocks[s].size - 1] && blocks[s].size <= Cap()
    {
      TagBits(blocks[s]);
      if s !in out { assert BlockOk(View(), s); }
      assert Tiling(words.Length, blocks);
    }

    /** segregated_fits_insert_block_head: the loose block at `block` gets the tags of class `c`
        and becomes the first of its list. */
    method InsertBlockHead(c: nat, block: nat, ghost out: set<nat>)
      requires Loose(out) && c < heads.Length
      requires block >= 1 && block - 1 in out && blocks[block - 1].size == c + 3
      modifies words, heads, this`blocks, this`lists
      ensures block + c + 2 <= words.Length
      ensures words[block - 1] == words[block + c + 1] == 8 * (c + 3)
      ensures blocks == Mark(old(blocks), block - 1, false) && lists == old(lists)[c := [block - 1] + old(lists[c])]
      ensures Loose(out - {block - 1}) && KeepsUsed(old(View()), View(), block - 1)
    {
      hide Inv, KeepsUsed, Tiling;
      Basics(out);
      InsertStep(View(), out, block - 1, c);
      var dataSize := ClassSize(c);
      var memSize := dataSize + 16;
      FreeBitEven(c + 3);
      words[block - 1] := FreeBit(memSize);
      words[block + dataSize / 8] := FreeBit(memSize);
      words[block] := heads[c];
      heads[c] := block;
      blocks := Mark(blocks, block - 1, false);
      lists := lists[c := [block - 1] + lists[c]];
      assert heads[..] == Inserted(old(View()), block - 1, c).h;
      assert words[..] == Inserted(old(View()), block - 1, c).w;
      assert View() == Inserted(old(View()), block - 1, c);
    }

    lemma HeadFacts(c: nat)
      requires Valid() && c < heads.Length == |lists| && lists[c] != []
      ensures HeadOk(View(), c) && NodeOk(View(), {}, c, 0)
    {}

    /** The entry after the head is not the head. */
    lemma HeadMoved(v: HeapState, c: nat)
      requires Inv(v, {}) && c < |v.h| && v.q[c] != []
      ensures Link(v.q[c], c, 1) != v.q[c][0] + 1
    {
      assert HeadOk(v, c);
    }

    /** __get_segregated_fits_block: the first block of a non-empty list is unlinked and used. */
    method PopBlock(c: nat) returns (block: nat)
      requires Valid() && c < heads.Length && lists[c] != []
      modifies words, heads, this`blocks, this`lists
      ensures heads[c] == Link(old(lists[c]), c, 1)
      ensures block == old(lists[c][0]) + 1 && lists == old(lists)[c := old(lists[c][1..])]
      ensures Valid() && KeepsUsed(old(View()), View(), block - 1)
      ensures block - 1 in old(blocks) && old(blocks)[block - 1] == Block(c + 3, false)
      ensures blocks == Mark(old(blocks), block - 1, true)
    {
      hide Inv, KeepsUsed, Tiling;
      Basics({});
      PopStep(View(), c);
      HeadFacts(c);
      ghost var s := lists[c][0];
      BlockFacts(s, {});
      block := heads[c];
      heads[c] := words[block];
      var memSize := FreeBit(words[block - 1]);
      words[block - 1] := memSize + 1;
      words[block - 2 + memSize / 8] := memSize + 1;
      lists := lists[c := lists[c][..0] + lists[c][1..]];
      blocks := Mark(blocks, s, true);
      assert heads[..] == Popped(old(View()), c).h;
      assert words[..] == Popped(old(View()), c).w;
      assert View() == Popped(old(View()), c);
      assert old(lists[c])[..0] + old(lists[c])[1..] == old(lists[c][1..]);
    }

    lemma NodeFacts(out: set<nat>, c: nat, k: nat)
      requires Loose(out) && c < heads.Length
      ensures HeadOk(View(), c) && (k < |lists[c]| ==> NodeOk(View(), out, c, k))
    {}

    /** get_segregated_fits_block_with_addr: walk list `c` to the block at `addr`, unlink it. */
    method UnlinkBlock(c: nat, addr: nat, ghost out: set<nat>)
      requires Loose(out) && c < heads.Length && addr >= 1 && addr - 1 in lists[c]
      modifies words, heads, this`lists
      ensures Loose(out + {addr - 1}) && KeepsUsed(old(View()), View(), -1)
      ensures lists == Without(old(lists), c, addr - 1)
      ensures forall s {:trigger KeepsBlock(old(View()), View(), s)} | s in out || s == addr - 1 :: KeepsBlock(old(View()), View(), s)
    {
      hide Inv, Tiling, KeepsUsed, KeepsBlock, Distinct, Drop;
      Basics(out);
      NodeFacts(out, c, 0);
      var pre, next := Sentinel(c), heads[c];
      ghost var k := 0;
      while next != Sentinel(c)
        invariant Loose(out) && View() == old(View()) && c < |lists|
        invariant k <= |lists[c]| && next == Link(lists[c], c, k)
        invariant pre == if k == 0 then Sentinel(c) else lists[c][k - 1] + 1
        invariant addr - 1 in lists[c][k..]
        decreases |lists[c]| - k
      {
        NodeFacts(out, c, k);
        if next == addr {
          if k > 0 { NodeFacts(out, c, k - 1); }
          Unlink(View(), out, c, k);
          UnlinkKeeps(View(), out, c, k);
          if pre == Sentinel(c) {
            heads[c] := words[next];
          } else {
            words[pre] := words[next];
          }
          DropAt(lists[c], k);
          lists := lists[c := lists[c][..k] + lists[c][k + 1..]];
          assert View() == Unlinked(old(View()), c, k);
          return;
        }
        pre, next := next, words[next];
        k := k + 1;
      }
      assert false;
    }

    /** The free block at `cur` is the only loose one, and tagged. */
    ghost predicate FreeLoose(cur: nat)
      reads this, words, heads
    {
      Loose({cur}) && FreeAt(words.Length, blocks, cur) && Tagged(words[..], blocks, cur)
    }

    lemma LooseFacts(cur: nat)
      requires FreeLoose(cur)
      ensures cur + blocks[cur].size <= words.Length && words[cur] == words[cur + blocks[cur].size - 1] == 8 * blocks[cur].size
    {}

    lemma FiledFacts(s: nat, out: set<nat>)
      requires Loose(out) && s in blocks && s !in out && !blocks[s].used
      ensures blocks[s].size < 3 || (blocks[s].size - 3 < heads.Length == |lists| && s in lists[blocks[s].size - 3])
    {
      assert BlockOk(View(), s);
    }

    /** A free neighbour of `size` bytes leaves its list, if it is large enough to be in one. */
    method DetachNeighbour(nb: nat, size: nat, ghost cur: nat)
      requires Loose({cur}) && nb in blocks && !blocks[nb].used && nb != cur && size == 8 * blocks[nb].size
      modifies words, heads, this`lists
      ensures Loose({cur, nb}) && KeepsUsed(old(View()), View(), -1)
      ensures lists == Without(old(lists), blocks[nb].size - 3, nb)
      ensures KeepsBlock(old(View()), View(), cur) && KeepsBlock(old(View()), View(), nb)
    {
      hide Inv, KeepsUsed, Tiling;
      Basics({cur});
      BlockFacts(nb, {cur});
      BlockFacts(cur, {cur});
      FiledFacts(nb, {cur});
      var dataSize := size - 16;
      var index := if dataSize > 0 then ClassCeilIndex(dataSize) else -1;
      index := Clamp(index, heads.Length);
      assert index == blocks[nb].size - 3 || (index == -1 && blocks[nb].size < 3);
      if index >= 0 {
        UnlinkBlock(index, nb + 1, {cur});
      } else {
        LoosenSmall(View(), {cur}, nb);
      }
      assert {cur} + {nb} == {cur, nb};
      assert KeepsBlock(old(View()), View(), cur) && KeepsBlock(old(View()), View(), nb);
    }

    /** merge_block_forward: the loose block that ends at `tail` joins its left neighbour if that
        is free. */
    method MergeBlockForward(tail: nat, ghost cur: nat) returns (merged: bool, ghost head: nat)
      requires FreeLoose(cur) && tail == cur + blocks[cur].size - 1
      modifies words, heads, this`blocks, this`lists
      ensures merged <==> FreeBefore(words.Length, old(blocks), cur)
      ensures merged ==> head == Predecessor(words.Length, old(blocks), cur) && blocks == Fuse(old(blocks), head, cur)
      ensures merged ==> lists == Without(old(lists), old(blocks)[head].size - 3, head)
      ensures !merged ==> head == cur && View() == old(View())
      ensures FreeLoose(head) && KeepsUsed(old(View()), View(), -1) && tail == head + blocks[head].size - 1
    {
      hide Inv, KeepsUsed, Tiling, Without, Fuse;
      head := cur;
      Basics({cur});
      BlockFacts(cur, {cur});
      var maxBlockSize := ClassSize(heads.Length);
      var blockSize := FreeBit(words[tail]);
      var previousTail := tail - blockSize / 8;
      assert previousTail == cur - 1;
      if previousTail < 0 {
        return false, cur;
      }
      ghost var p := Predecessor(words.Length, blocks, cur);
      BlockFacts(p, {cur});
      if words[previousTail] % 2 == 1 {
        return false, cur;
      }
      if words[previousTail] == maxBlockSize + 16 {
        assert false;
      }
      var previousHead := previousTail - words[previousTail] / 8 + 1;
      assert previousHead == p;
      DetachNeighbour(previousHead, words[previousTail], cur);
      var newBlockSize := blockSize + words[previousTail];
      ghost var v := View();
      assert {cur, p} == {p, cur};
      assert KeepsBlock(old(View()), v, p) && KeepsBlock(old(View()), v, cur);
      JoinTags(previousHead, tail, newBlockSize, p, cur);
      head := p;
      merged := true;
      KeepsUsedTrans(old(View()), v, View(), -1, -1, -1);
    }

    /** The two loose neighbours become one block, whose new size goes to header and footer. */
    method JoinTags(header: nat, footer: nat, size: nat, ghost a: nat, ghost c: nat)
      requires Loose({a, c}) && a + blocks[a].size == c && !blocks[a].used && !blocks[c].used
      requires header == a && footer == c + blocks[c].size - 1 && size == 8 * (blocks[a].size + blocks[c].size)
      modifies words, this`blocks
      ensures blocks == Fuse(old(blocks), a, c) && FreeLoose(a) && KeepsUsed(old(View()), View(), -1)
      ensures blocks[a].size == old(blocks[a].size + blocks[c].size) && footer == a + blocks[a].size - 1
    {
      hide Inv, KeepsUsed, Tiling;
      Basics({a, c});
      JoinStep(View(), {a, c}, a, c);
      FuseTiling(words.Length, blocks, a, c);
      ghost var v := View();
      words[header] := size;
      words[footer] := size;
      blocks := Fuse(blocks, a, c);
      assert words[..] == Joined(v, a, c).w;
      assert heads[..] == v.h;
      assert View() == Joined(v, a, c);
      assert {a, c} - {c} == {a};
    }

    /** What follows the only loose block: the region's end, or a block with true tags. */
    lemma NextFacts(head: nat)
      requires Loose({head})
      ensures var nx := head + blocks[head].size;
        && (addrSize < 8 * nx + 8 <==> nx == words.Length)
        && (nx == words.Length <==> nx !in blocks)
        && (nx in blocks ==>
              && nx < words.Length && nx != head && 1 <= blocks[nx].size <= Cap() && nx + blocks[nx].size <= words.Length
              && words[nx] == Tag(blocks[nx]) == words[nx + blocks[nx].size - 1]
              && words[nx] % 2 == (if blocks[nx].used then 1 else 0))
    {
      BlockFacts(head, {head});
      Next(words.Length, blocks, head);
      var nx := head + blocks[head].size;
      if nx in blocks { BlockFacts(nx, {head}); TagBits(blocks[nx]); }
    }

    /** merge_block_backward: the loose block at `head` joins its right neighbour if that is free. */
    method MergeBlockBackward(head: nat) returns (merged: bool)
      requires FreeLoose(head)
      modifies words, heads, this`blocks, this`lists
      ensures merged <==> FreeAfter(old(blocks), head)
      ensures merged ==>
                var nx := head + old(blocks)[head].size;
                blocks == Fuse(old(blocks), head, nx) && lists == Without(old(lists), old(blocks)[nx].size - 3, nx)
      ensures !merged ==> View() == old(View())
      ensures FreeLoose(head) && KeepsUsed(old(View()), View(), -1)
      ensures merged ==> blocks[head].size > old(blocks)[head].size
    {
      hide Inv, KeepsUsed, Tiling, Without, Fuse;
      Basics({head});
      BlockFacts(head, {head});
      NextFacts(head);
      ghost var u := View();
      var maxBlockSize := ClassSize(heads.Length);
      var blockSize := FreeBit(words[head]);
      var nextHead := head + blockSize / 8;
      if addrSize < 8 * nextHead + 8 || words[nextHead] % 2 == 1 || words[nextHead] == maxBlockSize + 16 {
        return false;
      }
      var nextTail := nextHead - 1 + words[nextHead] / 8;
      assert addrSize >= 8 * nextTail + 8;
      DetachNeighbour(nextHead, words[nextHead], head);
      ghost var v := View();
      assert KeepsBlock(u, v, nextHead) && KeepsBlock(u, v, head);
      JoinTags(head, nextTail, blockSize + words[nextHead], head, nextHead);
      KeepsUsedTrans(u, v, View(), -1, -1, -1);
      merged := true;
    }

    /** The part of `u` free words that one step of segregated_fits_reclassing turns into a block. */
    function Piece(u: nat): nat {
      if u > heads.Length + 2 then heads.Length + 2 else u
    }

    /** What is left of a region of `size` bytes from word `addr` on: a loose block, or nothing. */
    ghost predicate Rest(addr: nat, size: nat)
      reads this, words, heads
    {
      if size >= 8 then Loose({addr}) && blocks[addr] == Block(size / 8, false) else Valid()
    }

    /** segregated_fits_reclassing: turn the front of `size` free bytes at `addr` into a block of
        the largest class that fits, or into an unlisted block of one or two words. */
    method Reclassing(addr: nat, size: nat) returns (addr': nat, size': nat, res: int)
      requires Shape() && size < MAX_UINT32 && Rest(addr, size)
      modifies words, heads, this`blocks, this`lists
      ensures addr' == addr + Piece(size / 8) && size' == size - 8 * Piece(size / 8)
      ensures res == if size / 8 < 3 || size' == 0 then ENOMEM else 0
      ensures blocks == if size / 8 > heads.Length + 2 then Cut(old(blocks), addr, heads.Length + 2) else old(blocks)
      ensures lists == Pushed(old(lists), Piece(size / 8) - 3, addr)
      ensures Rest(addr', size') && KeepsUsed(old(View()), View(), -1)
    {
      hide Inv, KeepsUsed, Tiling;
      Basics(if size >= 8 then {addr} else {});
      var classIndex: int := size / 8 - 2 - 1;
      classIndex := Clamp(classIndex, heads.Length);
      assert classIndex + 3 == Piece(size / 8);
      var memSize := 8 * (classIndex + 2 + 1);
      if classIndex < 0 {
        assert classIndex >= -3;
        if classIndex == -2 {
          ReclassSmall(addr, 1);
        } else if classIndex == -1 {
          ReclassSmall(addr, 2);
        } else {
          ReshapeKeeps(View(), View(), -1);
        }
        return addr + memSize / 8, size - memSize, ENOMEM;
      }
      InsertFront(classIndex, addr);
      assert words[addr] == words[addr + memSize / 8 - 1] == memSize;
      addr' := addr + memSize / 8;
      size' := size - memSize;
      res := if size' == 0 then ENOMEM else 0;
    }

    /** The front of the loose free block at `addr` becomes a listed block of class `c`; what is
        left, if anything, is the loose block now. */
    method InsertFront(c: nat, addr: nat)
      requires Loose({addr}) && !blocks[addr].used && c < heads.Length && blocks[addr].size >= c + 3
      modifies words, heads, this`blocks, this`lists
      ensures addr + c + 3 <= words.Length && words[addr] == words[addr + c + 2] == 8 * (c + 3)
      ensures blocks == if old(blocks)[addr].size > c + 3 then Cut(old(blocks), addr, c + 3) else old(blocks)
      ensures Loose(if old(blocks)[addr].size > c + 3 then {addr + c + 3} else {})
      ensures lists == Pushed(old(lists), c, addr)
      ensures KeepsUsed(old(View()), View(), -1)
    {
      hide Inv, KeepsUsed, Tiling;
      Basics({addr});
      ghost var v := View();
      ghost var rest := CutLoose(addr, c + 3);
      ghost var u := View();
      MarkSame(blocks, addr);
      InsertBlockHead(c, addr + 1, {addr} + rest);
      KeepsUsedTrans(v, u, View(), -1, addr, -1);
      assert {addr} + rest - {addr} == rest;
    }

    /** The tiling's side of cutting `k` words off the loose free block at `addr`. */
    ghost method CutLoose(addr: nat, k: nat) returns (rest: set<nat>)
      requires Loose({addr}) && !blocks[addr].used && 1 <= k <= blocks[addr].size
      modifies this`blocks
      ensures blocks == if old(blocks)[addr].size > k then Cut(old(blocks), addr, k) else old(blocks)
      ensures rest == if old(blocks)[addr].size > k then {addr + k} else {}
      ensures Loose({addr} + rest) && addr !in rest && addr in blocks && blocks[addr] == Block(k, false)
      ensures KeepsUsed(old(View()), View(), -1)
    {
      var v := View();
      rest := {};
      assert {addr} + rest == {addr};
      if blocks[addr].size > k {
        CutInv(v, {addr}, addr, k);
        rest := {addr + k};
        blocks := Cut(blocks, addr, k);
        assert View() == v.(b := blocks);
      }
      ReshapeKeeps(v, View(), -1);
    }

    /** mask_free_8_block and mask_free_16_block: tag a free block of one or two words. */
    method ReclassSmall(addr: nat, k: nat)
      requires Loose({addr}) && blocks[addr] == Block(k, false) && 1 <= k <= 2
      modifies words
      ensures Valid() && KeepsUsed(old(View()), View(), -1)
    {
      FlagStep(View(), {addr}, addr, false);
      words[addr] := 8 * k;
      if k == 2 {
        words[addr + 1] := 16;
      }
      assert blocks == Mark(blocks, addr, false);
      assert words[..] == Flagged(old(View()), addr, false).w;
      assert View() == Flagged(old(View()), addr, false);
      assert BlockOk(View(), addr);
      Settle(View(), {addr}, addr);
      assert {addr} - {addr} == {};
      ReshapeKeeps(old(View()), old(View()), -1);
      KeepsUsedTrans(old(View()), old(View()), View(), -1, addr, -1);
    }

    /** __segregated_fits_reclassing: cut a block of the largest class off the front of the
        oversized loose block at `head`, and tag the rest. */
    method CarveFront(head: nat, size: nat) returns (rest: nat)
      requires FreeLoose(head) && size == 8 * blocks[head].size > 8 * Cap()
      modifies words, heads, this`blocks, this`lists
      ensures rest == head + Cap() && blocks == Cut(old(blocks), head, Cap()) && lists == Pushed(old(lists), Cap() - 3, head)
      ensures rest + blocks[rest].size == head + old(blocks)[head].size && FreeLoose(rest) && KeepsUsed(old(View()), View(), -1)
    {
      hide Inv, KeepsUsed, Tiling;
      ghost var v := View();
      BlockFacts(head, {head});
      var res, restSize;
      rest, restSize, res := Reclassing(head, size);
      assert res >= 0;
      ghost var u := View();
      TagLoose(rest, restSize);
      KeepsUsedTrans(v, u, View(), -1, -1, -1);
    }

    /** Write a loose free block's size to its header and footer. */
    method TagLoose(s: nat, size: nat)
      requires Loose({s}) && !blocks[s].used && size == 8 * blocks[s].size
      modifies words
      ensures FreeLoose(s) && KeepsUsed(old(View()), View(), -1)
    {
      ghost var v := View();
      hide Inv, KeepsUsed;
      Basics({s});
      BlockFacts(s, {s});
      FlagStep(v, {s}, s, false);
      words[s + size / 8 - 1] := size;
      words[s] := size;
      MarkSame(blocks, s);
      assert words[..] == Flagged(v, s, false).w;
      assert View() == Flagged(v, s, false);
      ReshapeKeeps(v, v, -1);
      KeepsUsedTrans(v, v, View(), -1, s, -1);
    }

    /** One turn of the loop around merge_block_backward, with the size test of
        free_segregated_fits_block if `capped`, without it (as in segregated_fits_divide) if not. */
    method MergeRightOnce(head: nat, capped: bool) returns (last: nat, more: bool)
      requires FreeLoose(head)
      modifies words, heads, this`blocks, this`lists
      ensures FreeLoose(last) && KeepsUsed(old(View()), View(), -1)
      ensures var m := AbsorbRight(words.Length, old(blocks), head, Cap(), capped);
        if more then m == AbsorbRight(words.Length, blocks, last, Cap(), capped) else m.b == blocks && m.cur == last
      ensures RightLists(words.Length, old(blocks), old(lists), head, Cap(), capped) ==
              if more then RightLists(words.Length, blocks, lists, last, Cap(), capped) else lists
      ensures more ==> last == head && blocks[last].size > old(blocks)[head].size
    {
      hide AbsorbRight, Inv, KeepsUsed, Tiling, RightLists, Without, Pushed, FreeAfter, Fuse, Cut;
      BlockFacts(head, {head});
      ghost var v := View();
      AbsorbRightStep(words.Length, blocks, head, Cap(), capped);
      RightListsStep(words.Length, blocks, lists, head, Cap(), capped);
      last := head;
      more := MergeBlockBackward(head);
      LooseFacts(head);
      if more && capped && 8 * (heads.Length + 3) <= words[head] {
        ghost var w := View();
        last := CarveFront(head, words[head]);
        KeepsUsedTrans(v, w, View(), -1, -1, -1);
        more := false;
      }
    }

    method MergeRight(head: nat, capped: bool) returns (last: nat, ghost m: Merge)
      requires FreeLoose(head)
      modifies words, heads, this`blocks, this`lists
      ensures m == AbsorbRight(words.Length, old(blocks), head, Cap(), capped)
      ensures blocks == m.b && last == m.cur && lists == RightLists(words.Length, old(blocks), old(lists), head, Cap(), capped)
      ensures FreeLoose(last) && KeepsUsed(old(View()), View(), -1)
    {
      hide AbsorbRight, Inv, KeepsUsed, Tiling, RightLists;
      BlockFacts(head, {head});
      ghost var v, q := View(), RightLists(words.Length, blocks, lists, head, Cap(), capped);
      m := AbsorbRight(words.Length, blocks, head, Cap(), capped);
      last := head;
      var merging := true;
      ReshapeKeeps(v, v, -1);
      while merging
        invariant FreeLoose(last) && KeepsUsed(v, View(), -1)
        invariant if merging then m == AbsorbRight(words.Length, blocks, last, Cap(), capped) else m.b == blocks && m.cur == last
        invariant q == if merging then RightLists(words.Length, blocks, lists, last, Cap(), capped) else lists
        decreases if merging then words.Length - last - blocks[last].size + 1 else 0
      {
        ghost var u := View();
        BlockFacts(last, {last});
        last, merging := MergeRightOnce(last, capped);
        BlockFacts(last, {last});
        KeepsUsedTrans(v, u, View(), -1, -1, -1);
      }
    }

    /** One turn of the loop around merge_block_forward in free_segregated_fits_block. */
    method MergeLeftOnce(tail: nat, ghost cur: nat) returns (more: bool, ghost last: nat)
      requires FreeLoose(cur) && tail == cur + blocks[cur].size - 1
      modifies words, heads, this`blocks, this`lists
      ensures FreeLoose(last) && KeepsUsed(old(View()), View(), -1) && tail == last + blocks[last].size - 1
      ensures var m := AbsorbLeft(words.Length, old(blocks), cur, Cap());
        if more then m == AbsorbLeft(words.Length, blocks, last, Cap()) else m.b == blocks && m.cur == last
      ensures LeftLists(words.Length, old(blocks), old(lists), cur, Cap()) ==
              if more then LeftLists(words.Length, blocks, lists, last, Cap()) else lists
      ensures more ==> last < cur
    {
      hide AbsorbLeft, Inv, KeepsUsed, Tiling, LeftLists, Without, Pushed, FreeBefore, Fuse, Cut;
      BlockFacts(cur, {cur});
      ghost var v := View();
      AbsorbLeftStep(words.Length, blocks, cur, Cap());
      LeftListsStep(words.Length, blocks, lists, cur, Cap());
      more, last := MergeBlockForward(tail, cur);
      LooseFacts(last);
      if more && 8 * (heads.Length + 3) <= words[tail] {
        ghost var w := View();
        var size := words[tail];
        var rest := CarveFront(tail - size / 8 + 1, size);
        last := rest;
        KeepsUsedTrans(v, w, View(), -1, -1, -1);
        more := false;
      }
    }

    method MergeLeft(tail: nat, ghost cur: nat) returns (ghost m: Merge)
      requires FreeLoose(cur) && tail == cur + blocks[cur].size - 1
      modifies words, heads, this`blocks, this`lists
      ensures m == AbsorbLeft(words.Length, old(blocks), cur, Cap())
      ensures blocks == m.b && FreeLoose(m.cur) && tail == m.cur + blocks[m.cur].size - 1
      ensures lists == LeftLists(words.Length, old(blocks), old(lists), cur, Cap())
      ensures KeepsUsed(old(View()), View(), -1)
    {
      hide AbsorbLeft, Inv, KeepsUsed, Tiling, LeftLists;
      BlockFacts(cur, {cur});
      ghost var v, q := View(), LeftLists(words.Length, blocks, lists, cur, Cap());
      m := AbsorbLeft(words.Length, blocks, cur, Cap());
      ghost var last: nat := cur;
      var merging := true;
      ReshapeKeeps(v, v, -1);
      while merging
        invariant FreeLoose(last) && KeepsUsed(v, View(), -1) && tail == last + blocks[last].size - 1
        invariant if merging then m == AbsorbLeft(words.Length, blocks, last, Cap()) else m.b == blocks && m.cur == last
        invariant q == if merging then LeftLists(words.Length, blocks, lists, last, Cap()) else lists
        decreases if merging then last + 1 else 0
      {
        ghost var u := View();
        merging, last := MergeLeftOnce(tail, last);
        KeepsUsedTrans(v, u, View(), -1, -1, -1);
      }
    }

    /** The loose block at `head` goes to the list of its class, or stays unlisted if it is too
        small for one. */
    method Park(head: nat)
      requires FreeLoose(head) && blocks[head].size <= Cap()
      modifies words, heads, this`blocks, this`lists
      ensures Valid() && blocks == old(blocks) && KeepsUsed(old(View()), View(), -1)
      ensures lists == Pushed(old(lists), blocks[head].size - 3, head)
    {
      hide Inv, KeepsUsed, Tiling;
      Basics({head});
      ghost var v := View();
      var classIndex: int := words[head] / 8 - 3;
      assert {head} - {head} == {};
      if classIndex < 0 {
        assert BlockOk(v, head);
        Settle(v, {head}, head);
      } else {
        assert classIndex < heads.Length;
        InsertBlockHead(classIndex, head + 1, {head});
        MarkSame(old(blocks), head);
        KeepsUsedTrans(v, v, View(), -1, head, -1);
      }
    }

    /** The head of list `i` is popped to be cut: used by its tags, but free and loose as the tiling
        has it, because its words are up for division. */
    method PopLoose(i: nat) returns (block: nat)
      requires Valid() && i < heads.Length && lists[i] != []
      modifies words, heads, this`blocks, this`lists
      ensures block == old(lists[i][0]) + 1
      ensures blocks == old(blocks) && block - 1 in blocks && blocks[block - 1] == Block(i + 3, false)
      ensures lists == old(lists)[i := old(lists[i])[1..]]
      ensures Loose({block - 1}) && words[block - 1] == 8 * (i + 3) + 1 && KeepsUsed(old(View()), View(), -1)
    {
      hide Inv, KeepsUsed, Tiling;
      ghost var v := View();
      Basics({});
      block := PopBlock(i);
      ghost var v1, s := View(), block - 1;
      BlockFacts(s, {});
      Loosen(v1, {}, s);
      assert {} + {s} == {s};
      MarkInv(v1, {s}, s, false);
      blocks := Mark(blocks, s, false);
      MarkSame(v.b, s);
      assert blocks == v.b;
      assert View() == v1.(b := blocks);
      MarkKeeps(v1, s, false);
      KeepsUsedTrans(v, v1, View(), s, s, -1);
    }

    /** The first part of segregated_fits_divide: the head of list `i` is cut in two; the front
        becomes a listed block of class `c`, the back is tagged and loose. */
    method CutHead(c: nat, i: nat) returns (back: nat)
      requires Valid() && c < i < heads.Length && lists[i] != []
      modifies words, heads, this`blocks, this`lists
      ensures var s := old(lists[i][0]);
        && s in old(blocks) && old(blocks)[s] == Block(i + 3, false)
        && back == s + c + 3 && blocks == Cut(old(blocks), s, c + 3)
        && lists == Pushed(old(lists)[i := old(lists[i])[1..]], c, s)
      ensures FreeLoose(back) && KeepsUsed(old(View()), View(), -1)
    {
      hide Inv, KeepsUsed, Tiling, Pushed;
      ghost var v := View();
      Basics({});
      var buddy := i - c - 3;
      assert buddy >= -2;
      var block := PopLoose(i);
      ghost var v2 := View();
      BlockFacts(block - 1, {block - 1});
      FreeBitEven(i + 3);
      var blockSize := FreeBit(words[block - 1]);
      var frontSize := ClassSize(c) + 16;
      InsertFront(c, block - 1);
      ghost var v3 := View();
      KeepsUsedTrans(v, v2, v3, -1, -1, -1);
      back := block - 1 + frontSize / 8;
      var backSize := blockSize - frontSize;
      TagLoose(back, if buddy >= 0 then backSize else if buddy == -2 then 8 else 16);
      KeepsUsedTrans(v, v3, View(), -1, -1, -1);
    }

    /** The body of the loop of segregated_fits_divide: cut the head of list `i`, the first above
        class `c` that is not empty. */
    method DivideAt(c: nat, i: nat) returns (r: DivideResult)
      requires Valid() && c < i < heads.Length == |lists| && i == FirstClass(lists, c + 1)
      modifies words, heads, this`blocks, this`lists
      ensures r == if Overflows(old(View()), c, repaired) then Overflow else Divided
      ensures r == Divided ==> Valid() && blocks == Division(old(View()), c, repaired).b && KeepsUsed(old(View()), View(), -1)
      ensures r == Divided ==> lists == DivisionLists(old(View()), c, repaired)
    {
      hide Inv, KeepsUsed, Tiling, AbsorbRight, BlockOk, RightLists, Pushed, Cut;
      ghost var v := View();
      var back := CutHead(c, i);
      ghost var w := View();
      ghost var m;
      back, m := MergeRight(back, repaired);
      assert m == Division(v, c, repaired);
      if repaired {
        DivisionBounded(v, c);
      }
      KeepsUsedTrans(v, w, View(), -1, -1, -1);
      ghost var x := View();
      LooseFacts(back);
      if words[back] / 8 - 3 >= heads.Length {
        return Overflow;
      }
      Park(back);
      KeepsUsedTrans(v, x, View(), -1, -1, -1);
      return Divided;
    }

    /** segregated_fits_divide: cut the head of the first non-empty list above class `c`. */
    method Divide(c: nat) returns (r: DivideResult)
      requires Valid() && c < heads.Length
      modifies words, heads, this`blocks, this`lists
      ensures r == NoBlock <==> FirstClass(old(lists), c + 1) == heads.Length
      ensures r == NoBlock ==> View() == old(View())
      ensures r != NoBlock ==> (r == Overflow <==> Overflows(old(View()), c, repaired))
      ensures r == Divided ==> Valid() && blocks == Division(old(View()), c, repaired).b && KeepsUsed(old(View()), View(), -1)
      ensures r == Divided ==> lists == DivisionLists(old(View()), c, repaired)
    {
      hide Inv, KeepsUsed, Tiling, Overflows, Division, DivisionLists;
      Basics({});
      var i := c + 1;
      while i < heads.Length
        invariant c < i <= heads.Length == |lists| && View() == old(View())
        invariant FirstClass(lists, c + 1) == FirstClass(lists, i)
      {
        var empty := IsEmpty(i, {});
        if !empty {
          r := DivideAt(c, i);
          return;
        }
        i := i + 1;
      }
      return NoBlock;
    }

    lemma ClassNotEmpty(s: nat, c: nat)
      requires Valid() && c < heads.Length && s in blocks && blocks[s] == Block(c + 3, false)
      ensures lists[c] != []
    {
      assert BlockOk(View(), s);
    }

    /** Make sure list `c` has an entry, dividing a larger block if need be. */
    method Provide(c: nat) returns (r: DivideResult)
      requires Valid() && c < heads.Length
      modifies words, heads, this`blocks, this`lists
      ensures r == Overflow <==> !repaired && OutOfRangeRequest(old(View()), c)
      ensures r == NoBlock <==> old(lists[c]) == [] && FirstClass(old(lists), c + 1) == heads.Length
      ensures r == NoBlock ==> View() == old(View()) && Valid()
      ensures r == Divided ==>
                && (old(lists[c]) != [] || FirstClass(old(lists), c + 1) < heads.Length)
                && Valid() && lists[c] != [] && blocks == Provided(old(View()), c, repaired)
                && lists == ProvidedLists(old(View()), c, repaired)
                && KeepsUsed(old(View()), View(), -1)
    {
      hide Inv, KeepsUsed, Tiling, AbsorbRight, BlockOk, Overflows, Division, DivisionLists;
      Basics({});
      ghost var v := View();
      var empty := IsEmpty(c, {});
      if !empty {
        return Divided;
      }
      if repaired && FirstClass(v.q, c + 1) < heads.Length { DivisionBounded(v, c); }
      r := Divide(c);
      if r == Divided {
        DivisionFront(v, c, repaired);
        ClassNotEmpty(Victim(v, c), c);
      }
    }

    /** get_segregated_fits_block */
    method Get(size: nat) returns (r: Allocation)
      requires Valid() && size < MAX_UINT32
      modifies words, heads, this`blocks, this`lists
      ensures r.OutOfRange? <==> !repaired && OutOfRangeRequest(old(View()), ClassCeilIndex(size))
      ensures r.Null? <==> Unservable(old(View()), ClassCeilIndex(size)) && !r.OutOfRange?
      ensures r.Null? ==> View() == old(View()) && Valid()
      ensures r.Allocated? ==>
                var c, s := ClassCeilIndex(size), r.addr - 1;
                && 0 <= c < heads.Length && s >= 0
                && Valid() && Served(old(View()), blocks, s, c, repaired)
                && HeadServed(old(View()), lists, s, c, repaired)
                && s in blocks && blocks[s] == Block(c + 3, true) && s + c + 3 <= words.Length
                && s !in Used(old(blocks)) && Used(blocks) == Used(old(blocks))[s := c + 3]
                && KeepsUsed(old(View()), View(), -1)
    {
      hide Inv, KeepsUsed, Tiling, Overflows, Used, Provided, ProvidedLists;
      Basics({});
      ghost var v := View();
      var c := ClassCeilIndex(size);
      if c < 0 || c > heads.Length || (repaired && c >= heads.Length) {
        return Null;
      }
      if c == heads.Length {
        return OutOfRange;
      }
      ListsComplete(v, c);
      var d := Provide(c);
      if d != Divided {
        return if d == NoBlock then Null else OutOfRange;
      }
      r := Take(c, v);
    }

    /** The last part of get_segregated_fits_block: hand out the head of list `c`. */
    method Take(c: nat, ghost v: HeapState) returns (r: Allocation)
      requires Valid() && c < heads.Length && lists[c] != [] && Inv(v, {}) && |v.q| == |v.h| == heads.Length
      requires v.q[c] != [] || FirstClass(v.q, c + 1) < |v.q|
      requires blocks == Provided(v, c, repaired) && lists == ProvidedLists(v, c, repaired) && KeepsUsed(v, View(), -1)
      modifies words, heads, this`blocks, this`lists
      ensures r.Allocated? && r.addr >= 1 && Valid() && KeepsUsed(v, View(), -1)
      ensures var s := r.addr - 1;
        && Served(v, blocks, s, c, repaired) && HeadServed(v, lists, s, c, repaired)
        && s in blocks && blocks[s] == Block(c + 3, true) && s + c + 3 <= words.Length
        && s !in Used(v.b) && Used(blocks) == Used(v.b)[s := c + 3]
    {
      hide Inv, KeepsUsed, Tiling, Used, Provided, ProvidedLists;
      Basics({});
      ghost var u := View();
      var block := PopBlock(c);
      assert block != heads[c] by { HeadMoved(u, c); }
      ServedUsed(v, blocks, block - 1, c, repaired);
      NotUsed(v.b, block - 1);
      KeepsUsedTrans(v, u, View(), -1, block - 1, -1);
      BlockFacts(block - 1, {});
      return Allocated(block);
    }

    /** mask_free_flag on a used block, which becomes the loose one. */
    method FlagFree(block: nat)
      requires Valid() && block >= 1 && block - 1 in blocks && blocks[block - 1].used
      modifies words, this`blocks
      ensures blocks == Mark(old(blocks), block - 1, false)
      ensures FreeLoose(block - 1) && KeepsUsed(old(View()), View(), block - 1)
    {
      hide Inv, KeepsUsed, Tiling;
      ghost var v, s := View(), block - 1;
      Basics({});
      BlockFacts(s, {});
      Loosen(v, {}, s);
      assert {} + {s} == {s};
      FlagStep(v, {s}, s, false);
      MarkTiling(words.Length, blocks, s, false);
      var memSize := FreeBit(words[block - 1]);
      words[block - 1] := memSize;
      words[block - 2 + memSize / 8] := memSize;
      blocks := Mark(blocks, s, false);
      assert words[..] == Flagged(v, s, false).w;
      assert View() == Flagged(v, s, false);
    }

    /** The two merge loops of free_segregated_fits_block: the loose block at `cur`, which ends at
        `tail`, absorbs its free neighbours, first to the left, then to the right. */
    method Coalesce(tail: nat, ghost cur: nat) returns (head: nat, ghost m: Merge)
      requires FreeLoose(cur) && tail == cur + blocks[cur].size - 1
      modifies words, heads, this`blocks, this`lists
      ensures m == Coalesced(words.Length, old(blocks), cur, Cap()) && blocks == m.b && head == m.cur
      ensures lists == CoalescedLists(words.Length, old(blocks), old(lists), cur, Cap())
      ensures FreeLoose(head) && KeepsUsed(old(View()), View(), -1)
    {
      hide Inv, KeepsUsed, Tiling, AbsorbLeft, AbsorbRight, LeftLists, RightLists;
      ghost var v := View();
      ghost var l := MergeLeft(tail, cur);
      ghost var w := View();
      BlockFacts(l.cur, {l.cur});
      head := tail - words[tail] / 8 + 1;
      assert head == l.cur;
      head, m := MergeRight(head, true);
      m := Merge(m.b, m.cur, l.carved || m.carved);
      KeepsUsedTrans(v, w, View(), -1, -1, -1);
    }

    /** free_segregated_fits_block */
    method Free(block: nat)
      requires Valid() && block >= 1 && block - 1 in blocks && blocks[block - 1].used
      modifies words, heads, this`blocks, this`lists
      ensures Valid() && blocks == Release(words.Length, old(blocks), block - 1, Cap()).b
      ensures lists == ReleaseLists(words.Length, old(blocks), old(lists), block - 1, Cap())
      ensures Used(blocks) == Used(old(blocks)) - {block - 1}
      ensures KeepsUsed(old(View()), View(), block - 1)
    {
      hide Inv, KeepsUsed, Tiling, Coalesced, Used, CoalescedLists, Pushed, Bounded;
      Basics({});
      ghost var v, s := View(), block - 1;
      AllBounded(v);
      FlagFree(block);
      ghost var v1 := View();
      var size := FreeBit(words[block - 1]);
      TagBits(blocks[s]);
      BlockFacts(s, {s});
      ghost var m;
      var head;
      head, m := Coalesce(block + size / 8 - 2, s);
      ghost var v2 := View();
      KeepsUsedTrans(v, v1, v2, s, -1, s);
      assert m == Release(words.Length, v.b, s, Cap());
      ReleaseUsed(words.Length, v.b, s, Cap());
      Park(head);
      KeepsUsedTrans(v, v2, View(), s, -1, s);
    }
  }
}
