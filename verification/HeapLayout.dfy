/** Geometry of the allocator's heap: boundary tags, block tiling, and the
    pure facts about merging, splitting and growing a tiling. */
module HeapLayout {

  const WSIZE := 4
  const DSIZE := 8
  const CHUNKSIZE := 4096
  const ADDRESS_SPACE := 0x1_0000_0000

  /** A header or footer word: the byte size with the allocation flag in bit 0. */
  function Pack(size: int, alloc: bool): (w: int)
    requires 0 <= size && size % 8 == 0
    ensures GetSize(w) == size && IsAlloc(w) == alloc
  {
    size + (if alloc then 1 else 0)
  }

  function GetSize(w: int): int {
    w - w % 8
  }

  predicate IsAlloc(w: int) {
    w % 2 == 1
  }

  /** ALIGN(size + DSIZE) in 32-bit unsigned arithmetic. */
  function AlignedRequest(size: nat): int {
    var sum := (size + DSIZE + 7) % ADDRESS_SPACE;
    sum - sum % 8
  }

  /** The rounded request really covers payload and tags exactly when the
      32-bit sum does not wrap. */
  lemma AlignedRequestExact(size: nat)
    requires size < ADDRESS_SPACE
    ensures AlignedRequest(size) >= size + DSIZE <==> size + DSIZE + 7 < ADDRESS_SPACE
    ensures size + DSIZE + 7 < ADDRESS_SPACE ==>
              var a := AlignedRequest(size); a % 8 == 0 && a < size + 16 && (size > 0 ==> a >= 16)
  {
  }

  /** realloc rounds twice: the second rounding wraps exactly for the last 24 request sizes. */
  lemma SecondRoundingExact(size: nat)
    requires 0 < size && size + DSIZE + 7 < ADDRESS_SPACE
    ensures AlignedRequest(AlignedRequest(size)) >= AlignedRequest(size) + DSIZE <==> size + 3 * DSIZE <= ADDRESS_SPACE
  {
    AlignedRequestExact(size);
  }

  datatype Block = Block(size: int, alloc: bool)

  /** Blocks keyed by payload address. */
  type Blocks = map<int, Block>

  ghost predicate Shaped(bs: Blocks, brk: int) {
    forall a {:trigger a in bs} :: a in bs ==> BlockShape(a, bs[a], brk)
  }

  /** A block is 8-byte aligned, at least 16 bytes long, and inside the heap. */
  ghost predicate BlockShape(a: int, b: Block, brk: int) {
    16 <= a && a % 8 == 0 && b.size >= 16 && b.size % 8 == 0 && a + b.size <= brk
  }

  ghost predicate Chained(bs: Blocks, brk: int) {
    && (16 in bs || brk == 16)
    && forall a {:trigger NextOk(bs, brk, a)} :: a in bs ==> NextOk(bs, brk, a)
  }

  /** A block ends at the epilogue or at another block. */
  ghost predicate NextOk(bs: Blocks, brk: int, a: int)
    requires a in bs
  {
    a + bs[a].size == brk || a + bs[a].size in bs
  }

  ghost predicate Disjoint(bs: Blocks) {
    forall a, b {:trigger Apart(bs, a, b)} :: a in bs && b in bs ==> Apart(bs, a, b)
  }

  /** Two different blocks do not overlap. */
  ghost predicate Apart(bs: Blocks, a: int, b: int)
    requires a in bs && b in bs
  {
    (a < b ==> a + bs[a].size <= b) && (b < a ==> b + bs[b].size <= a)
  }

  /** The blocks fill the heap from the prologue (payload address 16 follows it)
      to the epilogue header at brk - 4, without gap or overlap. */
  ghost predicate Tiling(bs: Blocks, brk: int) {
    && brk >= 16 && brk % 8 == 0
    && Shaped(bs, brk) && Chained(bs, brk) && Disjoint(bs)
  }

  /** Every block's header and footer, the prologue and the epilogue. */
  ghost predicate Tags(mem: seq<int>, bs: Blocks)
  {
    && |mem| >= 16
    && mem[4] == 9 && mem[8] == 9
    && mem[|mem| - 4] == 1
    && forall a {:trigger BlockTags(mem, a, bs[a])} :: a in bs ==> BlockTags(mem, a, bs[a])
  }

  ghost predicate BlockTags(mem: seq<int>, a: int, b: Block) {
    && 16 <= a && b.size >= 16 && b.size % 8 == 0 && a + b.size <= |mem|
    && mem[a - 4] == Pack(b.size, b.alloc)
    && mem[a + b.size - 8] == Pack(b.size, b.alloc)
  }

  /** The boundary tags of one block, as the macros read them. */
  lemma TagsAt(mem: seq<int>, bs: Blocks, a: int)
    requires Tags(mem, bs) && a in bs
    ensures BlockTags(mem, a, bs[a])
  {
  }

  ghost function FreeAddresses(bs: Blocks): set<int> {
    set a | a in bs && !bs[a].alloc
  }

  /** The free blocks of a tiling. */
  ghost function FreeOf(bs: Blocks): Blocks {
    bs - (bs.Keys - FreeAddresses(bs))
  }

  /** The allocated blocks of a tiling. */
  ghost function LiveOf(bs: Blocks): Blocks {
    bs - FreeAddresses(bs)
  }

  /** A free block is followed by an allocated block or by the epilogue. */
  ghost predicate NextLive(bs: Blocks, a: int)
    requires a in bs
  {
    var n := a + bs[a].size;
    n in bs ==> bs[n].alloc
  }

  /** No free block touches another one. */
  ghost predicate NoFreePair(bs: Blocks) {
    forall a {:trigger NextLive(bs, a)} :: a in bs && !bs[a].alloc ==> NextLive(bs, a)
  }

  /** No two free blocks touch, except perhaps at block `except`. */
  ghost predicate NoFreePairExcept(bs: Blocks, except: int) {
    forall a {:trigger NextLive(bs, a)} ::
      a in bs && !bs[a].alloc && a != except && a + bs[a].size != except ==> NextLive(bs, a)
  }

  /** The largest block address below `a`. */
  lemma LargestBelow(bs: Blocks, a: int) returns (p: int)
    requires exists q :: q in bs && q < a
    ensures p in bs && p < a
    ensures forall q :: q in bs && q < a ==> q <= p
    decreases |bs|
  {
    var q :| q in bs && q < a;
    var rest := bs - {q};
    if r :| r in rest && r < a {
      var m := LargestBelow(rest, a);
      p := if m > q then m else q;
      forall x | x in bs && x < a ensures x <= p { assert x == q || x in rest; }
    } else {
      p := q;
      forall x | x in bs && x < a ensures x <= p { assert x == q || x in rest; }
    }
  }

  /** Every block but the first, and the epilogue, has a predecessor that ends at it. */
  lemma Predecessor(bs: Blocks, brk: int, a: int) returns (p: int)
    requires Tiling(bs, brk)
    requires a in bs || a == brk
    requires a != 16
    ensures p in bs && p + bs[p].size == a
  {
    assert 16 in bs;
    p := LargestBelow(bs, a);
    assert NextOk(bs, brk, p);
    assert a in bs ==> Apart(bs, p, a);
  }

  /** Coalescing leaves no choice: in a heap without adjacent free blocks, the free blocks are
      determined by the live ones and the break. */
  lemma FreeFollowsFromLive(bs: Blocks, bs': Blocks, brk: int)
    requires Tiling(bs, brk) && NoFreePair(bs) && Tiling(bs', brk) && NoFreePair(bs')
    requires LiveOf(bs) == LiveOf(bs')
    ensures bs == bs'
  {
    forall a | a in bs ensures a in bs' && bs'[a] == bs[a] {
      BlockDetermined(bs, bs', brk, a);
    }
    forall a | a in bs' ensures a in bs {
      BlockDetermined(bs', bs, brk, a);
    }
  }

  lemma {:induction false} BlockDetermined(bs: Blocks, bs': Blocks, brk: int, a: int)
    requires Tiling(bs, brk) && NoFreePair(bs) && Tiling(bs', brk) && NoFreePair(bs')
    requires LiveOf(bs) == LiveOf(bs') && a in bs
    ensures a in bs' && bs'[a] == bs[a]
    decreases a - 16
  {
    assert BlockShape(a, bs[a], brk);
    if a != 16 {
      var p := Predecessor(bs, brk, a);
      assert BlockShape(p, bs[p], brk);
      BlockDetermined(bs, bs', brk, p);
      assert NextOk(bs', brk, p);
    }
    assert BlockShape(a, bs'[a], brk);
    SameFlag(bs, bs', a);
    SameFlag(bs', bs, a);
    if bs[a].alloc {
      assert LiveOf(bs)[a] == bs[a];
    } else {
      NotShorter(bs, bs', brk, a);
      NotShorter(bs', bs, brk, a);
    }
  }

  lemma SameFlag(bs: Blocks, bs': Blocks, a: int)
    requires LiveOf(bs) == LiveOf(bs') && a in bs && a in bs'
    ensures bs[a].alloc ==> bs'[a].alloc && bs'[a] == bs[a]
  {
    assert bs[a].alloc ==> a in LiveOf(bs) && LiveOf(bs)[a] == bs[a] && a in LiveOf(bs');
  }

  /** A free block reaches at least as far as the one at the same place in the other heap. */
  lemma NotShorter(bs: Blocks, bs': Blocks, brk: int, a: int)
    requires Tiling(bs, brk) && NoFreePair(bs) && Tiling(bs', brk) && LiveOf(bs) == LiveOf(bs')
    requires a in bs && a in bs' && !bs[a].alloc
    ensures bs[a].size >= bs'[a].size
  {
    var e := a + bs[a].size;
    assert NextOk(bs, brk, a) && NextLive(bs, a) && BlockShape(a, bs[a], brk) && BlockShape(a, bs'[a], brk);
    if e in bs {
      assert e in LiveOf(bs) && e in LiveOf(bs');
      assert Apart(bs', a, e);
    }
  }

  /** Reading a block's footer backwards, as PREV_BLKP does. */
  lemma PreviousTag(mem: seq<int>, bs: Blocks, a: int) returns (p: int)
    requires Tiling(bs, |mem|) && Tags(mem, bs) && a in bs
    ensures p == a - GetSize(mem[a - 8]) && 8 <= p < |mem|
    ensures a == 16 ==> p == 8 && IsAlloc(mem[p - 4])
    ensures a != 16 ==> p in bs && p + bs[p].size == a && mem[a - 8] == mem[p - 4] == Pack(bs[p].size, bs[p].alloc)
  {
    if a == 16 {
      p := 8;
    } else {
      p := Predecessor(bs, |mem|, a);
      assert BlockTags(mem, p, bs[p]);
    }
  }

  /** Reading the following header, as NEXT_BLKP does. */
  lemma NextTag(mem: seq<int>, bs: Blocks, a: int)
    requires Tiling(bs, |mem|) && Tags(mem, bs) && a in bs
    ensures var n := a + bs[a].size;
            if n in bs then n + 12 <= |mem| && mem[n - 4] == Pack(bs[n].size, bs[n].alloc)
            else n == |mem| && mem[n - 4] == 1
  {
    var n := a + bs[a].size;
    assert NextOk(bs, |mem|, a);
    if n in bs {
      assert BlockTags(mem, n, bs[n]);
    }
  }

  ghost function Merged(bs: Blocks, a: int, alloc: bool): Blocks
    requires a in bs && a + bs[a].size in bs
  {
    var n := a + bs[a].size;
    (bs - {n})[a := Block(bs[a].size + bs[n].size, alloc)]
  }

  /** Joining a block with its right neighbour keeps the tiling. */
  lemma MergeKeepsTiling(bs: Blocks, brk: int, a: int, alloc: bool)
    requires Tiling(bs, brk) && a in bs && a + bs[a].size in bs
    ensures Tiling(Merged(bs, a, alloc), brk)
  {
    MergeKeepsChain(bs, brk, a, alloc);
    MergeKeepsDisjoint(bs, a, alloc);
    var n := a + bs[a].size;
    assert BlockShape(a, Block(bs[a].size + bs[n].size, alloc), brk);
    assert Shaped(Merged(bs, a, alloc), brk) by { hide BlockShape; }
  }

  lemma MergeKeepsChain(bs: Blocks, brk: int, a: int, alloc: bool)
    requires Shaped(bs, brk) && Chained(bs, brk) && Disjoint(bs) && a in bs && a + bs[a].size in bs
    ensures Chained(Merged(bs, a, alloc), brk)
  {
    var n := a + bs[a].size;
    var r := Merged(bs, a, alloc);
    forall x | x in r ensures NextOk(r, brk, x) {
      assert NextOk(bs, brk, if x == a then n else x);
      assert Apart(bs, x, a);
    }
  }

  lemma MergeKeepsDisjoint(bs: Blocks, a: int, alloc: bool)
    requires Disjoint(bs) && a in bs && a + bs[a].size in bs
    ensures Disjoint(Merged(bs, a, alloc))
  {
    var n := a + bs[a].size;
    var r := Merged(bs, a, alloc);
    forall x, y | x in r && y in r ensures Apart(r, x, y) {
      assert Apart(bs, x, y) && Apart(bs, n, x) && Apart(bs, n, y);
      assert Apart(bs, a, x) && Apart(bs, a, y);
    }
  }

  ghost function SplitAt(bs: Blocks, a: int, first: Block, second: Block): Blocks {
    bs[a := first][a + first.size := second]
  }

  /** Cutting a block into two keeps the tiling. */
  lemma SplitKeepsTiling(bs: Blocks, brk: int, a: int, first: Block, second: Block)
    requires Tiling(bs, brk) && a in bs
    requires first.size >= 16 && second.size >= 16 && first.size % 8 == 0 && second.size % 8 == 0
    requires first.size + second.size == bs[a].size
    ensures a + first.size !in bs
    ensures Tiling(SplitAt(bs, a, first, second), brk)
  {
    SplitKeepsDisjoint(bs, a, first, second);
    SplitShapes(a, bs[a], first, second, brk);
    var m := a + first.size;
    var r := SplitAt(bs, a, first, second);
    assert Shaped(r, brk) by { hide BlockShape; }
    forall x | x in r ensures NextOk(r, brk, x) {
      assert NextOk(bs, brk, if x == m then a else x);
    }
  }

  lemma Mod8Sum(x: int, y: int)
    requires x % 8 == 0 && y % 8 == 0
    ensures (x + y) % 8 == 0
  {
  }

  lemma SplitShapes(a: int, b: Block, first: Block, second: Block, brk: int)
    requires BlockShape(a, b, brk)
    requires first.size >= 16 && second.size >= 16 && first.size % 8 == 0 && second.size % 8 == 0
    requires first.size + second.size == b.size
    ensures BlockShape(a, first, brk) && BlockShape(a + first.size, second, brk)
  {
  }

  lemma SplitKeepsDisjoint(bs: Blocks, a: int, first: Block, second: Block)
    requires Disjoint(bs) && a in bs && first.size >= 16 && second.size >= 16
    requires first.size + second.size == bs[a].size
    ensures a + first.size !in bs
    ensures Disjoint(SplitAt(bs, a, first, second))
  {
    var m := a + first.size;
    assert m in bs ==> Apart(bs, a, m);
    var r := SplitAt(bs, a, first, second);
    forall x, y | x in r && y in r ensures Apart(r, x, y) {
      var x0, y0 := if x == m then a else x, if y == m then a else y;
      assert Apart(bs, x0, y0) && Apart(bs, a, x0) && Apart(bs, a, y0);
    }
  }

  /** Changing only a block's allocation flag keeps the tiling. */
  lemma RetagKeepsTiling(bs: Blocks, brk: int, a: int, alloc: bool)
    requires Tiling(bs, brk) && a in bs
    ensures Tiling(bs[a := Block(bs[a].size, alloc)], brk)
  {
    var r := bs[a := Block(bs[a].size, alloc)];
    assert BlockShape(a, r[a], brk);
    assert Shaped(r, brk) by { hide BlockShape; }
    forall x | x in r ensures NextOk(r, brk, x) { assert NextOk(bs, brk, x); }
    forall x, y | x in r && y in r ensures Apart(r, x, y) { assert Apart(bs, x, y); }
  }

  /** A new block at the old end of the heap keeps the tiling. */
  lemma GrowKeepsTiling(bs: Blocks, brk: int, size: int)
    requires Tiling(bs, brk) && size >= 16 && size % 8 == 0
    ensures brk !in bs
    ensures Tiling(bs[brk := Block(size, false)], brk + size)
  {
    var r := bs[brk := Block(size, false)];
    Mod8Sum(brk, size);
    forall x | x in r ensures BlockShape(x, r[x], brk + size) { assert x != brk ==> BlockShape(x, bs[x], brk); }
    hide BlockShape;
    forall x | x in r ensures NextOk(r, brk + size, x) { assert x != brk ==> NextOk(bs, brk, x); }
    forall x, y | x in r && y in r ensures Apart(r, x, y) { assert x != brk && y != brk ==> Apart(bs, x, y); }
  }

  /** Walking the heap from address `a` by header sizes, as a heap checker does:
      every tag pair agrees and the walk ends exactly at the epilogue. */
  ghost predicate WalkReachesEpilogue(mem: seq<int>, a: int)
    decreases |mem| - a
  {
    16 <= a <= |mem| &&
    if a == |mem| then mem[a - 4] == 1
    else
      var s := GetSize(mem[a - 4]);
      s >= 16 && s % 8 == 0 && a + s <= |mem| && mem[a + s - 8] == mem[a - 4] &&
      WalkReachesEpilogue(mem, a + s)
  }

  lemma {:induction false} TilingIsWalkable(mem: seq<int>, bs: Blocks, a: int)
    requires Tiling(bs, |mem|) && Tags(mem, bs)
    requires a in bs || a == |mem|
    ensures WalkReachesEpilogue(mem, a)
    decreases |mem| - a
  {
    if a != |mem| {
      assert BlockTags(mem, a, bs[a]) && NextOk(bs, |mem|, a);
      TilingIsWalkable(mem, bs, a + bs[a].size);
    }
  }
}
