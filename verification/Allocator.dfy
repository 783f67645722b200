/** The segregated-list allocator: malloc, free and realloc on a raw heap with
    boundary tags, best fit within size classes, and immediate coalescing. */
module SegregatedAllocator {
  import opened HeapLayout
  import opened FreeLists
  import opened HeapFrames

  // The pointer macros. An address is a byte offset from the heap start; NULL is 0.
  function HdrP(bp: int): int { bp - WSIZE }

  function FtrP(mem: seq<int>, bp: int): int
    requires 0 <= HdrP(bp) < |mem|
  {
    bp + GetSize(mem[HdrP(bp)]) - DSIZE
  }

  function NextBlkP(mem: seq<int>, bp: int): int
    requires 0 <= HdrP(bp) < |mem|
  {
    bp + GetSize(mem[bp - WSIZE])
  }

  function PrevBlkP(mem: seq<int>, bp: int): int
    requires 0 <= bp - DSIZE < |mem|
  {
    bp - GetSize(mem[bp - DSIZE])
  }

  function NextSeg(bp: int): int { bp + WSIZE }

  function PrevSeg(bp: int): int { bp }

  /** Everything but coalescing: the tiling, its tags, and the filed free lists. */
  ghost predicate HeapOk(mem: seq<int>, seg: seq<int>, lists: seq<seq<int>>, bs: Blocks) {
    && Tiling(bs, |mem|) && Tags(mem, bs)
    && ListsOk(mem, seg, lists, FreeOf(bs))
  }

  /** No block of the same size stands before f in its list. */
  ghost predicate Foremost(free: Blocks, lists: seq<seq<int>>, f: int)
    requires f in free
  {
    exists c, i :: 0 <= c < |lists| && 0 <= i < |lists[c]| && lists[c][i] == f && OthersBefore(free, lists[c], i)
  }

  ghost predicate OthersBefore(free: Blocks, l: seq<int>, i: nat)
    requires i < |l| && l[i] in free
  {
    forall j :: 0 <= j < i ==> l[j] in free && free[l[j]].size != free[l[i]].size
  }

  /** f is a free block of smallest adequate size, in the whole heap, and the first of that size in its list. */
  ghost predicate BestFit(free: Blocks, lists: seq<seq<int>>, size: int, f: int) {
    && f in free && free[f].size >= size
    && (forall x :: x in free && free[x].size >= size ==> free[f].size <= free[x].size)
    && Foremost(free, lists, f)
  }

  ghost predicate NoneFits(free: Blocks, size: int) {
    forall x :: x in free ==> free[x].size < size
  }

  /** What mm_malloc asks extend_heap for. */
  function Extension(need: int): int { if CHUNKSIZE > need then CHUNKSIZE else need }

  /** Where place puts a request in s free bytes at f: everything when at most 16 bytes would
      be left, else the front for a request of more than 100 bytes and the back for a smaller one. */
  ghost predicate Cut(f: int, s: int, need: int, r: int, size: int) {
    && size == (if s - need <= 2 * DSIZE then s else need)
    && r == (if s - need <= 2 * DSIZE || need > 100 then f else f + s - need)
  }

  /** Where the free bytes begin that growing the heap at brk gives. */
  ghost predicate TailAt(free: Blocks, brk: int, f: int) {
    if f in free then f + free[f].size == brk else f == brk && forall x :: x in free ==> x + free[x].size != brk
  }

  /** The free bytes from r to end that coalesce makes of block bp and its free neighbours. */
  ghost predicate Joined(bs: Blocks, bp: int, r: int, end: int) {
    && bp in bs
    && (if r == bp then forall p :: p in bs && p + bs[p].size == bp ==> bs[p].alloc
        else r in bs && !bs[r].alloc && r + bs[r].size == bp)
    && var e := bp + bs[bp].size;
    end == if e in bs && !bs[e].alloc then e + bs[e].size else e
  }

  /** What mm_malloc hands out: cut from a best fit, or from the end of a heap grown for it
      when nothing fits. */
  ghost predicate Served(free: Blocks, lists: seq<seq<int>>, brk: int, brk': int, need: int, r: int, size: int) {
    if NoneFits(free, need) then
      brk' == brk + Extension(need) && exists f :: TailAt(free, brk, f) && Cut(f, brk' - f, need, r, size)
    else brk' == brk && exists f :: BestFit(free, lists, need, f) && Cut(f, free[f].size, need, r, size)
  }

  /** What mm_realloc leaves of a request of need bytes for block ptr, whose predecessor
      would begin at p: the block itself when it is large enough, the block with its
      successor, the block moved down into its predecessor, with the successor only when
      that is needed, or a block that mm_malloc hands out; NULL and no change when
      that fails. The bytes of the heap are limited. */
  ghost predicate Regrown(bs: Blocks, lists: seq<seq<int>>, brk: int, limit: int, p: int, ptr: int, need: nat, r: int,
      bs': Blocks, brk': int)
    requires ptr in LiveOf(bs)
  {
    var live, free := LiveOf(bs), FreeOf(bs);
    var cur, n := live[ptr].size, ptr + live[ptr].size;
    var next := if n in free then free[n].size else 0;
    var prev := if p in free && p + free[p].size == ptr then free[p].size else 0;
    var request := AlignedRequest(need);
    if cur >= need then r == ptr && brk' == brk && bs' == bs
    else if cur + next >= need then
      r == ptr && brk' == brk && LiveOf(bs') == live[ptr := Block(cur + next, true)] && FreeOf(bs') == free - {n}
    else if prev > 0 && prev + cur >= need then
      && r == p && brk' == brk
      && LiveOf(bs') == (live - {ptr})[p := Block(prev + cur, true)] && FreeOf(bs') == free - {p}
    else if prev > 0 && prev + cur + next >= need then
      && r == p && brk' == brk
      && LiveOf(bs') == (live - {ptr})[p := Block(prev + cur + next, true)] && FreeOf(bs') == free - {p} - {n}
    else if NoneFits(free, request) && brk + Extension(request) > limit then r == 0 && brk' == brk && bs' == bs
    else
      && r != 0 && r !in live && r in LiveOf(bs') && LiveOf(bs') == (live - {ptr})[r := LiveOf(bs')[r]]
      && Served(free, lists, brk, brk', request, r, LiveOf(bs')[r].size)
  }

  class Allocator {
    /** region[a] is the 4-byte word at byte address a; only multiples of 4 are used. */
    const region: array<int>
    /** How much of the region mem_sbrk has handed out. */
    var brk: nat
    /** The list heads. */
    const seg: array<int>

    /** The heap up to the break. */
    ghost var mem: seq<int>

    ghost var blocks: Blocks
    ghost var lists: seq<seq<int>>

    /** The two arrays, and the heap as the first part of the region. */
    ghost predicate Backed()
      reads this, region
    {
      && region != seg && seg.Length == NUM_SEGLIST
      && |mem| == brk <= region.Length <= 0x8000_0000 && mem == region[..brk]
    }

    ghost predicate Ok()
      reads this, seg, region
    {
      Backed() && HeapOk(mem, seg[..], lists, blocks)
    }

    ghost predicate Valid()
      reads this, seg, region
    {
      Ok() && NoFreePair(blocks)
    }

    /** The blocks handed out and not yet freed, with their sizes. */
    ghost function Live(): Blocks
      reads this
    {
      LiveOf(blocks)
    }

    /** No free block fits a request, and the heap cannot grow any more. */
    ghost predicate Exhausted(need: int)
      reads this
    {
      NoneFits(FreeOf(blocks), need) && |mem| + Extension(need) > region.Length
    }

    constructor (capacity: nat)
      requires capacity <= 0x8000_0000
      ensures Backed() && fresh(seg) && fresh(region) && region.Length == capacity && mem == []
    {
      seg := new int[NUM_SEGLIST];
      region := new int[capacity];
      brk, mem := 0, [];
    }

    /** GET. */
    function Get(p: int): (w: int)
      requires Backed() && 0 <= p < |mem|
      reads this, region
      ensures w == mem[p]
    {
      region[p]
    }

    /** PUT. */
    method Put(p: int, w: int)
      requires Backed() && 0 <= p < |mem|
      modifies region, this`mem
      ensures Backed() && mem == old(mem)[p := w]
    {
      region[p] := w;
      mem := mem[p := w];
    }

    // The pointer macros, as they read the heap.

    function Footer(bp: int): (p: int)
      requires Backed() && 0 <= HdrP(bp) < |mem|
      reads this, region
      ensures p == FtrP(mem, bp)
    {
      bp + GetSize(Get(HdrP(bp))) - DSIZE
    }

    function Next(bp: int): (p: int)
      requires Backed() && 0 <= HdrP(bp) < |mem|
      reads this, region
      ensures p == NextBlkP(mem, bp)
    {
      bp + GetSize(Get(HdrP(bp)))
    }

    function Previous(bp: int): (p: int)
      requires Backed() && 0 <= bp - DSIZE < |mem|
      reads this, region
      ensures p == PrevBlkP(mem, bp)
    {
      bp - GetSize(Get(bp - DSIZE))
    }

    /** mem_sbrk: the old break, or -1 when the region is exhausted. */
    method Sbrk(incr: nat) returns (p: int)
      requires Backed()
      modifies this`brk, this`mem
      ensures Backed()
      ensures p == -1 <==> old(|mem|) + incr > region.Length
      ensures p == -1 ==> mem == old(mem)
      ensures p != -1 ==> p == |old(mem)| && |mem| == p + incr && mem[..p] == old(mem)
    {
      if brk + incr > region.Length {
        return -1;
      }
      p := brk;
      brk := brk + incr;
      mem := region[..brk];
    }

    /** mm_init on a fresh heap. */
    method Init() returns (r: int)
      requires Backed() && mem == []
      modifies this, seg, region
      ensures r == -1 <==> region.Length < 16
      ensures r != -1 ==> r == 0 && Valid() && blocks == map[]
    {
      for i := 0 to NUM_SEGLIST
        invariant mem == [] && Backed()
        invariant forall c :: 0 <= c < i ==> seg[c] == 0
      {
        seg[i] := 0;
      }
      var start := Sbrk(4 * WSIZE);
      if start == -1 {
        return -1;
      }
      Put(start, 0);
      Put(start + WSIZE, Pack(DSIZE, true));
      Put(start + 2 * WSIZE, Pack(DSIZE, true));
      Put(start + 3 * WSIZE, Pack(0, true));
      blocks := map[];
      lists := seq(NUM_SEGLIST, _ => []);
      r := 0;
    }

    method GetMsbPos(size: nat, idx: nat) returns (pos: nat)
      requires idx < NUM_SEGLIST
      ensures pos == MsbPos(size, idx)
    {
      var s := size;
      pos := idx;
      while s > 1 && pos < NUM_SEGLIST - 1
        invariant pos < NUM_SEGLIST && MsbPos(s, pos) == MsbPos(size, idx)
        decreases s
      {
        s := s / 2;
        pos := pos + 1;
      }
    }

    /** The heap between two list operations of one call: the tiling and its tags are
        intact, and the lists hold exactly the free blocks in `free`. */
    ghost predicate Mid(free: Blocks)
      reads this, seg, region
    {
      && Backed()
      && Tiling(blocks, |mem|) && Tags(mem, blocks)
      && ListsOk(mem, seg[..], lists, free)
      && FreeWithin(free, blocks)
    }

    /** insert: push a block on the front of its size class. */
    method Insert(bp: int, ghost free: Blocks)
      requires Mid(free) && bp in blocks && !blocks[bp].alloc && bp !in free
      modifies region, this`mem, this`lists, seg
      ensures Mid(free[bp := blocks[bp]])
      ensures |mem| == |old(mem)| && Kept(old(mem), mem, Live())
      ensures lists == var c := Class(blocks[bp].size); old(lists)[c := [bp] + old(lists)[c]]
    {
      hide Tiling, Tags, ListsOk, Kept, FreeWithin;
      ghost var mem0, heads := mem, seg[..];
      InsertOk(mem0, heads, lists, blocks, free, bp);
      var size := GetSize(Get(HdrP(bp)));
      var idx := GetMsbPos(size, 0);
      ghost var l := lists[idx];
      var prev := seg[idx];
      Put(NextSeg(bp), 0);
      Put(PrevSeg(bp), 0);
      if prev != 0 {
        Put(NextSeg(prev), bp);
        Put(PrevSeg(bp), prev);
      }
      seg[idx] := bp;
      lists := lists[idx := [bp] + l];
      assert mem == PushLinks(mem0, l, bp);
      assert seg[..] == heads[idx := bp];
    }

    /** delete: unlink a block from its size class. */
    method Delete(bp: int, ghost free: Blocks)
      requires Mid(free) && bp in free
      modifies region, this`mem, this`lists, seg
      ensures Mid(free - {bp})
      ensures |mem| == |old(mem)| && Kept(old(mem), mem, Live())
      ensures exists k :: var c := Class(free[bp].size);
                0 <= k < |old(lists)[c]| && old(lists)[c][k] == bp
                  && lists == old(lists)[c := Removed(old(lists)[c], k)]
    {
      hide Tiling, Tags, ListsOk, Kept, FreeWithin;
      ghost var mem0, heads := mem, seg[..];
      ghost var k := DeleteOk(mem0, heads, lists, blocks, free, bp);
      var size := GetSize(Get(HdrP(bp)));
      var idx := GetMsbPos(size, 0);
      ghost var l := lists[idx];
      var prev := Get(PrevSeg(bp));
      var next := Get(NextSeg(bp));
      if prev == 0 && next == 0 {
        seg[idx] := 0;
      } else if prev != 0 && next == 0 {
        seg[idx] := prev;
        Put(NextSeg(prev), 0);
      } else if prev == 0 && next != 0 {
        Put(PrevSeg(next), 0);
      } else {
        Put(NextSeg(prev), next);
        Put(PrevSeg(next), prev);
      }
      lists := lists[idx := Removed(l, k)];
      assert mem == UnlinkLinks(mem0, l, k);
      assert seg[..] == heads[idx := At(Removed(l, k), 0)];
    }

    /** find_fit: the first class with an adequate block, and its best fit. */
    method FindFit(size: nat) returns (bp: int)
      requires Valid() && size > 0
      ensures bp == 0 ==> NoneFits(FreeOf(blocks), size)
      ensures bp != 0 ==> BestFit(FreeOf(blocks), lists, size, bp)
    {
      ghost var free := FreeOf(blocks);
      var index := GetMsbPos(size, 0);
      SmallClassesTooSmall(free, size);
      while index < NUM_SEGLIST
        invariant index <= NUM_SEGLIST
        invariant forall x :: x in free && free[x].size >= size ==> Class(free[x].size) >= index
      {
        var best := FindBest(index, size);
        if best != 0 {
          LaterClassesLarger(free, index, free[best].size);
          return best;
        }
        index := index + 1;
      }
      return 0;
    }

    /** The inner loop of find_fit: the best fit within one class. */
    method FindBest(index: nat, size: nat) returns (bestptr: int)
      requires Valid() && index < NUM_SEGLIST && size > 0
      ensures var free := FreeOf(blocks);
              && (bestptr == 0 ==> forall x :: x in free && Class(free[x].size) == index ==> free[x].size < size)
              && (bestptr != 0 ==>
                    && bestptr in free && free[bestptr].size >= size && Class(free[bestptr].size) == index
                    && Foremost(free, lists, bestptr)
                    && forall x :: x in free && Class(free[x].size) == index && free[x].size >= size ==>
                      free[bestptr].size <= free[x].size)
    {
      hide Tiling, Tags, ListsOk, NoFreePair, FreeOf;
      ghost var free := FreeOf(blocks);
      ClassMembers(mem, seg[..], lists, free, index);
      ghost var l := lists[index];
      var ptr := seg[index];
      ghost var i, k := 0, 0;
      bestptr := 0;
      var min := 0x8000_0000;
      while ptr != 0
        invariant 0 <= i <= |l| && ptr == At(l, i)
        invariant bestptr == 0 ==> min == 0x8000_0000 && forall j :: 0 <= j < i ==> free[l[j]].size < size
        invariant bestptr != 0 ==> 0 <= k < i && bestptr == l[k] && min == free[bestptr].size - size >= 0
        invariant bestptr != 0 ==> OthersBefore(free, l, k)
        invariant bestptr != 0 ==> forall j :: 0 <= j < i ==>
          free[l[j]].size < size || free[bestptr].size <= free[l[j]].size
        decreases |l| - i
      {
        ElementRead(mem, seg[..], lists, blocks, index, i);
        if GetSize(Get(HdrP(ptr))) >= size {
          if min > GetSize(Get(HdrP(ptr))) - size {
            min := GetSize(Get(HdrP(ptr))) - size;
            bestptr, k := ptr, i;
          }
        }
        ptr := Get(PrevSeg(ptr));
        i := i + 1;
      }
    }

    /** A list's elements are exactly the free blocks of its class. */
    lemma ClassMembers(m: seq<int>, heads: seq<int>, ls: seq<seq<int>>, free: Blocks, c: nat)
      requires ListsOk(m, heads, ls, free) && c < NUM_SEGLIST
      ensures |heads| == |ls| == NUM_SEGLIST && heads[c] == At(ls[c], 0)
      ensures forall x :: x in free ==> free[x].size >= 0
      ensures forall j :: 0 <= j < |ls[c]| ==> ls[c][j] > 0 && ls[c][j] in free && Class(free[ls[c][j]].size) == c
      ensures forall x :: x in free && Class(free[x].size) == c ==> x in ls[c]
    {
      hide LinkOk;
      ElementsInBounds(m, heads, ls, free, c);
      forall j | 0 <= j < |ls[c]| ensures ls[c][j] in free && Class(free[ls[c][j]].size) == c {
        assert ls[c][j] in ls[c];
      }
    }

    /** What the search loop reads at one list element. */
    lemma ElementRead(m: seq<int>, heads: seq<int>, ls: seq<seq<int>>, bs: Blocks, c: nat, i: nat)
      requires HeapOk(m, heads, ls, bs) && c < NUM_SEGLIST && i < |ls[c]|
      ensures var x := ls[c][i];
              && x in FreeOf(bs) && 16 <= x && x + 8 <= |m|
              && m[x] == At(ls[c], i + 1)
              && GetSize(m[x - 4]) == FreeOf(bs)[x].size <= |m|
    {
      var x := ls[c][i];
      assert x in ls[c] && LinkOk(m, ls[c], i);
      assert x in FreeOf(bs);
      assert BlockTags(m, x, bs[x]);
    }

    lemma SmallClassesTooSmall(free: Blocks, size: nat)
      requires forall x :: x in free ==> free[x].size >= 0
      ensures forall x :: x in free && free[x].size >= size ==> Class(free[x].size) >= Class(size)
    {
      forall x | x in free && free[x].size >= size ensures Class(free[x].size) >= Class(size) {
        MsbPosMonotone(size, free[x].size, 0);
      }
    }

    lemma LaterClassesLarger(free: Blocks, index: nat, best: nat)
      requires forall x :: x in free ==> free[x].size >= 0
      requires Class(best) == index
      ensures forall x :: x in free && Class(free[x].size) > index ==> free[x].size > best
    {
      forall x | x in free && Class(free[x].size) > index ensures free[x].size > best {
        if free[x].size <= best { MsbPosMonotone(free[x].size, best, 0); }
      }
    }

    /** PUT of a block's header, then of its footer, moving to the tiling `bs'`. */
    method PutBlock(bp: int, size: int, alloc: bool, ghost bs': Blocks, ghost free: Blocks)
      requires Mid(free) && Tiling(bs', |mem|) && FreeWithin(free, bs')
      requires bp in bs' && bs'[bp] == Block(size, alloc)
      requires forall x :: x in bs' && x != bp ==> x in blocks && blocks[x] == bs'[x]
      modifies region, this`mem, this`blocks
      ensures Mid(free) && blocks == bs' && |mem| == |old(mem)| && Kept(old(mem), mem, bs')
    {
      hide Tiling, Tags, ListsOk, Kept, FreeWithin;
      PutTagsFinish(mem, blocks, bs', bp, seg[..], lists, free);
      BlockShapeAt(bs', |mem|, bp);
      ghost var m0 := mem;
      Put(HdrP(bp), Pack(size, alloc));
      Put(Footer(bp), Pack(size, alloc));
      assert mem == PutTags(m0, bp, bs'[bp]);
      blocks := bs';
    }

    /** PUT of block bp's old footer, then of the header of the block r before it. */
    method PutBlockFromTail(bp: int, r: int, size: int, ghost bs': Blocks, ghost free: Blocks)
      requires Mid(free) && Tiling(bs', |mem|) && FreeWithin(free, bs')
      requires bp in blocks && r in bs' && bs'[r] == Block(size, false)
      requires r + size == bp + blocks[bp].size
      requires forall x :: x in bs' && x != r ==> x in blocks && blocks[x] == bs'[x]
      modifies region, this`mem, this`blocks
      ensures Mid(free) && blocks == bs' && |mem| == |old(mem)| && Kept(old(mem), mem, bs')
    {
      hide Tiling, Tags, ListsOk, Kept, FreeWithin;
      PutTagsFinish(mem, blocks, bs', r, seg[..], lists, free);
      BlockShapeAt(bs', |mem|, r);
      TagsAt(mem, blocks, bp);
      ghost var m0 := mem;
      Put(Footer(bp), Pack(size, false));
      Put(HdrP(r), Pack(size, false));
      assert mem == PutTags(m0, r, bs'[r]);
      blocks := bs';
    }

    /** coalesce, free predecessor and allocated successor. */
    method MergePrev(bp: int) returns (r: int)
      requires Ok() && bp in blocks && !blocks[bp].alloc
      requires 0 <= bp - DSIZE < |mem|
      requires var p := PrevBlkP(mem, bp); p in blocks && !blocks[p].alloc && p + blocks[p].size == bp
      modifies this, seg, region
      ensures Ok() && |mem| == |old(mem)|
      ensures r == old(PrevBlkP(mem, bp)) && blocks == Merged(old(blocks), r, false)
      ensures Kept(old(mem), mem, old(Live()))
    {
      hide Tiling, Tags, ListsOk, Kept, Merged, FreeOf, LiveOf, FreeWithin;
      ghost var bs, m0, live := blocks, mem, Live();
      ghost var p := PrevBlkP(mem, bp);
      ghost var free := FreeOf(bs);
      MergeFree(bs, |mem|, p);
      TagsAt(mem, bs, bp);
      var blockSize := GetSize(Get(HdrP(bp)));
      Delete(Previous(bp), free);
      free := free - {p};
      ghost var m1 := mem;
      Delete(bp, free);
      free := free - {bp};
      ghost var m2 := mem;
      TagsAt(mem, bs, p);
      TagsAt(mem, bs, bp);
      r := Previous(bp);
      blockSize := blockSize + GetSize(Get(HdrP(r)));
      PutBlockFromTail(bp, r, blockSize, Merged(bs, p, false), free);
      ghost var m3 := mem;
      Insert(r, free);
      LiveIsWithin(blocks);
      KeptChain(m0, m1, m2, m3, mem, live, blocks);
    }

    /** coalesce, allocated predecessor and free successor. */
    method MergeNext(bp: int)
      requires Ok() && bp in blocks && !blocks[bp].alloc
      requires var n := bp + blocks[bp].size; n in blocks && !blocks[n].alloc
      modifies this, seg, region
      ensures Ok() && |mem| == |old(mem)|
      ensures blocks == Merged(old(blocks), bp, false)
      ensures Kept(old(mem), mem, old(Live()))
    {
      hide Tiling, Tags, ListsOk, Kept, Merged, FreeOf, LiveOf, FreeWithin;
      ghost var bs, m0, live := blocks, mem, Live();
      ghost var n := bp + bs[bp].size;
      ghost var free := FreeOf(bs);
      MergeFree(bs, |mem|, bp);
      TagsAt(mem, bs, bp);
      var blockSize := GetSize(Get(HdrP(bp)));
      Delete(bp, free);
      free := free - {bp};
      ghost var m1 := mem;
      TagsAt(mem, bs, bp);
      Delete(Next(bp), free);
      free := free - {n};
      ghost var m2 := mem;
      TagsAt(mem, bs, bp);
      TagsAt(mem, bs, n);
      blockSize := blockSize + GetSize(Get(HdrP(Next(bp))));
      PutBlock(bp, blockSize, false, Merged(bs, bp, false), free);
      ghost var m3 := mem;
      Insert(bp, free);
      LiveIsWithin(blocks);
      KeptChain(m0, m1, m2, m3, mem, live, blocks);
    }

    /** coalesce, free neighbours on both sides. */
    method MergeBoth(bp: int) returns (r: int)
      requires Ok() && bp in blocks && !blocks[bp].alloc
      requires 0 <= bp - DSIZE < |mem|
      requires var p := PrevBlkP(mem, bp); p in blocks && !blocks[p].alloc && p + blocks[p].size == bp
      requires var n := bp + blocks[bp].size; n in blocks && !blocks[n].alloc
      modifies this, seg, region
      ensures Ok() && |mem| == |old(mem)|
      ensures r == old(PrevBlkP(mem, bp)) && blocks == Merged(Merged(old(blocks), r, false), r, false)
      ensures Kept(old(mem), mem, old(Live()))
    {
      hide Tiling, Tags, ListsOk, Kept, Merged, FreeOf, LiveOf, FreeWithin;
      ghost var bs, m0, live := blocks, mem, Live();
      ghost var p := PrevBlkP(mem, bp);
      ghost var n := bp + bs[bp].size;
      ghost var free := FreeOf(bs);
      MergeFreeBoth(bs, |mem|, p);
      TagsAt(mem, bs, bp);
      var blockSize := GetSize(Get(HdrP(bp)));
      Delete(Previous(bp), free);
      free := free - {p};
      ghost var m1 := mem;
      Delete(bp, free);
      free := free - {bp};
      ghost var m2 := mem;
      TagsAt(mem, bs, bp);
      Delete(Next(bp), free);
      free := free - {n};
      ghost var m3 := mem;
      TagsAt(mem, bs, p);
      TagsAt(mem, bs, bp);
      TagsAt(mem, bs, n);
      r := Previous(bp);
      blockSize := blockSize + GetSize(Get(HdrP(r))) + GetSize(Get(HdrP(Next(bp))));
      PutBlock(r, blockSize, false, Merged(Merged(bs, p, false), p, false), free);
      ghost var m4 := mem;
      Insert(r, free);
      LiveIsWithin(blocks);
      KeptTransitive(m0, m1, m2, live);
      KeptChain(m0, m2, m3, m4, mem, live, blocks);
    }

    /** coalesce: join block bp with whichever neighbours are free. */
    method Coalesce(bp: int) returns (r: int)
      requires Ok() && bp in blocks && !blocks[bp].alloc && NoFreePairExcept(blocks, bp)
      modifies this, seg, region
      ensures Valid() && |mem| == |old(mem)|
      ensures Live() == old(Live()) && Kept(old(mem), mem, Live())
      ensures r in blocks && !blocks[r].alloc
      ensures Joined(old(blocks), bp, r, r + blocks[r].size)
    {
      hide Tiling, Tags, ListsOk, Kept, Merged, FreeOf, LiveOf;
      ghost var bs, brk := blocks, |mem|;
      ghost var p := PreviousTag(mem, bs, bp);
      NextTag(mem, bs, bp);
      TagsAt(mem, bs, bp);
      if bp != 16 && !bs[p].alloc {
        CoalesceLeft(bs, brk, p, bp);
      } else {
        CoalesceRight(bs, brk, p, bp);
      }
      var prevIsAlloc := IsAlloc(Get(HdrP(Previous(bp))));
      var nextIsAlloc := IsAlloc(Get(HdrP(Next(bp))));
      if !prevIsAlloc && nextIsAlloc {
        r := MergePrev(bp);
      } else if prevIsAlloc && !nextIsAlloc {
        MergeNext(bp);
        r := bp;
      } else if !prevIsAlloc && !nextIsAlloc {
        r := MergeBoth(bp);
      } else {
        KeptReflexive(mem, Live());
        r := bp;
      }
    }

    /** extend_heap: a new free block at the end of the heap, coalesced with its predecessor. */
    method ExtendHeap(numWords: nat) returns (bp: int)
      requires Valid() && numWords >= 4
      modifies this, seg, region
      ensures Valid() && Live() == old(Live()) && Kept(old(mem), mem, Live())
      ensures var size := (numWords + numWords % 2) * WSIZE;
              && (bp == 0 <==> old(|mem|) + size > region.Length)
              && (bp == 0 ==> mem == old(mem) && blocks == old(blocks) && lists == old(lists))
              && (bp != 0 ==>
                    && |mem| == old(|mem|) + size
                    && bp in blocks && !blocks[bp].alloc && blocks[bp].size >= size
                    && bp + blocks[bp].size == |mem| && TailAt(FreeOf(old(blocks)), old(|mem|), bp))
    {
      hide Tiling, Tags, ListsOk, Kept, FreeOf, LiveOf, NoFreePair, NoFreePairExcept, FreeWithin, Grown, Joined, TailAt;
      ghost var m0, bs, live := mem, blocks, Live();
      KeptReflexive(mem, live);
      var size := (numWords + numWords % 2) * WSIZE;
      EvenWords(numWords);
      HeapBreakAligned(mem, bs);
      var extend := Sbrk(size);
      if extend == -1 {
        return 0;
      }
      AppendBlock(extend, size, m0);
      ghost var m1, bs' := mem, blocks;
      Insert(extend, FreeOf(bs));
      ghost var m2 := mem;
      bp := Coalesce(extend);
      BlockShapeAt(blocks, |mem|, bp);
      GrownTail(bs, bs', extend, size, bp, bp + blocks[bp].size);
      KeptTransitive(m0, m1, m2, live);
      KeptTransitive(m0, m2, mem, live);
    }

    /** The new block over the old epilogue, and a new epilogue behind it. */
    method AppendBlock(extend: int, size: int, ghost m0: seq<int>)
      requires Backed() && size >= 16 && size % 8 == 0
      requires 16 <= extend == |m0| && |mem| == extend + size && mem[..extend] == m0
      requires Tiling(blocks, extend) && Tags(m0, blocks) && ListsOk(m0, seg[..], lists, FreeOf(blocks))
      requires NoFreePair(blocks)
      modifies region, this`mem, this`blocks
      ensures Mid(FreeOf(old(blocks))) && |mem| == |old(mem)| && extend !in FreeOf(old(blocks))
      ensures blocks == old(blocks)[extend := Block(size, false)] && NoFreePairExcept(blocks, extend)
      ensures FreeOf(blocks) == FreeOf(old(blocks))[extend := Block(size, false)] && Live() == old(Live())
      ensures Kept(m0, mem, Live())
    {
      hide Tiling, Tags, ListsOk, Kept, FreeOf, LiveOf, NoFreePair, NoFreePairExcept, FreeWithin, Grown;
      ghost var grown := mem;
      Put(HdrP(extend), Pack(size, false));
      Put(Footer(extend), Pack(size, false));
      Put(HdrP(Next(extend)), Pack(0, true));
      GrownBy(m0, grown, mem, size);
      GrowOk(m0, mem, blocks, size, seg[..], lists);
      blocks := blocks[extend := Block(size, false)];
    }

    /** Where coalesce leaves the new bytes of a grown heap. */
    lemma GrownTail(bs: Blocks, grown: Blocks, brk: int, size: int, bp: int, end: int)
      requires Tiling(bs, brk) && size >= 16 && grown == bs[brk := Block(size, false)] && Joined(grown, brk, bp, end)
      ensures end == brk + size && end - bp >= size && TailAt(FreeOf(bs), brk, bp)
    {
      FreeMembers(bs);
      forall x | x in bs ensures x != brk && x != brk + size {
        BlockShapeAt(bs, brk, x);
      }
      if bp != brk { BlockShapeAt(bs, brk, bp); }
      hide FreeOf, Tiling;
      assert forall x :: x in bs ==> x in grown && grown[x] == bs[x];
    }

    lemma EvenWords(numWords: nat)
      requires numWords >= 4
      ensures var size := (numWords + numWords % 2) * WSIZE; size % 8 == 0 && size >= 16
    {
    }

    lemma HeapBreakAligned(m: seq<int>, bs: Blocks)
      requires Tiling(bs, |m|)
      ensures |m| >= 16 && |m| % 8 == 0
    {
    }

    /** PUT of the four tags of a split block. */
    method WriteSplit(bp: int, first: Block, second: Block, ghost free: Blocks)
      requires Mid(free) && bp in blocks && bp !in free
      requires first.size >= 16 && second.size >= 16 && first.size % 8 == 0 && second.size % 8 == 0
      requires first.size + second.size == blocks[bp].size
      modifies region, this`mem, this`blocks
      ensures Mid(free) && blocks == SplitAt(old(blocks), bp, first, second)
      ensures |mem| == |old(mem)| && Kept(old(mem), mem, old(blocks) - {bp})
    {
      hide Tiling, Tags, ListsOk, Kept, FreeWithin;
      ghost var m0 := mem;
      SplitTagsOk(mem, blocks, bp, first, second, seg[..], lists, free);
      Put(HdrP(bp), Pack(first.size, first.alloc));
      Put(Footer(bp), Pack(first.size, first.alloc));
      assert mem == PutTags(m0, bp, first);
      Put(HdrP(Next(bp)), Pack(second.size, second.alloc));
      Put(Footer(Next(bp)), Pack(second.size, second.alloc));
      assert mem == PutTags(PutTags(m0, bp, first), bp + first.size, second);
      blocks := SplitAt(blocks, bp, first, second);
    }

    /** place: allocate from a free block, splitting off a remainder of more than 16 bytes;
        a request of more than 100 bytes takes the front part, a smaller one the back part. */
    method Place(bp: int, asize: int) returns (r: int)
      requires Valid() && bp in blocks && !blocks[bp].alloc
      requires 16 <= asize <= blocks[bp].size && asize % 8 == 0
      modifies this, seg, region
      ensures Valid() && |mem| == |old(mem)| && Kept(old(mem), mem, old(Live()))
      ensures r !in old(Live()) && r in Live() && Live() == old(Live())[r := Live()[r]]
      ensures Cut(bp, old(blocks)[bp].size, asize, r, Live()[r].size)
    {
      hide Tiling, Tags, ListsOk, Kept, FreeOf, LiveOf, NoFreePair, FreeWithin, Merged;
      ghost var m0, bs, live, free := mem, blocks, Live(), FreeOf(blocks);
      TagsAt(mem, bs, bp);
      BlockShapeAt(bs, |mem|, bp);
      TakeBooks(bs, |mem|, bp);
      var blockSize := GetSize(Get(HdrP(bp)));
      Delete(bp, free);
      free := free - {bp};
      ghost var m1 := mem;
      if blockSize - asize <= 2 * DSIZE {
        PutBlock(bp, blockSize, true, bs[bp := Block(blockSize, true)], free);
        LiveIsWithin(bs);
        KeptSubset(m1, mem, blocks, live) by { LiveSkipsFree(bs, bp); }
        KeptTransitive(m0, m1, mem, live);
        return bp;
      }
      RestShape(blockSize, asize);
      r := SplitOff(bp, asize, blockSize, free);
      KeptTransitive(m0, m1, mem, live);
    }

    /** place, for a block with more than 16 bytes to spare that has left its list. */
    method SplitOff(bp: int, asize: int, blockSize: int, ghost free: Blocks) returns (r: int)
      requires Mid(free) && NoFreePair(blocks) && bp in blocks && blocks[bp] == Block(blockSize, false)
      requires free == FreeOf(blocks) - {bp}
      requires asize >= 16 && asize % 8 == 0 && blockSize - asize > 2 * DSIZE && (blockSize - asize) % 8 == 0
      modifies this, seg, region
      ensures Valid() && |mem| == |old(mem)| && Kept(old(mem), mem, old(Live()))
      ensures r !in old(Live()) && r in Live() && Live() == old(Live())[r := Block(asize, true)]
      ensures if asize > 100 then r == bp else r == bp + blockSize - asize
    {
      hide Tiling, Tags, ListsOk, Kept, FreeOf, LiveOf, NoFreePair, FreeWithin, Merged;
      ghost var m1, bs, live := mem, blocks, Live();
      LiveSkipsFree(bs, bp);
      if asize > 100 {
        SplitFits(bs, |mem|, bp, Block(asize, true), Block(blockSize - asize, false));
        WriteSplit(bp, Block(asize, true), Block(blockSize - asize, false), free);
        ghost var m2 := mem;
        r := bp;
        NextTagOfSplit(mem, blocks, bp);
        Insert(Next(bp), free);
        PlaceKept(m1, m2, mem, bs, bp, live, Live());
      } else {
        SplitFits(bs, |mem|, bp, Block(blockSize - asize, false), Block(asize, true));
        WriteSplit(bp, Block(blockSize - asize, false), Block(asize, true), free);
        ghost var m2 := mem;
        Insert(bp, free);
        PlaceKept(m1, m2, mem, bs, bp, live, Live());
        NextTagOfSplit(mem, blocks, bp);
        r := Next(bp);
      }
    }

    lemma RestShape(size: int, asize: int)
      requires size % 8 == 0 && asize % 8 == 0 && size - asize > 16
      ensures (size - asize) % 8 == 0
    {
    }

    lemma LiveSkipsFree(bs: Blocks, bp: int)
      requires bp in bs && !bs[bp].alloc
      ensures forall a :: a in LiveOf(bs) ==> a in bs - {bp} && a != bp && (bs - {bp})[a] == LiveOf(bs)[a]
    {
    }

    lemma SplitFits(bs: Blocks, brk: int, a: int, first: Block, second: Block)
      requires Tiling(bs, brk) && NoFreePair(bs) && a in bs && !bs[a].alloc
      requires first.size >= 16 && second.size >= 16 && first.size + second.size == bs[a].size
      requires first.size % 8 == 0 && second.size % 8 == 0
      requires first.alloc != second.alloc
      ensures var bs' := SplitAt(bs, a, first, second);
              var m := a + first.size;
              var (taken, rest) := if first.alloc then (a, m) else (m, a);
              && m !in bs && NoFreePair(bs') && Tiling(bs', brk)
              && a in FreeOf(bs) && rest !in FreeOf(bs) - {a}
              && FreeOf(bs') == (FreeOf(bs) - {a})[rest := bs'[rest]]
              && LiveOf(bs') == LiveOf(bs)[taken := bs'[taken]] && taken !in LiveOf(bs)
    {
      SplitKeepsTiling(bs, brk, a, first, second);
      SplitBooks(bs, brk, a, first, second);
    }

    lemma NextTagOfSplit(m: seq<int>, bs: Blocks, bp: int)
      requires Tags(m, bs) && bp in bs
      ensures 16 <= bp && bp < |m| && NextBlkP(m, bp) == bp + bs[bp].size
    {
      TagsAt(m, bs, bp);
    }

    lemma PlaceKept(m1: seq<int>, m2: seq<int>, m3: seq<int>, bs: Blocks, bp: int, live: Blocks, live': Blocks)
      requires Kept(m1, m2, bs - {bp}) && Kept(m2, m3, live')
      requires forall a :: a in live ==> a in bs - {bp} && live[a] == bs[a]
      requires forall a :: a in live ==> a in live' && live[a] == live'[a]
      ensures Kept(m1, m3, live)
    {
      KeptSubset(m1, m2, bs - {bp}, live);
      KeptSubset(m2, m3, live', live);
      KeptTransitive(m1, m2, m3, live);
    }

    /** mm_malloc. NULL means an empty request, or that no free block is large enough
        and the heap cannot grow by the larger of a chunk and the rounded request. */
    method Malloc(size: nat) returns (r: int)
      requires Valid() && size + DSIZE + 7 < ADDRESS_SPACE
      modifies this, seg, region
      ensures Valid() && Kept(old(mem), mem, old(Live()))
      ensures size == 0 ==> r == 0
      ensures r == 0 ==> blocks == old(blocks) && mem == old(mem) && lists == old(lists)
      ensures size > 0 ==> (r == 0 <==> old(Exhausted(AlignedRequest(size))))
      ensures r != 0 ==>
                && r !in old(Live()) && r in Live() && Live() == old(Live())[r := Live()[r]]
                && Served(FreeOf(old(blocks)), old(lists), |old(mem)|, |mem|, AlignedRequest(size), r, Live()[r].size)
                && size + DSIZE <= AlignedRequest(size) <= Live()[r].size <= AlignedRequest(size) + 16
    {
      hide Tiling, Tags, ListsOk, Kept, LiveOf, NoFreePair;
      if size == 0 {
        KeptReflexive(mem, Live());
        return 0;
      }
      ghost var m0, live := mem, Live();
      AlignedRequestExact(size);
      hide AlignedRequest;
      var alignSize := AlignedRequest(size);
      var bp := FindFit(alignSize);
      if bp != 0 {
        r := Place(bp, alignSize);
        LiveInHeap(blocks, |mem|, r);
        return r;
      }
      var extendSize := Extension(alignSize);
      WholeWords(extendSize);
      bp := ExtendHeap(extendSize / WSIZE);
      if bp == 0 {
        return 0;
      }
      ghost var m1 := mem;
      r := Place(bp, alignSize);
      KeptTransitive(m0, m1, mem, live);
      LiveInHeap(blocks, |mem|, r);
    }

    lemma WholeWords(size: int)
      requires size % 8 == 0 && size >= 16
      ensures var w := size / WSIZE; w >= 4 && (w + w % 2) * WSIZE == size
    {
    }

    lemma LiveInHeap(bs: Blocks, brk: int, a: int)
      requires Tiling(bs, brk) && a in LiveOf(bs)
      ensures a in bs && bs[a] == LiveOf(bs)[a] && bs[a].alloc && BlockShape(a, bs[a], brk)
    {
    }

    /** mm_free. */
    method Free(ptr: int)
      requires Valid() && ptr in Live()
      modifies this, seg, region
      ensures Valid() && |mem| == |old(mem)|
      ensures Live() == old(Live()) - {ptr}
      ensures Kept(old(mem), mem, Live())
    {
      hide Tiling, Tags, ListsOk, Kept, FreeOf, LiveOf, NoFreePair, NoFreePairExcept, FreeWithin, Joined;
      ghost var m0, bs, free := mem, blocks, FreeOf(blocks);
      LiveInHeap(bs, |mem|, ptr);
      TagsAt(mem, bs, ptr);
      GiveBooks(bs, |mem|, ptr);
      ghost var bs' := bs[ptr := Block(bs[ptr].size, false)];
      PutTagsFinish(mem, bs, bs', ptr, seg[..], lists, free);
      Put(HdrP(ptr), Pack(GetSize(Get(HdrP(ptr))), false));
      Put(Footer(ptr), Pack(GetSize(Get(Footer(ptr))), false));
      assert mem == PutTags(m0, ptr, bs'[ptr]);
      blocks := bs';
      ghost var m1 := mem;
      LiveIsWithin(bs');
      KeptSubset(m0, m1, bs', LiveOf(bs'));
      Insert(ptr, free);
      ghost var m2 := mem;
      ghost var r := Coalesce(ptr);
      KeptTransitive(m0, m1, m2, LiveOf(bs'));
      KeptTransitive(m0, m2, mem, LiveOf(bs'));
    }

    /** memmove: copied upwards or downwards, so that no source word is overwritten unread. */
    method Memmove(dst: int, src: int, n: nat)
      requires Backed() && 0 <= dst && 0 <= src && dst + n <= |mem| && src + n <= |mem|
      modifies region, this`mem
      ensures Backed() && |mem| == |old(mem)| && Copied(old(mem), src, mem, dst, n)
      ensures forall p :: 0 <= p < |mem| && !(dst <= p < dst + n) ==> mem[p] == old(mem)[p]
      ensures mem == Moved(old(mem), dst, src, n)
    {
      hide Moved, Copied;
      ghost var m0 := mem;
      NothingMoved(m0, dst, src);
      NothingMoved(m0, dst + n, src + n);
      if dst <= src {
        var i := 0;
        while i < n
          invariant Backed() && 0 <= i <= n && |mem| == |m0| && mem == Moved(m0, dst, src, i)
        {
          MovedUp(m0, dst, src, i);
          Put(dst + i, Get(src + i));
          i := i + 1;
        }
      } else {
        var i := n;
        while i > 0
          invariant Backed() && 0 <= i <= n && |mem| == |m0| && mem == Moved(m0, dst + i, src + i, n - i)
        {
          MovedDown(m0, dst, src, n, i);
          i := i - 1;
          Put(dst + i, Get(src + i));
        }
      }
      MovedIsCopied(m0, dst, src, n);
    }

    /** The program writes into a block it holds: no other payload and no tag changes. */
    method Store(ptr: int, p: int, value: int)
      requires Valid() && ptr in Live() && ptr <= p < ptr + Live()[ptr].size - DSIZE && p % WSIZE == 0
      modifies region, this`mem
      ensures Valid() && Live() == old(Live()) && Kept(old(mem), mem, Live() - {ptr})
      ensures p < |old(mem)| && mem == old(mem)[p := value]
    {
      hide Tiling, Tags, ListsOk, Kept, FreeOf, LiveOf, NoFreePair;
      StoreOk(mem, blocks, ptr, p, value, seg[..], lists);
      Put(p, value);
    }

    /** realloc's first way to grow: take over the free successor, in place. */
    method AbsorbNext(ptr: int, total: int)
      requires Valid() && ptr in Live()
      requires var n := ptr + Live()[ptr].size;
        n in FreeOf(blocks) && total == Live()[ptr].size + FreeOf(blocks)[n].size
      modifies this, seg, region
      ensures Valid() && |mem| == |old(mem)| && Kept(old(mem), mem, old(Live()))
      ensures Live() == old(Live())[ptr := Block(total, true)]
      ensures FreeOf(blocks) == FreeOf(old(blocks)) - {ptr + old(Live())[ptr].size}
    {
      hide Tiling, Tags, ListsOk, Kept, FreeOf, LiveOf, NoFreePair, FreeWithin, Merged;
      ghost var m0, bs, live, free := mem, blocks, Live(), FreeOf(blocks);
      FreeMembers(bs);
      LiveMembers(bs);
      ghost var n := ptr + bs[ptr].size;
      AbsorbNextBooks(bs, |mem|, ptr);
      BlockShapeAt(bs, |mem|, n);
      TagsAt(mem, bs, ptr);
      Delete(Next(ptr), free);
      ghost var m1 := mem;
      PutBlock(ptr, total, true, Merged(bs, ptr, true), free - {n});
      LiveMembers(blocks);
      KeptShrink(m1, mem, blocks, live);
      KeptTransitive(m0, m1, mem, live);
    }

    /** realloc's second way to grow: slide down over the free predecessor, taking the
        free successor too only when the predecessor alone is not enough. */
    method SlideDown(ptr: int, ghost p: int, asize: int, total: int) returns (r: int)
      requires Valid() && ptr in Live() && asize > Live()[ptr].size && asize % 8 == 0
      requires 8 <= ptr < |mem| && p == PrevBlkP(mem, ptr) && p in FreeOf(blocks) && p + FreeOf(blocks)[p].size == ptr
      requires var n := ptr + Live()[ptr].size;
               var nextSize := if n in FreeOf(blocks) then FreeOf(blocks)[n].size else 0;
               total == Live()[ptr].size + FreeOf(blocks)[p].size + nextSize >= asize
      modifies this, seg, region
      ensures Valid() && r !in old(Live()) && r in Live() && r == p
      ensures var (free, n) := (FreeOf(old(blocks)), ptr + old(Live())[ptr].size);
              var spare := n in free && total - free[n].size >= asize;
              && Live() == (old(Live()) - {ptr})[r := Block(if spare then total - free[n].size else total, true)]
              && FreeOf(blocks) == if spare || n !in free then free - {r} else free - {r} - {n}
      ensures |mem| == |old(mem)| && Kept(old(mem), mem, old(Live()) - {ptr})
      ensures var n := old(Live())[ptr].size - 8;
              0 <= r && r + n <= |mem| && 0 <= ptr && ptr + n <= |mem| && Copied(old(mem), ptr, mem, r, n)
    {
      hide Tiling, Tags, ListsOk, Kept, FreeOf, LiveOf, NoFreePair, FreeWithin, Merged, Copied;
      ghost var m0, live := mem, Live();
      LiveMembers(blocks);
      ghost var free, bs';
      var addSize;
      addSize, free, bs' := DropNeighbours(ptr, p, asize, total);
      ghost var m2 := mem;
      r := FinishSlide(ptr, p, addSize, bs', free);
      KeptSubset(m0, m2, live, live - {ptr});
      KeptTransitive(m0, m2, mem, live - {ptr});
      KeptThenCopied(m0, m2, mem, live, ptr, live[ptr].size - 8, r);
    }

    /** The list deletions that begin a slide, and the size of the block to build. */
    method DropNeighbours(ptr: int, ghost p: int, asize: int, total: int)
        returns (addSize: int, ghost free: Blocks, ghost bs': Blocks)
      requires Valid() && ptr in Live() && 8 <= ptr < |mem| && asize > Live()[ptr].size
      requires p == PrevBlkP(mem, ptr) && p in FreeOf(blocks) && p + FreeOf(blocks)[p].size == ptr
      requires var n := ptr + Live()[ptr].size;
               var nextSize := if n in FreeOf(blocks) then FreeOf(blocks)[n].size else 0;
               total == Live()[ptr].size + FreeOf(blocks)[p].size + nextSize >= asize
      modifies region, this`mem, this`lists, seg
      ensures Mid(free) && |mem| == |old(mem)| && Kept(old(mem), mem, Live())
      ensures var (all, n) := (FreeOf(old(blocks)), ptr + Live()[ptr].size);
              var spare := n in all && total - all[n].size >= asize;
              && addSize == (if spare then total - all[n].size else total)
              && free == if spare || n !in all then all - {p} else all - {p} - {n}
      ensures addSize >= asize && PrevBlkP(mem, ptr) == p
      ensures SlidePlan(blocks, bs', |mem|, free, p, ptr, addSize)
    {
      hide Tiling, Tags, ListsOk, Kept, FreeOf, LiveOf, NoFreePair, FreeWithin, Merged, SlidePlan;
      ghost var m0, bs, live := mem, blocks, Live();
      free := FreeOf(bs);
      FreeMembers(bs);
      LiveMembers(bs);
      ghost var n := ptr + bs[ptr].size;
      PlanPrev(bs, |mem|, p);
      addSize := total;
      Delete(Previous(ptr), free);
      free := free - {p};
      bs' := Merged(bs, p, true);
      ghost var m1 := mem;
      NextTag(mem, bs, ptr);
      TagsAt(mem, bs, ptr);
      if !IsAlloc(Get(HdrP(Next(ptr)))) {
        if addSize - GetSize(Get(HdrP(Next(ptr)))) < asize {
          PlanBoth(bs, |mem|, p);
          bs' := Merged(Merged(bs, ptr, true), p, true);
          Delete(Next(ptr), free);
          free := free - {n};
          KeptTransitive(m0, m1, mem, live);
        } else {
          addSize := addSize - GetSize(Get(HdrP(Next(ptr))));
        }
      }
      TagsAt(mem, bs, p);
    }

    /** The move and the retagging that end a slide. */
    method FinishSlide(ptr: int, ghost p: int, addSize: int, ghost bs': Blocks, ghost free: Blocks) returns (r: int)
      requires Mid(free) && SlidePlan(blocks, bs', |mem|, free, p, ptr, addSize)
      requires 8 <= ptr < |mem| && PrevBlkP(mem, ptr) == p
      modifies region, this`mem, this`blocks
      ensures Valid() && |mem| == |old(mem)| && r == p
      ensures blocks == bs' && Kept(old(mem), mem, old(Live()) - {ptr})
      ensures ptr in old(blocks)
      ensures var n := old(blocks)[ptr].size - 8;
              0 <= r && r + n <= |mem| && 0 <= ptr && ptr + n <= |mem| && Copied(old(mem), ptr, mem, r, n)
    {
      hide Tiling, Tags, ListsOk, Kept, FreeOf, LiveOf, NoFreePair, FreeWithin, Copied, Moved;
      ghost var m0 := mem;
      SlideOk(mem, blocks, bs', free, p, ptr, addSize, seg[..], lists);
      var curSize := GetSize(Get(HdrP(ptr)));
      r := Previous(ptr);
      Memmove(r, ptr, curSize);
      ghost var m1 := mem;
      Put(HdrP(r), Pack(addSize, true));
      Put(Footer(r), Pack(addSize, true));
      assert mem == PutTags(m1, r, Block(addSize, true));
      blocks := bs';
    }

    /** mm_realloc. The result is NULL exactly when a fresh block was needed and malloc
        failed, or the request is empty; otherwise the whole old payload is found at the
        result, whichever way the block was grown. */
    method Realloc(ptr: int, size: nat) returns (r: int)
      requires Valid() && (ptr == 0 || ptr in Live())
      requires size + 3 * DSIZE <= ADDRESS_SPACE
      modifies this, seg, region
      ensures Valid() && Kept(old(mem), mem, old(Live()) - {ptr})
      ensures ptr == 0 ==> (r == 0 <==> size == 0 || old(Exhausted(AlignedRequest(size))))
      ensures ptr != 0 && size == 0 ==> r == 0 && Live() == old(Live()) - {ptr} && |mem| == |old(mem)|
      ensures (ptr == 0 || size > 0) && r == 0 ==> mem == old(mem) && blocks == old(blocks) && lists == old(lists)
      ensures r != 0 ==>
                && r in Live() && r !in old(Live()) - {ptr} && Live() == (old(Live()) - {ptr})[r := Live()[r]]
                && Live()[r].size >= size + DSIZE
                && (ptr == 0 ==>
                      Served(FreeOf(old(blocks)), old(lists), |old(mem)|, |mem|, AlignedRequest(size), r,
                        Live()[r].size))
      ensures ptr != 0 && r != 0 ==>
                var n := old(Live())[ptr].size - DSIZE;
                && Live()[r].size - DSIZE >= n
                && 0 <= r && r + n <= |mem| && 0 <= ptr && ptr + n <= |old(mem)| && Copied(old(mem), ptr, mem, r, n)
      ensures ptr != 0 && size > 0 ==>
                && 8 <= ptr < old(|mem|) && AlignedRequest(size) >= size + DSIZE
                && (old(Live())[ptr].size >= AlignedRequest(size) ==>
                      r == ptr && mem == old(mem) && blocks == old(blocks) && lists == old(lists))
                && Regrown(old(blocks), old(lists), |old(mem)|, region.Length, PrevBlkP(old(mem), ptr), ptr,
                     AlignedRequest(size), r, blocks, |mem|)
    {
      hide Tiling, Tags, ListsOk, Kept, FreeOf, LiveOf, NoFreePair, FreeWithin, Merged, Copied;
      if ptr == 0 {
        NullIsNoBlock(blocks, |mem|);
        r := Malloc(size);
        return r;
      } else if size == 0 {
        LiveInHeap(blocks, |mem|, ptr);
        Free(ptr);
        return 0;
      }
      AlignedRequestExact(size);
      hide AlignedRequest;
      r := Regrow(ptr, AlignedRequest(size));
    }

    /** The part of mm_realloc after its trivial cases: `asize` is the rounded request. */
    method Regrow(ptr: int, asize: nat) returns (r: int)
      requires Valid() && ptr in Live() && asize % 8 == 0
      requires asize + DSIZE + 7 < ADDRESS_SPACE
      modifies this, seg, region
      ensures Valid() && Kept(old(mem), mem, old(Live()) - {ptr})
      ensures r == 0 ==> mem == old(mem) && blocks == old(blocks) && lists == old(lists)
      ensures r != 0 ==>
                && r in Live() && r !in old(Live()) - {ptr} && Live() == (old(Live()) - {ptr})[r := Live()[r]]
                && Live()[r].size >= asize
                && var n := old(Live())[ptr].size - DSIZE;
                && Live()[r].size - DSIZE >= n
                && 0 <= r && r + n <= |mem| && 0 <= ptr && ptr + n <= |old(mem)| && Copied(old(mem), ptr, mem, r, n)
      ensures 8 <= ptr < old(|mem|)
      ensures old(Live())[ptr].size >= asize ==> mem == old(mem) && lists == old(lists)
      ensures Regrown(old(blocks), old(lists), |old(mem)|, region.Length, PrevBlkP(old(mem), ptr), ptr, asize, r,
                blocks, |mem|)
    {
      hide Tiling, Tags, ListsOk, Kept, FreeOf, LiveOf, NoFreePair, FreeWithin, Merged, Copied, Backed;
      ghost var m0, bs, live := mem, blocks, Live();
      FreeMembers(bs);
      LiveMembers(bs);
      LiveInHeap(bs, |mem|, ptr);
      TagsAt(mem, bs, ptr);
      NextTag(mem, bs, ptr);
      KeptReflexive(mem, live - {ptr});
      var curSize := GetSize(Get(HdrP(ptr)));
      if curSize >= asize {
        KeptReflexive(mem, live);
        CopiedInPlace(m0, mem, live, ptr);
        assert live == (live - {ptr})[ptr := live[ptr]];
        return ptr;
      }
      var addSize := curSize;
      if !IsAlloc(Get(HdrP(Next(ptr)))) {
        addSize := addSize + GetSize(Get(HdrP(Next(ptr))));
        if addSize >= asize {
          AbsorbNext(ptr, addSize);
          CopiedInPlace(m0, mem, live, ptr);
          KeptSubset(m0, mem, live, live - {ptr});
          assert Live() == (live - {ptr})[ptr := Live()[ptr]];
          return ptr;
        }
      }
      r := RegrowElsewhere(ptr, asize, curSize, addSize);
    }

    /** What is left when the block and its successor are too small: down over the free
        predecessor, or a fresh block. */
    method RegrowElsewhere(ptr: int, asize: nat, curSize: int, addSize: int) returns (r: int)
      requires Valid() && ptr in Live() && asize % 8 == 0 && asize + DSIZE + 7 < ADDRESS_SPACE
      requires curSize == Live()[ptr].size < asize && addSize < asize && 8 <= ptr < |mem|
      requires var free := FreeOf(blocks);
        addSize == curSize + if ptr + curSize in free then free[ptr + curSize].size else 0
      modifies this, seg, region
      ensures Valid() && Kept(old(mem), mem, old(Live()) - {ptr})
      ensures r == 0 ==> mem == old(mem) && blocks == old(blocks) && lists == old(lists)
      ensures r != 0 ==>
                && r in Live() && r !in old(Live()) - {ptr} && Live() == (old(Live()) - {ptr})[r := Live()[r]]
                && Live()[r].size >= asize
                && var n := curSize - DSIZE;
                && Live()[r].size - DSIZE >= n
                && 0 <= r && r + n <= |mem| && 0 <= ptr && ptr + n <= |old(mem)| && Copied(old(mem), ptr, mem, r, n)
      ensures Regrown(old(blocks), old(lists), |old(mem)|, region.Length, PrevBlkP(old(mem), ptr), ptr, asize, r,
                blocks, |mem|)
    {
      hide Tiling, Tags, ListsOk, Kept, FreeOf, LiveOf, NoFreePair, FreeWithin, Merged, Copied, Backed;
      ghost var bs := blocks;
      FreeMembers(bs);
      LiveMembers(bs);
      ghost var p := PreviousTag(mem, bs, ptr);
      if ptr != 16 { BlockShapeAt(bs, |mem|, p); } else { NullIsNoBlock(bs, |mem|); }
      if ptr + curSize in bs { BlockShapeAt(bs, |mem|, ptr + curSize); }
      hide AlignedRequest, Extension, NoneFits, Served, Regrown;
      ghost var brk, ls := |mem|, lists;
      if !IsAlloc(Get(HdrP(Previous(ptr)))) {
        var total := addSize + GetSize(Get(HdrP(Previous(ptr))));
        if total >= asize {
          r := SlideDown(ptr, p, asize, total);
          LiveInHeap(blocks, |mem|, r);
          SlidIsRegrown(bs, ls, brk, region.Length, p, ptr, asize, blocks, total);
          return r;
        }
      }
      r := MoveToFresh(ptr, asize, curSize);
      MovedIsRegrown(bs, ls, brk, region.Length, p, ptr, asize, r, blocks, |mem|);
    }

    lemma SlidIsRegrown(bs: Blocks, ls: seq<seq<int>>, brk: int, limit: int, p: int, ptr: int, need: nat, bs': Blocks,
        total: int)
      requires ptr in LiveOf(bs) && p in FreeOf(bs) && p + FreeOf(bs)[p].size == ptr && FreeOf(bs)[p].size > 0
      requires var (live, free, n) := (LiveOf(bs), FreeOf(bs), ptr + LiveOf(bs)[ptr].size);
               var next := if n in free then free[n].size else 0;
               var spare := n in free && total - next >= need;
               && live[ptr].size < need && live[ptr].size + next < need
               && total == live[ptr].size + free[p].size + next >= need
               && LiveOf(bs') == (live - {ptr})[p := Block(if spare then total - next else total, true)]
               && FreeOf(bs') == if spare || n !in free then free - {p} else free - {p} - {n}
      ensures Regrown(bs, ls, brk, limit, p, ptr, need, p, bs', brk)
    {
      hide FreeOf, LiveOf;
    }

    lemma MovedIsRegrown(bs: Blocks, ls: seq<seq<int>>, brk: int, limit: int, p: int, ptr: int, need: nat, r: int,
        bs': Blocks, brk': int)
      requires ptr in LiveOf(bs) && LiveOf(bs)[ptr].size < need
      requires var (live, free, n) := (LiveOf(bs), FreeOf(bs), ptr + LiveOf(bs)[ptr].size);
               var next := if n in free then free[n].size else 0;
               var prev := if p in free && p + free[p].size == ptr then free[p].size else 0;
               && next >= 0 && live[ptr].size + next < need && (prev > 0 ==> live[ptr].size + next + prev < need)
               && (r == 0 <==> NoneFits(free, AlignedRequest(need)) && brk + Extension(AlignedRequest(need)) > limit)
               && (r == 0 ==> bs' == bs && brk' == brk)
               && (r != 0 ==>
                     && r in LiveOf(bs') && r !in live && LiveOf(bs') == (live - {ptr})[r := LiveOf(bs')[r]]
                     && Served(free, ls, brk, brk', AlignedRequest(need), r, LiveOf(bs')[r].size))
      ensures Regrown(bs, ls, brk, limit, p, ptr, need, r, bs', brk')
    {
      hide FreeOf, LiveOf, NoneFits, AlignedRequest, Extension, Served;
    }

    lemma NullIsNoBlock(bs: Blocks, brk: int)
      requires Tiling(bs, brk)
      ensures 0 !in bs && 8 !in bs && 0 !in LiveOf(bs) && LiveOf(bs) - {0} == LiveOf(bs)
    {
      assert 0 in bs ==> BlockShape(0, bs[0], brk);
      assert 8 in bs ==> BlockShape(8, bs[8], brk);
    }

    /** realloc's last resort: a fresh block, a copy, and a free. */
    method MoveToFresh(ptr: int, asize: nat, curSize: int) returns (r: int)
      requires Valid() && ptr in Live() && curSize == Live()[ptr].size < asize
      requires asize + DSIZE + 7 < ADDRESS_SPACE
      modifies this, seg, region
      ensures Valid() && Kept(old(mem), mem, old(Live()) - {ptr})
      ensures r == 0 <==> old(Exhausted(AlignedRequest(asize)))
      ensures r == 0 ==> blocks == old(blocks) && mem == old(mem) && lists == old(lists)
      ensures r != 0 ==>
                && r in Live() && r !in old(Live()) && Live() == (old(Live()) - {ptr})[r := Live()[r]]
                && Served(FreeOf(old(blocks)), old(lists), |old(mem)|, |mem|, AlignedRequest(asize), r, Live()[r].size)
                && Live()[r].size >= asize + DSIZE
                && var n := curSize - DSIZE;
                0 <= r && r + n <= |mem| && 0 <= ptr && ptr + n <= |old(mem)| && Copied(old(mem), ptr, mem, r, n)
    {
      hide Tiling, Tags, ListsOk, Kept, FreeOf, LiveOf, NoFreePair, FreeWithin, Copied, AlignedRequest;
      ghost var m0, live := mem, Live();
      LiveInHeap(blocks, |mem|, ptr);
      r := Malloc(asize);
      ghost var m1, live1 := mem, Live();
      KeptSubset(m0, m1, live, live - {ptr});
      if r == 0 {
        return 0;
      }
      var copySize := if asize < curSize then asize else curSize;
      MoveIntoOk(mem, blocks, r, ptr, copySize, seg[..], lists);
      Memmove(r, ptr, copySize);
      ghost var m2 := mem;
      Free(ptr);
      assert Live() == (live - {ptr})[r := live1[r]];
      LiveInHeap(blocks, |mem|, r);
      FreshKept(m0, m1, m2, mem, live, live1, Live(), ptr, r);
      CopiedThenKept(m0, m1, m2, mem, live, ptr, curSize - DSIZE, Live(), r);
    }

    lemma FreshKept(m0: seq<int>, m1: seq<int>, m2: seq<int>, m3: seq<int>,
                    live: Blocks, live1: Blocks, live3: Blocks, ptr: int, r: int)
      requires Kept(m0, m1, live) && Kept(m1, m2, live1 - {r}) && Kept(m2, m3, live3)
      requires r !in live && r in live1 && live1 == live[r := live1[r]] && live3 == live1 - {ptr}
      ensures Kept(m0, m3, live - {ptr})
    {
      KeptSubset(m0, m1, live, live - {ptr});
      KeptSubset(m1, m2, live1 - {r}, live - {ptr});
      KeptSubset(m2, m3, live3, live - {ptr});
      KeptTransitive(m0, m1, m2, live - {ptr});
      KeptTransitive(m0, m2, m3, live - {ptr});
    }

    lemma LiveIsWithin(bs: Blocks)
      ensures forall a :: a in LiveOf(bs) ==> a in bs && bs[a] == LiveOf(bs)[a]
    {
    }

    lemma KeptChain(m0: seq<int>, m1: seq<int>, m2: seq<int>, m3: seq<int>, m4: seq<int>,
                    live: Blocks, all: Blocks)
      requires Kept(m0, m1, live) && Kept(m1, m2, live) && Kept(m2, m3, all) && Kept(m3, m4, live)
      requires forall a :: a in live ==> a in all && live[a] == all[a]
      ensures Kept(m0, m4, live)
    {
      KeptSubset(m2, m3, all, live);
      KeptTransitive(m0, m1, m2, live);
      KeptTransitive(m0, m2, m3, live);
      KeptTransitive(m0, m3, m4, live);
    }
  }
}
