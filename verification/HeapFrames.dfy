/** What a write to a tag or to a link word can and cannot change. */
module HeapFrames {
  import opened HeapLayout
  import opened FreeLists

  /** Tags hold for every block outside `open`, whose tags are being rewritten. */
  ghost predicate TagsExcept(mem: seq<int>, bs: Blocks, open: set<int>) {
    && |mem| >= 16
    && mem[4] == 9 && mem[8] == 9
    && mem[|mem| - 4] == 1
    && forall a {:trigger BlockTags(mem, a, bs[a])} :: a in bs && a !in open ==> BlockTags(mem, a, bs[a])
  }

  /** The payload words of every block in `bs` are the same in both memories. */
  ghost predicate Kept(mem: seq<int>, mem': seq<int>, bs: Blocks) {
    && |mem| <= |mem'|
    && forall a, p :: a in bs && 0 <= a <= p < a + bs[a].size - 8 && p < |mem| ==> mem'[p] == mem[p]
  }

  /** Every block named in `free` is a free block of the tiling. */
  ghost predicate FreeWithin(free: Blocks, bs: Blocks) {
    forall x :: x in free ==> x in bs && bs[x] == free[x] && !free[x].alloc
  }

  /** Writing one block's header and footer. */
  ghost function PutTags(mem: seq<int>, a: int, b: Block): seq<int>
    requires 16 <= a && b.size >= 16 && b.size % 8 == 0 && a + b.size <= |mem|
  {
    mem[a - 4 := Pack(b.size, b.alloc)][a + b.size - 8 := Pack(b.size, b.alloc)]
  }

  lemma PutTagsCloses(mem: seq<int>, bs: Blocks, a: int, open: set<int>)
    requires Tiling(bs, |mem|) && a in bs && TagsExcept(mem, bs, open)
    ensures TagsExcept(PutTags(mem, a, bs[a]), bs, open - {a})
  {
    var m := PutTags(mem, a, bs[a]);
    forall x | x in bs && x !in open - {a} ensures BlockTags(m, x, bs[x]) {
      if x != a {
        assert BlockTags(mem, x, bs[x]);
        assert Apart(bs, a, x);
      }
    }
  }

  lemma PutTagsKeepsPayloads(mem: seq<int>, bs: Blocks, a: int)
    requires Tiling(bs, |mem|) && a in bs
    ensures Kept(mem, PutTags(mem, a, bs[a]), bs)
  {
    var m := PutTags(mem, a, bs[a]);
    forall x, p | x in bs && 0 <= x <= p < x + bs[x].size - 8 && p < |mem| ensures m[p] == mem[p] {
      assert Apart(bs, a, x);
    }
  }

  /** Writing both tags of one block of a tiling, seen from the lists. */
  lemma PutTagsOk(mem: seq<int>, bs: Blocks, a: int, open: set<int>,
                  seg: seq<int>, lists: seq<seq<int>>, free: Blocks)
    requires Tiling(bs, |mem|) && a in bs && TagsExcept(mem, bs, open)
    requires ListsOk(mem, seg, lists, free) && FreeWithin(free, bs)
    ensures var m := PutTags(mem, a, bs[a]);
            && TagsExcept(m, bs, open - {a})
            && Kept(mem, m, bs)
            && ListsOk(m, seg, lists, free)
  {
    var m := PutTags(mem, a, bs[a]);
    PutTagsCloses(mem, bs, a, open);
    PutTagsKeepsPayloads(mem, bs, a);
    KeptLinks(mem, m, bs, free);
    ListsFrame(mem, m, seg, lists, free);
  }

  /** Memories that agree on all payloads agree on the free blocks' links. */
  lemma KeptLinks(mem: seq<int>, mem': seq<int>, bs: Blocks, free: Blocks)
    requires Tiling(bs, |mem|) && Kept(mem, mem', bs) && FreeWithin(free, bs)
    ensures AgreeOnLinks(mem, mem', free)
  {
    forall x | x in free && 0 <= x && x + 8 <= |mem|
      ensures mem'[x] == mem[x] && mem'[x + 4] == mem[x + 4]
    {
      assert x in bs && BlockShape(x, bs[x], |mem|);
    }
  }

  lemma LinkWritesKeepTags(mem: seq<int>, mem': seq<int>, bs: Blocks, free: Blocks, open: set<int>)
    requires Tiling(bs, |mem|) && TagsExcept(mem, bs, open)
    requires AgreeOutside(mem, mem', free) && FreeWithin(free, bs)
    ensures TagsExcept(mem', bs, open)
  {
    assert 0 !in bs && 4 !in bs && 8 !in bs && |mem| - 4 !in bs && |mem| - 8 !in bs;
    assert mem'[4] == mem[4] && mem'[8] == mem[8] && mem'[|mem| - 4] == mem[|mem| - 4];
    forall a | a in bs && a !in open ensures BlockTags(mem', a, bs[a]) {
      assert BlockTags(mem, a, bs[a]);
      TagCellsAreNoLinks(bs, |mem|, free, a);
    }
  }

  lemma TagCellsAreNoLinks(bs: Blocks, brk: int, free: Blocks, a: int)
    requires Tiling(bs, brk) && FreeWithin(free, bs) && a in bs
    ensures a - 4 !in free && a - 8 !in free
    ensures var f := a + bs[a].size - 8; f !in free && f - 4 !in free
  {
    forall x | x in bs && x != a
      ensures x != a - 4 && x != a - 8 && x != a + bs[a].size - 8 && x != a + bs[a].size - 12
    {
      assert Apart(bs, a, x);
    }
  }

  lemma PayloadWordIsNoForeignLink(bs: Blocks, brk: int, free: Blocks, a: int, p: int)
    requires Tiling(bs, brk) && FreeWithin(free, bs) && a in bs && a !in free
    requires a <= p < a + bs[a].size - 8
    ensures p !in free && p - 4 !in free
  {
    forall x | x in free ensures x != p && x != p - 4 {
      assert x in bs;
      assert Apart(bs, a, x);
    }
  }

  lemma LinkWritesKeepPayloads(mem: seq<int>, mem': seq<int>, bs: Blocks, free: Blocks, kept: Blocks)
    requires Tiling(bs, |mem|) && AgreeOutside(mem, mem', free)
    requires FreeWithin(free, bs)
    requires forall a :: a in kept ==> a in bs && bs[a].alloc && kept[a] == bs[a]
    ensures Kept(mem, mem', kept)
  {
    forall a, p | a in kept && 0 <= a <= p < a + kept[a].size - 8 && p < |mem| ensures mem'[p] == mem[p] {
      PayloadWordIsNoForeignLink(bs, |mem|, free, a, p);
    }
  }

  lemma KeptTransitive(m0: seq<int>, m1: seq<int>, m2: seq<int>, bs: Blocks)
    requires Kept(m0, m1, bs) && Kept(m1, m2, bs)
    ensures Kept(m0, m2, bs)
  {
  }

  lemma KeptSubset(m0: seq<int>, m1: seq<int>, bs: Blocks, sub: Blocks)
    requires Kept(m0, m1, bs)
    requires forall a :: a in sub ==> a in bs && sub[a] == bs[a]
    ensures Kept(m0, m1, sub)
  {
  }

  /** Link writes into free blocks keep all tags and all live payloads. */
  lemma LinkWritesOk(mem: seq<int>, mem': seq<int>, bs: Blocks, free: Blocks)
    requires Tiling(bs, |mem|) && Tags(mem, bs)
    requires AgreeOutside(mem, mem', free) && FreeWithin(free, bs)
    ensures Tags(mem', bs) && Kept(mem, mem', LiveOf(bs))
  {
    LinkWritesKeepTags(mem, mem', bs, free, {});
    LinkWritesKeepPayloads(mem, mem', bs, free, LiveOf(bs));
  }

  /** Rewriting the tags of the one block whose tags do not fit its record. */
  lemma PutTagsFinish(mem: seq<int>, bs: Blocks, bs': Blocks, a: int,
                      seg: seq<int>, lists: seq<seq<int>>, free: Blocks)
    requires Tags(mem, bs) && Tiling(bs', |mem|) && a in bs'
    requires forall x :: x in bs' && x != a ==> x in bs && bs[x] == bs'[x]
    requires ListsOk(mem, seg, lists, free) && FreeWithin(free, bs')
    ensures var m := PutTags(mem, a, bs'[a]);
            Tags(m, bs') && ListsOk(m, seg, lists, free) && Kept(mem, m, bs')
  {
    PutTagsOk(mem, bs', a, {a}, seg, lists, free);
  }

  /** What `insert` reads about block bp, and what its pointer writes establish. */
  lemma InsertOk(mem: seq<int>, seg: seq<int>, lists: seq<seq<int>>, bs: Blocks, free: Blocks, bp: int)
    requires Tiling(bs, |mem|) && Tags(mem, bs) && ListsOk(mem, seg, lists, free) && FreeWithin(free, bs)
    requires bp in bs && !bs[bp].alloc && bp !in free
    ensures 16 <= bp && bp + 16 <= |mem| && GetSize(mem[bp - 4]) == bs[bp].size >= 16
    ensures |seg| == |lists| == NUM_SEGLIST
    ensures var c := Class(bs[bp].size);
            var l := lists[c];
            && seg[c] == At(l, 0)
            && (l != [] ==> 0 < l[0] && l[0] + 8 <= |mem|)
            && var m := PushLinks(mem, l, bp);
            && |m| == |mem| && Tags(m, bs) && Kept(mem, m, LiveOf(bs))
            && FreeWithin(free[bp := bs[bp]], bs)
            && ListsOk(m, seg[c := bp], lists[c := [bp] + l], free[bp := bs[bp]])
  {
    hide Tiling, Tags, Linked, LinkOk, Filed, Kept;
    TagsAt(mem, bs, bp);
    BlockShapeAt(bs, |mem|, bp);
    PushOk(mem, seg, lists, free, bp, bs[bp]);
    FiledHasAllLists(lists, free);
    assert FreeWithin(free[bp := bs[bp]], bs);
    LinkWritesOk(mem, PushLinks(mem, lists[Class(bs[bp].size)], bp), bs, free[bp := bs[bp]]);
  }

  lemma BlockShapeAt(bs: Blocks, brk: int, a: int)
    requires Tiling(bs, brk) && a in bs
    ensures BlockShape(a, bs[a], brk)
  {
  }

  lemma FiledHasAllLists(lists: seq<seq<int>>, free: Blocks)
    requires Filed(lists, free)
    ensures |lists| == NUM_SEGLIST
  {
  }

  /** What `delete` reads about block bp, and what its pointer writes establish. */
  lemma DeleteOk(mem: seq<int>, seg: seq<int>, lists: seq<seq<int>>, bs: Blocks, free: Blocks, bp: int)
    returns (k: nat)
    requires Tiling(bs, |mem|) && Tags(mem, bs) && ListsOk(mem, seg, lists, free) && FreeWithin(free, bs)
    requires bp in free
    ensures 16 <= bp && bp + 16 <= |mem| && GetSize(mem[bp - 4]) == free[bp].size >= 16
    ensures |seg| == |lists| == NUM_SEGLIST
    ensures var c := Class(free[bp].size);
            var l := lists[c];
            && seg[c] == At(l, 0)
            && k < |l| && l[k] == bp
            && mem[bp] == At(l, k + 1) && mem[bp + 4] == At(l, k - 1)
            && (forall i :: 0 <= i < |l| ==> 0 < l[i] && l[i] + 8 <= |mem|)
            && var m := UnlinkLinks(mem, l, k);
            && |m| == |mem| && Tags(m, bs) && Kept(mem, m, LiveOf(bs))
            && FreeWithin(free - {bp}, bs)
            && ListsOk(m, seg[c := At(Removed(l, k), 0)], lists[c := Removed(l, k)], free - {bp})
  {
    hide Tiling, Tags, Filed, Kept;
    TagsAt(mem, bs, bp);
    BlockShapeAt(bs, |mem|, bp);
    k := Position(lists, free, bp);
    FiledHasAllLists(lists, free);
    var l := lists[Class(free[bp].size)];
    assert LinkOk(mem, l, k);
    UnlinkOk(mem, seg, lists, free, bp, k);
    assert FreeWithin(free - {bp}, bs);
    LinkWritesOk(mem, UnlinkLinks(mem, l, k), bs, free - {bp});
  }

  lemma Position(lists: seq<seq<int>>, free: Blocks, bp: int) returns (k: nat)
    requires Filed(lists, free) && bp in free
    ensures |lists| == NUM_SEGLIST && free[bp].size >= 0
    ensures var l := lists[Class(free[bp].size)]; k < |l| && l[k] == bp
  {
    assert bp in lists[Class(free[bp].size)];
    k :| 0 <= k < |lists[Class(free[bp].size)]| && lists[Class(free[bp].size)][k] == bp;
  }

  /** Bookkeeping for joining two free neighbours. */
  lemma MergeFree(bs: Blocks, brk: int, p: int)
    requires Tiling(bs, brk) && p in bs && p + bs[p].size in bs
    requires !bs[p].alloc && !bs[p + bs[p].size].alloc
    ensures var n := p + bs[p].size;
            var m := Merged(bs, p, false);
            var rest := FreeOf(bs) - {p} - {n};
            && FreeWithin(FreeOf(bs), bs) && n != p && n in FreeOf(bs) - {p} && p in FreeOf(bs)
            && Tiling(m, brk) && LiveOf(m) == LiveOf(bs)
            && p in m && m[p] == Block(bs[p].size + bs[n].size, false)
            && FreeOf(m) == rest[p := m[p]] && FreeWithin(rest, m)
            && (forall x :: x in m && x != p ==> x in bs && bs[x] == m[x])
  {
    BlockShapeAt(bs, brk, p);
    MergeKeepsTiling(bs, brk, p, false);
  }

  /** Bookkeeping for joining a free block with both of its free neighbours. */
  lemma MergeFreeBoth(bs: Blocks, brk: int, p: int)
    requires Tiling(bs, brk) && p in bs && p + bs[p].size in bs
    requires var a := p + bs[p].size; a + bs[a].size in bs && !bs[p].alloc && !bs[a].alloc && !bs[a + bs[a].size].alloc
    ensures var a := p + bs[p].size;
            var n := a + bs[a].size;
            var m1 := Merged(bs, p, false);
            && p in m1 && p + m1[p].size in m1 &&
            var m := Merged(m1, p, false);
            var rest := FreeOf(bs) - {p} - {a} - {n};
            && FreeWithin(FreeOf(bs), bs) && p in FreeOf(bs) && a in FreeOf(bs) - {p} && n in FreeOf(bs) - {p} - {a}
            && Tiling(m, brk) && LiveOf(m) == LiveOf(bs)
            && p in m && m[p] == Block(bs[p].size + bs[a].size + bs[n].size, false)
            && FreeOf(m) == rest[p := m[p]] && FreeWithin(rest, m)
            && (forall x :: x in m && x != p ==> x in bs && bs[x] == m[x])
  {
    hide Tiling, FreeOf, LiveOf, FreeWithin;
    var a := p + bs[p].size;
    var n := a + bs[a].size;
    BlockShapeAt(bs, brk, p);
    BlockShapeAt(bs, brk, a);
    MergeFree(bs, brk, p);
    var m1 := Merged(bs, p, false);
    MergeFree(m1, brk, p);
    var m := Merged(m1, p, false);
    var rest := FreeOf(bs) - {p} - {a} - {n};
    var rest1 := FreeOf(m1) - {p} - {n};
    assert rest1 == rest by { assert FreeOf(m1) == (FreeOf(bs) - {p} - {a})[p := m1[p]]; }
    assert n in FreeOf(m1) - {p};
  }

  /** A chain of merges ends with no adjacent free pair when its outer neighbours are live. */
  lemma MergeLeavesNoPair(bs: Blocks, brk: int, p: int, except: int)
    requires Tiling(bs, brk) && p in bs && p + bs[p].size in bs
    requires except == p || except == p + bs[p].size
    requires NoFreePairExcept(bs, except)
    ensures NoFreePairExcept(Merged(bs, p, false), p)
  {
    var n := p + bs[p].size;
    var m := Merged(bs, p, false);
    BlockShapeAt(bs, brk, n);
    forall x | x in m && !m[x].alloc && x != p && x + m[x].size != p ensures NextLive(m, x) {
      assert Apart(bs, x, p);
      assert NextLive(bs, x);
    }
  }

  /** When both neighbours of the one exempted block are live, nothing is exempt. */
  lemma NoPairAtAll(bs: Blocks, brk: int, a: int)
    requires Tiling(bs, brk) && a in bs && NoFreePairExcept(bs, a)
    requires NextLive(bs, a)
    requires forall x :: x in bs && x + bs[x].size == a ==> bs[x].alloc
    ensures NoFreePair(bs)
  {
    forall x | x in bs && !bs[x].alloc ensures NextLive(bs, x) {
      assert x == a || x + bs[x].size != a;
    }
  }

  /** Joining bp with its free predecessor p, and then with what follows, leaves no free pair. */
  lemma CoalesceLeft(bs: Blocks, brk: int, p: int, bp: int)
    requires Tiling(bs, brk) && bp in bs && !bs[bp].alloc && NoFreePairExcept(bs, bp)
    requires p in bs && p + bs[p].size == bp && !bs[p].alloc
    ensures var m := Merged(bs, p, false);
            && p < bp && LiveOf(m) == LiveOf(bs) && p in m && m[p] == Block(bs[p].size + bs[bp].size, false)
            && (NextLive(bs, bp) ==> NoFreePair(m))
            && (!NextLive(bs, bp) ==>
                  var m2 := Merged(m, p, false);
                  && LiveOf(m2) == LiveOf(bs) && NoFreePair(m2) && p in m2
                  && m2[p] == Block(bs[p].size + bs[bp].size + bs[bp + bs[bp].size].size, false))
  {
    hide FreeOf, LiveOf, FreeWithin, NoFreePair;
    var m := Merged(bs, p, false);
    MergeFree(bs, brk, p);
    MergeLeavesNoPair(bs, brk, p, bp);
    BlockShapeAt(bs, brk, p);
    forall x | x in m && x + m[x].size == p ensures m[x].alloc {
      assert !bs[x].alloc ==> NextLive(bs, x);
    }
    if NextLive(bs, bp) {
      NoPairAtAll(m, brk, p);
    } else {
      var n := bp + bs[bp].size;
      MergeFreeBoth(bs, brk, p);
      BlockShapeAt(bs, brk, n);
      var m2 := Merged(m, p, false);
      MergeLeavesNoPair(m, brk, p, p);
      BlockShapeAt(bs, brk, bp);
      assert NextLive(bs, n);
      NoPairAtAll(m2, brk, p);
    }
  }

  /** With a live predecessor, joining bp with its free successor leaves no free pair. */
  lemma CoalesceRight(bs: Blocks, brk: int, p: int, bp: int)
    requires Tiling(bs, brk) && bp in bs && !bs[bp].alloc && NoFreePairExcept(bs, bp)
    requires bp == 16 || (p in bs && p + bs[p].size == bp && bs[p].alloc)
    ensures forall x :: x in bs && x + bs[x].size == bp ==> bs[x].alloc
    ensures NextLive(bs, bp) ==> NoFreePair(bs)
    ensures !NextLive(bs, bp) ==>
              var m := Merged(bs, bp, false);
              && LiveOf(m) == LiveOf(bs) && NoFreePair(m) && bp in m
              && m[bp] == Block(bs[bp].size + bs[bp + bs[bp].size].size, false)
  {
    hide FreeOf, LiveOf, FreeWithin, NoFreePair;
    forall x | x in bs && x + bs[x].size == bp ensures bs[x].alloc {
      BlockShapeAt(bs, brk, x);
      if bp != 16 { assert Apart(bs, x, p); BlockShapeAt(bs, brk, p); }
    }
    if NextLive(bs, bp) {
      NoPairAtAll(bs, brk, bp);
    } else {
      var n := bp + bs[bp].size;
      var m := Merged(bs, bp, false);
      MergeFree(bs, brk, bp);
      MergeLeavesNoPair(bs, brk, bp, bp);
      BlockShapeAt(bs, brk, n);
      BlockShapeAt(bs, brk, bp);
      assert NextLive(bs, n);
      NoPairAtAll(m, brk, bp);
    }
  }

  lemma KeptReflexive(mem: seq<int>, bs: Blocks)
    ensures Kept(mem, mem, bs)
  {
  }

  /** Memory after extend_heap's three header and footer writes. */
  ghost predicate Grown(mem: seq<int>, m: seq<int>, size: int)
    requires |mem| >= 16 && size >= 16 && size % 8 == 0
  {
    var brk := |mem|;
    && |m| == brk + size
    && m[..brk - 4] == mem[..brk - 4]
    && m[brk - 4] == Pack(size, false) && m[brk + size - 8] == Pack(size, false)
    && m[brk + size - 4] == Pack(0, true)
  }

  lemma GrownBy(mem: seq<int>, m1: seq<int>, m: seq<int>, size: int)
    requires |mem| >= 16 && size >= 16 && size % 8 == 0
    requires |m1| == |mem| + size && m1[..|mem|] == mem
    requires var brk := |mem|;
             m == m1[brk - 4 := Pack(size, false)][brk + size - 8 := Pack(size, false)][brk + size - 4 := Pack(0, true)]
    ensures Grown(mem, m, size)
  {
    var brk := |mem|;
    forall p | 0 <= p < brk - 4 ensures m[p] == mem[p] {
      assert m1[p] == m1[..brk][p];
    }
    assert m[..brk - 4] == mem[..brk - 4];
  }

  lemma GrowOk(mem: seq<int>, m: seq<int>, bs: Blocks, size: int, seg: seq<int>, lists: seq<seq<int>>)
    requires Tiling(bs, |mem|) && Tags(mem, bs) && ListsOk(mem, seg, lists, FreeOf(bs)) && NoFreePair(bs)
    requires size >= 16 && size % 8 == 0 && Grown(mem, m, size)
    ensures var brk := |mem|;
            var b := Block(size, false);
            var bs' := bs[brk := b];
            && brk !in bs && brk !in FreeOf(bs)
            && Tiling(bs', |m|) && Tags(m, bs') && ListsOk(m, seg, lists, FreeOf(bs)) && FreeWithin(FreeOf(bs), bs')
            && FreeOf(bs') == FreeOf(bs)[brk := b] && LiveOf(bs') == LiveOf(bs)
            && NoFreePairExcept(bs', brk) && Kept(mem, m, LiveOf(bs))
  {
    var brk := |mem|;
    var bs' := bs[brk := Block(size, false)];
    GrowKeepsTiling(bs, brk, size);
    GrowTags(mem, m, bs, size);
    GrowKept(mem, m, bs, size);
    KeptLinks(mem, m, bs, FreeOf(bs));
    ListsFrame(mem, m, seg, lists, FreeOf(bs));
    GrowBooks(bs, brk, size);
    KeptSubset(mem, m, bs, LiveOf(bs));
  }

  lemma GrowTags(mem: seq<int>, m: seq<int>, bs: Blocks, size: int)
    requires Tiling(bs, |mem|) && Tags(mem, bs) && size >= 16 && size % 8 == 0 && Grown(mem, m, size)
    ensures Tags(m, bs[|mem| := Block(size, false)])
  {
    forall x | x in bs && x != |mem| ensures BlockTags(m, x, bs[x]) {
      assert BlockTags(mem, x, bs[x]);
    }
  }

  lemma GrowKept(mem: seq<int>, m: seq<int>, bs: Blocks, size: int)
    requires Tiling(bs, |mem|) && size >= 16 && size % 8 == 0 && Grown(mem, m, size)
    ensures Kept(mem, m, bs)
  {
    forall a, p | a in bs && 0 <= a <= p < a + bs[a].size - 8 && p < |mem| ensures m[p] == mem[p] {
      assert BlockShape(a, bs[a], |mem|);
      assert m[..|mem| - 4][p] == mem[..|mem| - 4][p];
    }
  }

  lemma GrowBooks(bs: Blocks, brk: int, size: int)
    requires Tiling(bs, brk) && NoFreePair(bs) && size > 0
    ensures brk !in bs
    ensures var b := Block(size, false);
            var bs' := bs[brk := b];
            && FreeWithin(FreeOf(bs), bs')
            && FreeOf(bs') == FreeOf(bs)[brk := b] && LiveOf(bs') == LiveOf(bs)
            && NoFreePairExcept(bs', brk)
  {
    assert brk in bs ==> BlockShape(brk, bs[brk], brk);
    var bs' := bs[brk := Block(size, false)];
    forall x | x in bs' && !bs'[x].alloc && x != brk && x + bs'[x].size != brk ensures NextLive(bs', x) {
      assert NextLive(bs, x);
    }
  }

  /** Writing the tags of both halves of a split block. */
  lemma SplitTagsOk(mem: seq<int>, bs: Blocks, a: int, first: Block, second: Block,
                    seg: seq<int>, lists: seq<seq<int>>, free: Blocks)
    requires Tiling(bs, |mem|) && Tags(mem, bs) && a in bs
    requires first.size >= 16 && second.size >= 16 && first.size % 8 == 0 && second.size % 8 == 0
    requires first.size + second.size == bs[a].size
    requires ListsOk(mem, seg, lists, free) && FreeWithin(free, bs) && a !in free
    ensures var bs' := SplitAt(bs, a, first, second);
            && a + first.size !in bs && 16 <= a && a + bs[a].size <= |mem|
            && var m := PutTags(PutTags(mem, a, first), a + first.size, second);
            && Tiling(bs', |mem|) && Tags(m, bs') && ListsOk(m, seg, lists, free)
            && FreeWithin(free, bs') && Kept(mem, m, bs - {a})
  {
    hide Tiling, ListsOk, Kept, PutTags;
    var bs' := SplitAt(bs, a, first, second);
    BlockShapeAt(bs, |mem|, a);
    SplitKeepsTiling(bs, |mem|, a, first, second);
    assert TagsExcept(mem, bs', {a, a + first.size});
    PutTagsOk(mem, bs', a, {a, a + first.size}, seg, lists, free);
    var m1 := PutTags(mem, a, first);
    PutTagsLength(mem, a, first);
    PutTagsOk(m1, bs', a + first.size, {a + first.size}, seg, lists, free);
    KeptTransitive(mem, m1, PutTags(m1, a + first.size, second), bs');
    KeptSubset(mem, PutTags(m1, a + first.size, second), bs', bs - {a});
  }

  lemma PutTagsLength(mem: seq<int>, a: int, b: Block)
    requires 16 <= a && b.size >= 16 && b.size % 8 == 0 && a + b.size <= |mem|
    ensures |PutTags(mem, a, b)| == |mem|
  {
  }

  /** Cutting an allocated block of the requested size out of a free block. */
  lemma SplitBooks(bs: Blocks, brk: int, a: int, first: Block, second: Block)
    requires Tiling(bs, brk) && NoFreePair(bs) && a in bs && !bs[a].alloc
    requires first.size >= 16 && second.size >= 16 && first.size + second.size == bs[a].size
    requires first.alloc != second.alloc
    requires Tiling(SplitAt(bs, a, first, second), brk)
    ensures var bs' := SplitAt(bs, a, first, second);
            var m := a + first.size;
            var (taken, rest) := if first.alloc then (a, m) else (m, a);
            && m !in bs && NoFreePair(bs')
            && FreeWithin(FreeOf(bs), bs) && FreeWithin(FreeOf(bs) - {a}, bs') && a in FreeOf(bs)
            && FreeOf(bs') == (FreeOf(bs) - {a})[rest := bs'[rest]]
            && LiveOf(bs') == LiveOf(bs)[taken := bs'[taken]] && taken !in LiveOf(bs)
  {
    SplitKeepsDisjoint(bs, a, first, second);
    SplitLeavesNoPair(bs, brk, a, first, second);
  }

  lemma SplitLeavesNoPair(bs: Blocks, brk: int, a: int, first: Block, second: Block)
    requires Tiling(bs, brk) && NoFreePair(bs) && a in bs && !bs[a].alloc
    requires first.size >= 16 && second.size >= 16 && first.size + second.size == bs[a].size
    requires first.alloc != second.alloc
    ensures NoFreePair(SplitAt(bs, a, first, second))
  {
    var m := a + first.size;
    var bs' := SplitAt(bs, a, first, second);
    forall x | x in bs' && !bs'[x].alloc ensures NextLive(bs', x) {
      assert NextLive(bs, a);
      assert x != a && x != m ==> NextLive(bs, x);
      assert x != a && x != m && x + bs[x].size == m ==> Apart(bs, x, a);
    }
  }

  /** Turning a whole free block into an allocated one. */
  lemma TakeBooks(bs: Blocks, brk: int, a: int)
    requires Tiling(bs, brk) && NoFreePair(bs) && a in bs && !bs[a].alloc
    ensures var b := Block(bs[a].size, true);
            var bs' := bs[a := b];
            && Tiling(bs', brk) && NoFreePair(bs')
            && FreeWithin(FreeOf(bs), bs) && FreeWithin(FreeOf(bs) - {a}, bs') && a in FreeOf(bs)
            && FreeOf(bs') == FreeOf(bs) - {a}
            && LiveOf(bs') == LiveOf(bs)[a := b] && a !in LiveOf(bs)
  {
    RetagKeepsTiling(bs, brk, a, true);
    var bs' := bs[a := Block(bs[a].size, true)];
    forall x | x in bs' && !bs'[x].alloc ensures NextLive(bs', x) {
      assert NextLive(bs, x);
    }
  }

  /** Turning an allocated block into a free one. */
  lemma GiveBooks(bs: Blocks, brk: int, a: int)
    requires Tiling(bs, brk) && NoFreePair(bs) && a in bs && bs[a].alloc
    ensures var b := Block(bs[a].size, false);
            var bs' := bs[a := b];
            && Tiling(bs', brk) && NoFreePairExcept(bs', a)
            && a !in FreeOf(bs) && FreeWithin(FreeOf(bs), bs')
            && FreeOf(bs') == FreeOf(bs)[a := b]
            && LiveOf(bs') == LiveOf(bs) - {a}
  {
    RetagKeepsTiling(bs, brk, a, false);
    var bs' := bs[a := Block(bs[a].size, false)];
    forall x | x in bs' && !bs'[x].alloc && x != a && x + bs'[x].size != a ensures NextLive(bs', x) {
      assert NextLive(bs, x);
    }
  }

  /** Extending an allocated block over its free successor. */
  lemma AbsorbNextBooks(bs: Blocks, brk: int, a: int)
    requires Tiling(bs, brk) && NoFreePair(bs) && a in bs && bs[a].alloc
    requires a + bs[a].size in bs && !bs[a + bs[a].size].alloc
    ensures var n := a + bs[a].size;
            var bs' := Merged(bs, a, true);
            && n in FreeOf(bs) && n != a && FreeWithin(FreeOf(bs), bs) && FreeWithin(FreeOf(bs) - {n}, bs')
            && Tiling(bs', brk) && NoFreePair(bs')
            && a in bs' && bs'[a] == Block(bs[a].size + bs[n].size, true)
            && FreeOf(bs') == FreeOf(bs) - {n}
            && LiveOf(bs') == LiveOf(bs)[a := bs'[a]]
            && (forall x :: x in bs' && x != a ==> x in bs && bs[x] == bs'[x])
  {
    BlockShapeAt(bs, brk, a);
    MergeKeepsTiling(bs, brk, a, true);
    var bs' := Merged(bs, a, true);
    forall x | x in bs' && !bs'[x].alloc ensures NextLive(bs', x) {
      assert NextLive(bs, x);
    }
  }

  /** Extending an allocated block downwards over its free predecessor p. */
  lemma AbsorbPrevBooks(bs: Blocks, brk: int, p: int)
    requires Tiling(bs, brk) && NoFreePair(bs) && p in bs && !bs[p].alloc
    requires p + bs[p].size in bs && bs[p + bs[p].size].alloc
    ensures var a := p + bs[p].size;
            var bs' := Merged(bs, p, true);
            && p in FreeOf(bs) && p != a && FreeWithin(FreeOf(bs), bs) && FreeWithin(FreeOf(bs) - {p}, bs')
            && Tiling(bs', brk) && NoFreePair(bs')
            && p in bs' && bs'[p] == Block(bs[p].size + bs[a].size, true)
            && FreeOf(bs') == FreeOf(bs) - {p}
            && LiveOf(bs') == (LiveOf(bs) - {a})[p := bs'[p]] && p !in LiveOf(bs)
            && (forall x :: x in bs' && x != p ==> x in bs && bs[x] == bs'[x])
  {
    BlockShapeAt(bs, brk, p);
    MergeKeepsTiling(bs, brk, p, true);
    var bs' := Merged(bs, p, true);
    forall x | x in bs' && !bs'[x].alloc ensures NextLive(bs', x) {
      assert NextLive(bs, x);
    }
  }

  /** The memories agree except perhaps on the payload of block a. */
  ghost predicate OnlyPayload(mem: seq<int>, m: seq<int>, a: int, size: int) {
    && |m| == |mem|
    && forall p :: 0 <= p < |mem| && !(a <= p < a + size - 8) ==> m[p] == mem[p]
  }

  lemma PayloadWriteOk(mem: seq<int>, m: seq<int>, bs: Blocks, a: int, open: set<int>,
                       seg: seq<int>, lists: seq<seq<int>>, free: Blocks)
    requires Tiling(bs, |mem|) && a in bs && TagsExcept(mem, bs, open)
    requires OnlyPayload(mem, m, a, bs[a].size)
    requires ListsOk(mem, seg, lists, free) && FreeWithin(free, bs) && a !in free
    ensures TagsExcept(m, bs, open) && ListsOk(m, seg, lists, free) && Kept(mem, m, bs - {a})
  {
    PayloadWriteKept(mem, m, bs, a);
    BlockShapeAt(bs, |mem|, a);
    forall x | x in bs && x !in open ensures BlockTags(m, x, bs[x]) {
      assert BlockTags(mem, x, bs[x]) && Apart(bs, a, x);
    }
    forall x | x in free && 0 <= x && x + 8 <= |mem| ensures m[x] == mem[x] && m[x + 4] == mem[x + 4] {
      assert BlockShape(x, bs[x], |mem|) && Apart(bs, a, x);
    }
    ListsFrame(mem, m, seg, lists, free);
  }

  lemma PayloadWriteKept(mem: seq<int>, m: seq<int>, bs: Blocks, a: int)
    requires Tiling(bs, |mem|) && a in bs && OnlyPayload(mem, m, a, bs[a].size)
    ensures Kept(mem, m, bs - {a})
  {
    forall x, p | x in bs - {a} && 0 <= x <= p < x + bs[x].size - 8 && p < |mem| ensures m[p] == mem[p] {
      assert Apart(bs, a, x);
    }
  }

  /** n bytes' worth of words at src in one memory are those at dst in another. */
  ghost predicate Copied(m0: seq<int>, src: int, m1: seq<int>, dst: int, n: int)
    requires 0 <= src && 0 <= dst && src + n <= |m0| && dst + n <= |m1|
  {
    forall p {:trigger m1[p]} :: dst <= p < dst + n ==> m1[p] == m0[src + (p - dst)]
  }

  /** Memory after memmove(dst, src, n). */
  function Moved(mem: seq<int>, dst: int, src: int, n: int): (m: seq<int>)
    requires 0 <= n && 0 <= src && 0 <= dst && src + n <= |mem| && dst + n <= |mem|
    ensures |m| == |mem|
    ensures forall p {:trigger m[p]} :: 0 <= p < |mem| ==>
      m[p] == if dst <= p < dst + n then mem[src + (p - dst)] else mem[p]
  {
    mem[..dst] + mem[src..src + n] + mem[dst + n..]
  }

  lemma NothingMoved(mem: seq<int>, dst: int, src: int)
    requires 0 <= src <= |mem| && 0 <= dst <= |mem|
    ensures Moved(mem, dst, src, 0) == mem
  {
  }

  /** Copying upwards to a lower address, the next word is still the old one. */
  lemma MovedUp(mem: seq<int>, dst: int, src: int, i: int)
    requires 0 <= i && 0 <= dst <= src && src + i < |mem|
    ensures var m := Moved(mem, dst, src, i);
            m[dst + i := m[src + i]] == Moved(mem, dst, src, i + 1)
  {
  }

  /** So it is copying downwards to a higher address. */
  lemma MovedDown(mem: seq<int>, dst: int, src: int, n: int, i: int)
    requires 0 < i <= n && 0 <= src < dst && dst + n <= |mem|
    ensures var m := Moved(mem, dst + i, src + i, n - i);
            m[dst + i - 1 := m[src + i - 1]] == Moved(mem, dst + i - 1, src + i - 1, n - i + 1)
  {
  }

  lemma MovedIsCopied(mem: seq<int>, dst: int, src: int, n: int)
    requires 0 <= n && 0 <= src && 0 <= dst && src + n <= |mem| && dst + n <= |mem|
    ensures Copied(mem, src, Moved(mem, dst, src, n), dst, n)
  {
  }

  /** Moving a payload down into the free predecessor and retagging the union. */
  lemma MoveDownOk(mem: seq<int>, bs: Blocks, bs': Blocks, p: int, a: int, n: int,
                   seg: seq<int>, lists: seq<seq<int>>, free: Blocks)
    requires Tiling(bs, |mem|) && Tags(mem, bs) && a in bs && n == bs[a].size && bs[a].alloc
    requires Tiling(bs', |mem|) && p in bs' && 16 <= p < a && a + n <= p + bs'[p].size
    requires forall x :: x in bs' && x != p ==> x in bs && bs[x] == bs'[x]
    requires ListsOk(mem, seg, lists, free) && FreeWithin(free, bs') && p !in free
    requires p + n <= p + bs'[p].size - 8
    ensures a + n <= |mem| && p + n <= |mem|
    ensures var m := PutTags(Moved(mem, p, a, n), p, bs'[p]);
            && |m| == |mem| && Tags(m, bs') && ListsOk(m, seg, lists, free) && Kept(mem, m, bs' - {p})
            && Copied(mem, a, m, p, n - 8)
  {
    hide Tiling, ListsOk, Kept;
    BlockShapeAt(bs, |mem|, a);
    BlockShapeAt(bs', |mem|, p);
    var m1 := Moved(mem, p, a, n);
    assert TagsExcept(mem, bs', {p});
    PayloadWriteOk(mem, m1, bs', p, {p}, seg, lists, free);
    PutTagsOk(m1, bs', p, {p}, seg, lists, free);
    var m := PutTags(m1, p, bs'[p]);
    KeptSubset(m1, m, bs', bs' - {p});
    KeptTransitive(mem, m1, m, bs' - {p});
  }

  lemma KeptShrink(m0: seq<int>, m1: seq<int>, bs: Blocks, sub: Blocks)
    requires Kept(m0, m1, bs)
    requires forall a :: a in sub ==> a in bs && sub[a].size <= bs[a].size
    ensures Kept(m0, m1, sub)
  {
  }

  lemma KeptThenCopied(m0: seq<int>, m1: seq<int>, m2: seq<int>, live: Blocks, src: int, n: int, dst: int)
    requires src in live && Kept(m0, m1, live) && live[src].size - 8 == n
    requires 0 <= src && src + n <= |m0| && 0 <= dst && dst + n <= |m2|
    requires Copied(m1, src, m2, dst, n)
    ensures Copied(m0, src, m2, dst, n)
  {
    forall p | dst <= p < dst + n ensures m2[p] == m0[src + (p - dst)] {
      assert m1[src + (p - dst)] == m0[src + (p - dst)];
    }
  }

  /** A payload that survives two steps, the second after being copied. */
  lemma CopiedThenKept(m0: seq<int>, m1: seq<int>, m2: seq<int>, m3: seq<int>,
                       live0: Blocks, src: int, n: int, live3: Blocks, dst: int)
    requires src in live0 && Kept(m0, m1, live0) && live0[src].size - 8 == n
    requires dst in live3 && Kept(m2, m3, live3) && n <= live3[dst].size - 8
    requires 0 <= src && src + n <= |m0| && 0 <= dst && dst + n <= |m2| && |m1| <= |m2|
    requires Copied(m1, src, m2, dst, n)
    ensures Copied(m0, src, m3, dst, n)
  {
    forall p | dst <= p < dst + n ensures m3[p] == m0[src + (p - dst)] {
      assert m3[p] == m2[p];
      assert m1[src + (p - dst)] == m0[src + (p - dst)];
    }
  }

  /** Absorbing both neighbours: the tiling realloc reaches when it slides down and also needs the successor. */
  lemma AbsorbBothBooks(bs: Blocks, brk: int, p: int)
    requires Tiling(bs, brk) && NoFreePair(bs) && p in bs && !bs[p].alloc
    requires p + bs[p].size in bs && bs[p + bs[p].size].alloc
    requires var a := p + bs[p].size; a + bs[a].size in bs && !bs[a + bs[a].size].alloc
    ensures var a := p + bs[p].size;
            var n := a + bs[a].size;
            var m1 := Merged(bs, a, true);
            && p in m1 && p + m1[p].size in m1 &&
            var bs' := Merged(m1, p, true);
            && FreeWithin(FreeOf(bs), bs) && p in FreeOf(bs) && n in FreeOf(bs) - {p}
              && FreeWithin(FreeOf(bs) - {p} - {n}, bs')
            && Tiling(bs', brk) && NoFreePair(bs')
            && p in bs' && bs'[p] == Block(bs[p].size + bs[a].size + bs[n].size, true)
            && FreeOf(bs') == FreeOf(bs) - {p} - {n}
            && LiveOf(bs') == (LiveOf(bs) - {a})[p := bs'[p]] && p !in LiveOf(bs)
            && (forall x :: x in bs' && x != p ==> x in bs && bs[x] == bs'[x])
  {
    hide Tiling, NoFreePair;
    var a := p + bs[p].size;
    var n := a + bs[a].size;
    BlockShapeAt(bs, brk, p);
    BlockShapeAt(bs, brk, a);
    AbsorbNextBooks(bs, brk, a);
    var m1 := Merged(bs, a, true);
    AbsorbPrevBooks(m1, brk, p);
    assert FreeOf(m1) - {p} == FreeOf(bs) - {p} - {n};
  }

  lemma FreeMembers(bs: Blocks)
    ensures FreeWithin(FreeOf(bs), bs)
    ensures forall x :: x in FreeOf(bs) <==> x in bs && !bs[x].alloc
    ensures forall x :: x in bs && !bs[x].alloc ==> FreeOf(bs)[x] == bs[x]
  {
  }

  lemma LiveMembers(bs: Blocks)
    ensures forall x :: x in LiveOf(bs) <==> x in bs && bs[x].alloc
    ensures forall x :: x in bs && bs[x].alloc ==> LiveOf(bs)[x] == bs[x]
  {
  }

  /** The tiling a slide is heading for: block ptr united with its free predecessor p,
      and perhaps with its successor, under `total` bytes. */
  ghost predicate SlidePlan(bs: Blocks, bs': Blocks, brk: int, free: Blocks, p: int, ptr: int, total: int) {
    && ptr in bs && bs[ptr].alloc && 16 <= p < ptr && total > bs[ptr].size && total % 8 == 0
    && Tiling(bs, brk) && Tiling(bs', brk) && NoFreePair(bs') && FreeOf(bs') == free && FreeWithin(free, bs')
    && p in bs' && bs'[p] == Block(total, true) && ptr + bs[ptr].size <= p + total
    && (forall x :: x in bs' && x != p ==> x in bs && bs[x] == bs'[x])
    && p !in LiveOf(bs) && LiveOf(bs') == (LiveOf(bs) - {ptr})[p := bs'[p]]
  }

  lemma PlanPrev(bs: Blocks, brk: int, p: int)
    requires Tiling(bs, brk) && NoFreePair(bs) && p in FreeOf(bs)
    requires p + FreeOf(bs)[p].size in LiveOf(bs)
    ensures var ptr := p + FreeOf(bs)[p].size;
            p in bs && ptr in bs && bs[p] == FreeOf(bs)[p] &&
            SlidePlan(bs, Merged(bs, p, true), brk, FreeOf(bs) - {p}, p, ptr, bs[p].size + bs[ptr].size)
  {
    hide Tiling, NoFreePair;
    FreeMembers(bs);
    LiveMembers(bs);
    BlockShapeAt(bs, brk, p);
    BlockShapeAt(bs, brk, p + bs[p].size);
    hide FreeOf, LiveOf;
    AbsorbPrevBooks(bs, brk, p);
  }

  lemma PlanBoth(bs: Blocks, brk: int, p: int)
    requires Tiling(bs, brk) && NoFreePair(bs) && p in FreeOf(bs)
    requires p + FreeOf(bs)[p].size in LiveOf(bs)
    requires var ptr := p + FreeOf(bs)[p].size; ptr + LiveOf(bs)[ptr].size in FreeOf(bs)
    ensures var ptr := p + FreeOf(bs)[p].size;
            && p in bs && ptr in bs && bs[p] == FreeOf(bs)[p] && bs[ptr] == LiveOf(bs)[ptr] &&
            var n := ptr + bs[ptr].size;
            && n in bs && bs[n] == FreeOf(bs)[n] && n in FreeOf(bs) - {p} &&
            var m1 := Merged(bs, ptr, true);
            && p in m1 && p + m1[p].size in m1
            && SlidePlan(bs, Merged(m1, p, true), brk, FreeOf(bs) - {p} - {n}, p, ptr,
              bs[p].size + bs[ptr].size + bs[n].size)
  {
    hide Tiling, NoFreePair;
    FreeMembers(bs);
    LiveMembers(bs);
    var ptr := p + bs[p].size;
    BlockShapeAt(bs, brk, p);
    BlockShapeAt(bs, brk, ptr);
    BlockShapeAt(bs, brk, ptr + bs[ptr].size);
    hide FreeOf, LiveOf;
    AbsorbBothBooks(bs, brk, p);
  }

  /** What the move and the retagging that end a slide establish. */
  lemma SlideOk(mem: seq<int>, bs: Blocks, bs': Blocks, free: Blocks, p: int, ptr: int, total: int,
                seg: seq<int>, lists: seq<seq<int>>)
    requires SlidePlan(bs, bs', |mem|, free, p, ptr, total)
    requires Tags(mem, bs) && ListsOk(mem, seg, lists, free)
    ensures var n := bs[ptr].size;
            && 16 <= p && 16 <= ptr && 16 <= n < total && ptr + n <= |mem| && p + n <= |mem| && p + total <= |mem|
            && mem[ptr - 4] == Pack(n, true)
            && var m := PutTags(Moved(mem, p, ptr, n), p, Block(total, true));
            && |m| == |mem| && HeapParts(m, bs', seg, lists, free)
            && Kept(mem, m, LiveOf(bs) - {ptr}) && Copied(mem, ptr, m, p, n - 8)
  {
    hide Tiling, Tags, ListsOk, Kept, NoFreePair, Copied;
    var n := bs[ptr].size;
    BlockShapeAt(bs, |mem|, ptr);
    BlockShapeAt(bs', |mem|, p);
    FreeMembers(bs');
    TagsAt(mem, bs, ptr);
    SizeGap(n, total);
    LiveMembers(bs);
    LiveMembers(bs');
    MoveDownOk(mem, bs, bs', p, ptr, n, seg, lists, free);
    var m := PutTags(Moved(mem, p, ptr, n), p, bs'[p]);
    assert forall a :: a in LiveOf(bs) - {ptr} ==> a in LiveOf(bs') && a != p;
    KeptSubset(mem, m, bs' - {p}, LiveOf(bs) - {ptr});
  }

  ghost predicate HeapParts(mem: seq<int>, bs: Blocks, seg: seq<int>, lists: seq<seq<int>>, free: Blocks) {
    && Tiling(bs, |mem|) && Tags(mem, bs) && ListsOk(mem, seg, lists, free) && FreeOf(bs) == free && NoFreePair(bs)
  }

  lemma SizeGap(a: int, b: int)
    requires a % 8 == 0 && b % 8 == 0 && a < b
    ensures a + 8 <= b
  {
  }

  lemma CopiedInPlace(m0: seq<int>, m1: seq<int>, live: Blocks, a: int)
    requires a in live && Kept(m0, m1, live) && 0 <= a && live[a].size >= 16 && a + live[a].size <= |m0|
    ensures a + live[a].size - 8 <= |m1| && Copied(m0, a, m1, a, live[a].size - 8)
  {
  }

  /** A move into the payload of a live block keeps the heap and every other payload. */
  lemma MoveIntoOk(mem: seq<int>, bs: Blocks, dst: int, src: int, n: int, seg: seq<int>, lists: seq<seq<int>>)
    requires Tiling(bs, |mem|) && Tags(mem, bs) && ListsOk(mem, seg, lists, FreeOf(bs))
    requires dst in LiveOf(bs) && src in LiveOf(bs) && dst != src
    requires 0 <= n <= LiveOf(bs)[dst].size - 8 && n <= LiveOf(bs)[src].size
    ensures 0 <= dst && 0 <= src && dst + n <= |mem| && src + n <= |mem|
    ensures var m := Moved(mem, dst, src, n);
            && Tags(m, bs) && ListsOk(m, seg, lists, FreeOf(bs))
            && Kept(mem, m, LiveOf(bs) - {dst}) && (n >= 8 ==> Copied(mem, src, m, dst, n - 8))
  {
    hide Tiling, ListsOk, Kept;
    FreeMembers(bs);
    LiveMembers(bs);
    BlockShapeAt(bs, |mem|, dst);
    BlockShapeAt(bs, |mem|, src);
    hide LiveOf, FreeOf, FreeWithin;
    var m := Moved(mem, dst, src, n);
    assert OnlyPayload(mem, m, dst, bs[dst].size);
    hide Moved, OnlyPayload;
    PayloadWriteOk(mem, m, bs, dst, {}, seg, lists, FreeOf(bs));
    KeptSubset(mem, m, bs - {dst}, LiveOf(bs) - {dst});
  }

  /** A word written into the payload of a live block keeps the heap and every other payload. */
  lemma StoreOk(mem: seq<int>, bs: Blocks, a: int, p: int, value: int, seg: seq<int>, lists: seq<seq<int>>)
    requires Tiling(bs, |mem|) && Tags(mem, bs) && ListsOk(mem, seg, lists, FreeOf(bs))
    requires a in LiveOf(bs) && a <= p < a + LiveOf(bs)[a].size - 8
    ensures 0 <= p < |mem|
    ensures var m := mem[p := value];
      Tags(m, bs) && ListsOk(m, seg, lists, FreeOf(bs)) && Kept(mem, m, LiveOf(bs) - {a})
  {
    hide Tiling, ListsOk, Kept;
    FreeMembers(bs);
    LiveMembers(bs);
    BlockShapeAt(bs, |mem|, a);
    hide LiveOf, FreeOf, FreeWithin;
    var m := mem[p := value];
    assert OnlyPayload(mem, m, a, bs[a].size);
    hide OnlyPayload;
    PayloadWriteOk(mem, m, bs, a, {}, seg, lists, FreeOf(bs));
    KeptSubset(mem, m, bs - {a}, LiveOf(bs) - {a});
  }

  /** Blocks handed out lie inside the heap and share no byte, tags included. */
  lemma LiveBlocksDisjoint(bs: Blocks, brk: int)
    requires Tiling(bs, brk)
    ensures var live := LiveOf(bs);
            && (forall a :: a in live ==> 16 <= a && a % 8 == 0 && a + live[a].size <= brk)
            && (forall a, b :: a in live && b in live && a != b ==> a + live[a].size <= b || b + live[b].size <= a)
  {
    var live := LiveOf(bs);
    forall a | a in live ensures 16 <= a && a % 8 == 0 && a + live[a].size <= brk {
      assert BlockShape(a, bs[a], brk);
    }
    forall a, b | a in live && b in live && a != b ensures a + live[a].size <= b || b + live[b].size <= a {
      assert Apart(bs, a, b);
    }
  }
}
