/** The segregated free lists: size classes, and the doubly linked lists that
    live in the first two payload words of the free blocks. */
module FreeLists {
  import opened Powers
  import opened HeapLayout

  const NUM_SEGLIST := 20

  /** get_MSB_pos: the position of the highest set bit, capped at the last list. */
  function MsbPos(size: nat, idx: nat): (pos: nat)
    requires idx < NUM_SEGLIST
    ensures idx <= pos < NUM_SEGLIST
    decreases size
  {
    if size > 1 && idx < NUM_SEGLIST - 1 then MsbPos(size / 2, idx + 1) else idx
  }

  function Class(size: nat): (c: nat)
    ensures c < NUM_SEGLIST
  {
    MsbPos(size, 0)
  }

  /** A larger block is never filed in an earlier list. */
  lemma {:induction false} MsbPosMonotone(s: nat, t: nat, idx: nat)
    requires s <= t && idx < NUM_SEGLIST
    ensures MsbPos(s, idx) <= MsbPos(t, idx)
    decreases t
  {
    if s > 1 && idx < NUM_SEGLIST - 1 {
      MsbPosMonotone(s / 2, t / 2, idx + 1);
    }
  }

  /** Class c holds exactly the sizes from 2^c up to 2^(c+1), and the last class
      everything from 2^19 on. */
  lemma {:induction false} MsbPosIsFloorLog(size: nat, idx: nat)
    requires size >= 1 && idx < NUM_SEGLIST
    ensures var p := MsbPos(size, idx);
            Pow2(p - idx) <= size && (p < NUM_SEGLIST - 1 ==> size < Pow2(p - idx + 1))
    decreases size
  {
    if size > 1 && idx < NUM_SEGLIST - 1 {
      MsbPosIsFloorLog(size / 2, idx + 1);
    }
  }

  /** Element i of a list, or NULL (0) beyond either end. */
  ghost function At(l: seq<int>, i: int): int {
    if 0 <= i < |l| then l[i] else 0
  }

  ghost predicate NoDup(l: seq<int>) {
    forall i, j :: 0 <= i < j < |l| ==> l[i] != l[j]
  }

  /** Word 0 of a free block points away from the list head, word 1 towards it. */
  ghost predicate Linked(mem: seq<int>, l: seq<int>) {
    forall i :: 0 <= i < |l| ==> LinkOk(mem, l, i)
  }

  ghost predicate LinkOk(mem: seq<int>, l: seq<int>, i: int)
    requires 0 <= i < |l|
  {
    && 0 < l[i] && l[i] % 8 == 0 && l[i] + 8 <= |mem|
    && mem[l[i]] == At(l, i + 1) && mem[l[i] + 4] == At(l, i - 1)
  }

  /** The lists hold each free block exactly once, in its size class. */
  ghost predicate Filed(lists: seq<seq<int>>, free: Blocks) {
    && |lists| == NUM_SEGLIST
    && (forall x :: x in free ==> free[x].size >= 0)
    && (forall c :: 0 <= c < NUM_SEGLIST ==> NoDup(lists[c]))
    && (forall c, x :: 0 <= c < NUM_SEGLIST && x in lists[c] ==> x in free && Class(free[x].size) == c)
    && (forall x :: x in free ==> x in lists[Class(free[x].size)])
  }

  ghost predicate ListsOk(mem: seq<int>, seg: seq<int>, lists: seq<seq<int>>, free: Blocks) {
    && Filed(lists, free)
    && |seg| == NUM_SEGLIST
    && (forall c :: 0 <= c < NUM_SEGLIST ==> seg[c] == At(lists[c], 0))
    && (forall c :: 0 <= c < NUM_SEGLIST ==> Linked(mem, lists[c]))
  }

  /** Two memories of equal size agree outside the link words of the given blocks. */
  ghost predicate AgreeOutside(mem: seq<int>, mem': seq<int>, free: Blocks) {
    && |mem'| == |mem|
    && forall p :: 0 <= p < |mem| && p !in free && p - 4 !in free ==> mem'[p] == mem[p]
  }

  /** Two memories agree on the link words of the given blocks. */
  ghost predicate AgreeOnLinks(mem: seq<int>, mem': seq<int>, free: Blocks) {
    && |mem| <= |mem'|
    && forall x :: x in free && 0 <= x && x + 8 <= |mem| ==> mem'[x] == mem[x] && mem'[x + 4] == mem[x + 4]
  }

  lemma ListsFrame(mem: seq<int>, mem': seq<int>, seg: seq<int>, lists: seq<seq<int>>, free: Blocks)
    requires ListsOk(mem, seg, lists, free) && AgreeOnLinks(mem, mem', free)
    ensures ListsOk(mem', seg, lists, free)
  {
    forall c | 0 <= c < NUM_SEGLIST ensures Linked(mem', lists[c]) {
      LinkedFrame(mem, mem', lists[c], free);
    }
  }

  lemma LinkedFrame(mem: seq<int>, mem': seq<int>, l: seq<int>, free: Blocks)
    requires Linked(mem, l) && AgreeOnLinks(mem, mem', free)
    requires forall x :: x in l ==> x in free
    ensures Linked(mem', l)
  {
    forall i | 0 <= i < |l| ensures LinkOk(mem', l, i) {
      assert LinkOk(mem, l, i);
      assert l[i] in l;
    }
  }

  /** Memory after `insert` has written its pointers. */
  ghost function PushLinks(mem: seq<int>, l: seq<int>, bp: int): seq<int>
    requires 0 <= bp && bp + 8 <= |mem|
    requires l != [] ==> 0 <= l[0] && l[0] + 8 <= |mem|
  {
    if l == [] then mem[bp + 4 := 0][bp := 0]
    else mem[bp + 4 := 0][bp := 0][l[0] + 4 := bp][bp := l[0]]
  }

  lemma PushKeepsLinked(mem: seq<int>, l: seq<int>, bp: int)
    requires Linked(mem, l) && NoDup(l) && bp !in l
    requires 0 < bp && bp % 8 == 0 && bp + 8 <= |mem|
    requires l != [] ==> 0 <= l[0] && l[0] + 8 <= |mem|
    ensures Linked(PushLinks(mem, l, bp), [bp] + l)
  {
    var m := PushLinks(mem, l, bp);
    var r := [bp] + l;
    forall i | 0 <= i < |r| ensures LinkOk(m, r, i) {
      if i > 0 {
        assert LinkOk(mem, l, i - 1);
        if i > 1 { assert LinkOk(mem, l, 0); assert l[0] != l[i - 1]; }
      }
    }
  }

  ghost function Removed(l: seq<int>, k: int): seq<int>
    requires 0 <= k < |l|
  {
    l[..k] + l[k + 1..]
  }

  /** Memory after `delete` has relinked the two neighbours of element k. */
  ghost function UnlinkLinks(mem: seq<int>, l: seq<int>, k: int): seq<int>
    requires 0 <= k < |l|
    requires forall i :: 0 <= i < |l| ==> 0 <= l[i] && l[i] + 8 <= |mem|
  {
    var m := if k + 1 < |l| then mem[l[k + 1] + 4 := At(l, k - 1)] else mem;
    if k > 0 then m[l[k - 1] := At(l, k + 1)] else m
  }

  lemma UnlinkKeepsLinked(mem: seq<int>, l: seq<int>, k: int)
    requires Linked(mem, l) && NoDup(l) && 0 <= k < |l|
    requires forall i :: 0 <= i < |l| ==> 0 <= l[i] && l[i] + 8 <= |mem|
    ensures Linked(UnlinkLinks(mem, l, k), Removed(l, k))
  {
    var m := UnlinkLinks(mem, l, k);
    var r := Removed(l, k);
    forall i | 0 <= i < |r| ensures LinkOk(m, r, i) {
      var o := if i < k then i else i + 1;
      UnlinkAt(mem, l, k, o);
      assert LinkOk(mem, l, o);
      assert r[i] == l[o];
      assert At(r, i + 1) == (if o + 1 == k then At(l, k + 1) else At(l, o + 1));
      assert At(r, i - 1) == (if o - 1 == k then At(l, k - 1) else At(l, o - 1));
    }
  }

  lemma UnlinkAt(mem: seq<int>, l: seq<int>, k: int, o: int)
    requires Linked(mem, l) && NoDup(l) && 0 <= k < |l| && 0 <= o < |l| && o != k
    requires forall i :: 0 <= i < |l| ==> 0 <= l[i] && l[i] + 8 <= |mem|
    ensures var m := UnlinkLinks(mem, l, k);
            && m[l[o]] == (if o + 1 == k then At(l, k + 1) else At(l, o + 1))
            && m[l[o] + 4] == (if o - 1 == k then At(l, k - 1) else At(l, o - 1))
  {
    assert LinkOk(mem, l, o);
    if k + 1 < |l| { assert LinkOk(mem, l, k + 1); assert o != k + 1 ==> l[o] != l[k + 1]; }
    if k > 0 { assert LinkOk(mem, l, k - 1); assert o != k - 1 ==> l[o] != l[k - 1]; }
  }

  lemma RemovedMembers(l: seq<int>, k: int)
    requires NoDup(l) && 0 <= k < |l|
    ensures NoDup(Removed(l, k))
    ensures forall x :: x in Removed(l, k) <==> x in l && x != l[k]
  {
    var r := Removed(l, k);
    forall x | x in l && x != l[k] ensures x in r {
      var i :| 0 <= i < |l| && l[i] == x;
      assert x == if i < k then r[i] else r[i - 1];
    }
  }

  lemma FiledPush(lists: seq<seq<int>>, free: Blocks, bp: int, b: Block)
    requires Filed(lists, free) && bp !in free && b.size >= 0
    ensures var c := Class(b.size);
            Filed(lists[c := [bp] + lists[c]], free[bp := b])
  {
    var c := Class(b.size);
    assert bp !in lists[c];
    var lists' := lists[c := [bp] + lists[c]];
    var free' := free[bp := b];
    forall x | x in free' ensures x in lists'[Class(free'[x].size)] {
      if x == bp { assert lists'[c][0] == bp; }
    }
  }

  lemma FiledRemove(lists: seq<seq<int>>, free: Blocks, bp: int, k: int)
    requires Filed(lists, free) && bp in free
    requires 0 <= k < |lists[Class(free[bp].size)]| && lists[Class(free[bp].size)][k] == bp
    ensures var c := Class(free[bp].size);
            Filed(lists[c := Removed(lists[c], k)], free - {bp})
  {
    RemovedMembers(lists[Class(free[bp].size)], k);
  }

  /** Every element of every list has room for its two link words. */
  lemma ElementsInBounds(mem: seq<int>, seg: seq<int>, lists: seq<seq<int>>, free: Blocks, c: nat)
    requires ListsOk(mem, seg, lists, free) && c < NUM_SEGLIST
    ensures forall i :: 0 <= i < |lists[c]| ==> 0 < lists[c][i] && lists[c][i] % 8 == 0 && lists[c][i] + 8 <= |mem|
  {
    var l := lists[c];
    forall i | 0 <= i < |l| ensures 0 < l[i] && l[i] % 8 == 0 && l[i] + 8 <= |mem| {
      assert Linked(mem, l);
      assert LinkOk(mem, l, i);
    }
  }

  lemma NoNeighbour(m: seq<int>, l: seq<int>, x: int)
    requires Linked(m, l) && x % 8 == 0
    ensures x + 4 !in l && x - 4 !in l
  {
    forall i | 0 <= i < |l| ensures l[i] != x + 4 && l[i] != x - 4 {
      assert LinkOk(m, l, i);
    }
  }

  /** Writes confined to the link words of one class leave another class linked. */
  lemma OtherListKept(mem0: seq<int>, mem1: seq<int>, l: seq<int>, old0: seq<int>, new0: seq<int>)
    requires Linked(mem0, l) && Linked(mem0, old0) && Linked(mem1, new0)
    requires |mem1| == |mem0|
    requires forall x :: x in l ==> x !in old0 && x !in new0
    requires forall p :: 0 <= p < |mem0| && mem1[p] != mem0[p] ==>
                           p in old0 || p - 4 in old0 || p in new0 || p - 4 in new0
    ensures Linked(mem1, l)
  {
    forall i | 0 <= i < |l| ensures LinkOk(mem1, l, i) {
      assert LinkOk(mem0, l, i);
      var x := l[i];
      NoNeighbour(mem0, old0, x);
      NoNeighbour(mem1, new0, x);
      assert x in l;
    }
  }

  /** Writes confined to one class keep all classes linked. */
  lemma AllListsKept(mem0: seq<int>, mem1: seq<int>, seg: seq<int>, lists: seq<seq<int>>, free: Blocks,
                     idx: nat, l': seq<int>, free': Blocks)
    requires ListsOk(mem0, seg, lists, free) && idx < NUM_SEGLIST
    requires Filed(lists[idx := l'], free') && Linked(mem1, l') && |mem1| == |mem0|
    requires forall p :: 0 <= p < |mem0| && mem1[p] != mem0[p] ==>
                           p in lists[idx] || p - 4 in lists[idx] || p in l' || p - 4 in l'
    ensures ListsOk(mem1, seg[idx := At(l', 0)], lists[idx := l'], free')
  {
    var lists' := lists[idx := l'];
    assert lists'[idx] == l';
    forall c | 0 <= c < NUM_SEGLIST ensures Linked(mem1, lists'[c]) {
      if c != idx {
        var l := lists[c];
        forall x | x in l ensures x !in lists[idx] && x !in l' {
          assert Class(free[x].size) == c;
          assert lists'[c] == l && x in lists'[c];
          assert Class(free'[x].size) == c;
        }
        OtherListKept(mem0, mem1, l, lists[idx], l');
      }
    }
  }

  /** What `insert` does to memory, heads and lists is a push on the block's class. */
  lemma PushOk(mem: seq<int>, seg: seq<int>, lists: seq<seq<int>>, free: Blocks, bp: int, b: Block)
    requires ListsOk(mem, seg, lists, free)
    requires bp !in free && 0 < bp && bp % 8 == 0 && bp + 8 <= |mem| && b.size >= 0
    ensures var c := Class(b.size);
            var l := lists[c];
            && (l != [] ==> 0 < l[0] && l[0] + 8 <= |mem|)
            && ListsOk(PushLinks(mem, l, bp), seg[c := bp], lists[c := [bp] + l], free[bp := b])
            && AgreeOutside(mem, PushLinks(mem, l, bp), free[bp := b])
  {
    var c := Class(b.size);
    var l := lists[c];
    ElementsInBounds(mem, seg, lists, free, c);
    assert bp !in l;
    PushKeepsLinked(mem, l, bp);
    FiledPush(lists, free, bp, b);
    assert l != [] ==> l[0] in l;
    AllListsKept(mem, PushLinks(mem, l, bp), seg, lists, free, c, [bp] + l, free[bp := b]);
  }

  /** What `delete` does to memory, heads and lists takes out exactly element k. */
  lemma UnlinkOk(mem: seq<int>, seg: seq<int>, lists: seq<seq<int>>, free: Blocks, bp: int, k: nat)
    requires ListsOk(mem, seg, lists, free) && bp in free
    requires k < |lists[Class(free[bp].size)]| && lists[Class(free[bp].size)][k] == bp
    ensures var c := Class(free[bp].size);
            var l := lists[c];
            && (forall i :: 0 <= i < |l| ==> 0 < l[i] && l[i] % 8 == 0 && l[i] + 8 <= |mem|)
            && ListsOk(UnlinkLinks(mem, l, k), seg[c := At(Removed(l, k), 0)], lists[c := Removed(l, k)], free - {bp})
            && AgreeOutside(mem, UnlinkLinks(mem, l, k), free - {bp})
  {
    hide Linked, LinkOk, NoDup, MsbPos, UnlinkLinks, Removed;
    var c := Class(free[bp].size);
    var l := lists[c];
    ElementsInBounds(mem, seg, lists, free, c);
    UnlinkKeepsLinked(mem, l, k);
    RemovedMembers(l, k);
    FiledRemove(lists, free, bp, k);
    UnlinkTouches(mem, l, k);
    AllListsKept(mem, UnlinkLinks(mem, l, k), seg, lists, free, c, Removed(l, k), free - {bp});
    assert forall x :: x in Removed(l, k) ==> x in free - {bp};
  }

  lemma UnlinkTouches(mem: seq<int>, l: seq<int>, k: nat)
    requires k < |l| && NoDup(l)
    requires forall i :: 0 <= i < |l| ==> 0 < l[i] && l[i] + 8 <= |mem|
    ensures var m := UnlinkLinks(mem, l, k);
            && |m| == |mem|
            && forall p :: 0 <= p < |mem| && m[p] != mem[p] ==> p in Removed(l, k) || p - 4 in Removed(l, k)
  {
    var r := Removed(l, k);
    assert k > 0 ==> r[k - 1] == l[k - 1];
    assert k + 1 < |l| ==> r[k] == l[k + 1];
  }
}
