/** What the key slots of a B-tree may hold, dead ones included, and which insertions that loses. */
module BTreeSlots {
  import opened SortedSequences
  import opened BTrees
  import opened BTreeRemoval
  import opened BTreeOperations

  ghost predicate AllIn(keys: seq<int>, s: set<int>) { forall x :: x in keys ==> x in s }

  /** Every slot of every node, live or dead, holds a value of s. */
  ghost predicate SlotsIn(t: Tree, s: set<int>) {
    AllIn(t.live, s) && AllIn(t.dead, s) && (t.Node? ==> KidsIn(t.kids, s))
  }

  ghost predicate KidsIn(kids: seq<Tree>, s: set<int>) { forall c :: c in kids ==> SlotsIn(c, s) }

  lemma {:induction false} MoreSlots(t: Tree, s: set<int>, s': set<int>)
    requires SlotsIn(t, s) && s <= s'
    ensures SlotsIn(t, s')
  {
    if t.Node? {
      forall c | c in t.kids ensures SlotsIn(c, s') {
        MoreSlots(c, s, s');
      }
    }
  }

  lemma FirstSlots(k: int, b: nat, s: set<int>)
    requires b >= 2 && k in s && BLANK in s
    ensures SlotsIn(Leaf([k], Blanks(2 * b - 2)), s)
  {
    BlankSlots(2 * b - 2, s);
  }

  lemma BlankSlots(n: nat, s: set<int>)
    requires BLANK in s
    ensures AllIn(Blanks(n), s)
  {
  }

  lemma HalvesSlots(c: Tree, b: nat, s: set<int>)
    requires b >= 2 && |c.live| == 2 * b - 1 && (c.Node? ==> |c.kids| == 2 * b)
    requires SlotsIn(c, s) && BLANK in s
    ensures SlotsIn(LeftHalf(c, b), s) && SlotsIn(RightHalf(c, b), s)
  {
    BlankSlots(b - 1, s);
    BlankSlots(b, s);
    hide Blanks;
  }

  lemma SplitSlots(p: Tree, i: nat, b: nat, s: set<int>)
    requires b >= 2 && p.Node? && |p.kids| == |p.live| + 1 && i < |p.kids| && p.dead != []
    requires |p.kids[i].live| == 2 * b - 1 && (p.kids[i].Node? ==> |p.kids[i].kids| == 2 * b)
    requires SlotsIn(p, s) && BLANK in s
    ensures SlotsIn(SplitChild(p, i, b), s)
  {
    hide LeftHalf, RightHalf;
    assert p.kids[i] in p.kids;
    HalvesSlots(p.kids[i], b, s);
    assert p.kids[i].live[b - 1] in p.kids[i].live;
  }

  lemma PreparedSlots(t: Tree, k: int, b: nat, h: nat, s: set<int>)
    requires t.Node? && Enterable(t, b, h) && SlotsIn(t, s) && BLANK in s
    ensures SlotsIn(Prepared(t, k, b, h), s)
  {
    hide LeftHalf, RightHalf, SlotsIn;
    var i := GetIndex(t.live, k);
    KidAt(t, b, h, i);
    if |t.kids[i].live| >= 2 * b - 1 {
      SplitFacts(t, i, b, h);
      SplitSlots(t, i, b, s);
    }
  }

  /** Insertion brings no value but the key and blanks into the slots. */
  lemma {:induction false} InsertSlots(t: Tree, k: int, b: nat, h: nat, s: set<int>)
    requires Enterable(t, b, h) && SlotsIn(t, s) && BLANK in s && k in s
    ensures SlotsIn(Insert(t, k, b, h).0, s)
    decreases h
  {
    hide Prepared, GetIndex;
    if t.Node? {
      PreparedFacts(t, k, b, h);
      PreparedSlots(t, k, b, h, s);
      var p := Prepared(t, k, b, h);
      InsertSlots(p.kids[GetIndex(p.live, k)], k, b, h - 1, s);
    }
  }

  lemma InsertRootSlots(t: Tree, k: int, b: nat, h: nat, s: set<int>)
    requires IsBTree(t, b, h) && SlotsIn(t, s) && BLANK in s && k in s
    ensures SlotsIn(InsertRoot(t, k, b, h).0, s)
  {
    hide LeftHalf, RightHalf, InOrder;
    RootForFacts(t, b, h);
    if |t.live| >= 2 * b - 1 {
      RaisedFacts(t, b, h);
      SplitSlots(Raised(t, b), 0, b, s);
    }
    InsertSlots(RootFor(t, b, h), k, b, HeightFor(t, b, h), s);
  }

  lemma LikeSlots(t: Tree, live: seq<int>, dead: seq<int>, kids: seq<Tree>, s: set<int>)
    requires AllIn(live, s) && AllIn(dead, s) && KidsIn(kids, s)
    ensures SlotsIn(Like(t, live, dead, kids), s)
  {
  }

  /** Two children and the key between them replaced by values of s. */
  lemma PairSlots(p: Tree, i: nat, l: Tree, m: int, r: Tree, s: set<int>)
    requires p.Node? && SlotsIn(p, s) && i < |p.live| && |p.kids| == |p.live| + 1
    requires SlotsIn(l, s) && m in s && SlotsIn(r, s)
    ensures SlotsIn(p.(live := p.live[i := m], kids := p.kids[i := l][i + 1 := r]), s)
  {
    hide SlotsIn;
    var kids := p.kids[i := l][i + 1 := r];
    NodeSlots(p, s);
    assert forall c :: c in kids ==> c == l || c == r || c in p.kids;
    assert forall x :: x in p.live[i := m] ==> x == m || x in p.live;
    NodeSlots(p.(live := p.live[i := m], kids := kids), s);
  }

  lemma NodeSlots(p: Tree, s: set<int>)
    requires p.Node?
    ensures SlotsIn(p, s) <==> AllIn(p.live, s) && AllIn(p.dead, s) && KidsIn(p.kids, s)
  {
  }

  lemma KeyOf(keys: seq<int>, i: nat, s: set<int>)
    requires AllIn(keys, s) && i < |keys|
    ensures keys[i] in s
  {
    var x := keys[i];
    assert x in keys;
  }

  lemma TwoKids(p: Tree, i: nat, b: nat, h: nat, s: set<int>)
    requires Siblings(p, i, b, h) && SlotsIn(p, s)
    ensures |p.kids| == |p.live| + 1 && SlotsIn(p.kids[i], s) && SlotsIn(p.kids[i + 1], s) && p.live[i] in s
  {
    SiblingFacts(p, i, b, h);
    NodeSlots(p, s);
    KeyOf(p.live, i, s);
    assert p.kids[i] in p.kids && p.kids[i + 1] in p.kids;
  }

  lemma BorrowRightSlots(p: Tree, e: nat, b: nat, h: nat, s: set<int>)
    requires Siblings(p, e, b, h) && |p.kids[e].live| < 2 * b - 1 && |p.kids[e + 1].live| > 0 && SlotsIn(p, s)
    ensures SlotsIn(BorrowRight(p, e, b, h), s)
  {
    hide Like;
    SiblingFacts(p, e, b, h);
    TwoKids(p, e, b, h, s);
    var (c, d) := (p.kids[e], p.kids[e + 1]);
    KidShows(c, b, h - 1);
    var n := |d.live| - 1;
    assert d.live[0] in d.live && d.live[n] in d.live;
    LikeSlots(c, c.live + [p.live[e]], c.dead[1..], if c.Leaf? then [] else c.kids + [d.kids[0]], s);
    LikeSlots(c, d.live[1..], [d.live[n]] + d.dead, if c.Leaf? then [] else d.kids[1..], s);
    PairSlots(p, e, Like(c, c.live + [p.live[e]], c.dead[1..], if c.Leaf? then [] else c.kids + [d.kids[0]]), d.live[0],
      Like(c, d.live[1..], [d.live[n]] + d.dead, if c.Leaf? then [] else d.kids[1..]), s);
  }

  lemma BorrowLeftSlots(p: Tree, e: nat, b: nat, h: nat, s: set<int>)
    requires e > 0 && Siblings(p, e - 1, b, h) && |p.kids[e].live| < 2 * b - 1 && |p.kids[e - 1].live| > 0
    requires SlotsIn(p, s)
    ensures SlotsIn(BorrowLeft(p, e, b, h), s)
  {
    hide Like;
    SiblingFacts(p, e - 1, b, h);
    TwoKids(p, e - 1, b, h, s);
    var (d, c) := (p.kids[e - 1], p.kids[e]);
    KidShows(c, b, h - 1);
    var n := |d.live| - 1;
    assert d.live[n] in d.live;
    LikeSlots(c, [p.live[e - 1]] + c.live, c.dead[1..], if c.Leaf? then [] else [d.kids[n + 1]] + c.kids, s);
    LikeSlots(c, d.live[..n], [d.live[n]] + d.dead, if c.Leaf? then [] else d.kids[..n + 1], s);
    PairSlots(p, e - 1, Like(c, d.live[..n], [d.live[n]] + d.dead, if c.Leaf? then [] else d.kids[..n + 1]), d.live[n],
      Like(c, [p.live[e - 1]] + c.live, c.dead[1..], if c.Leaf? then [] else [d.kids[n + 1]] + c.kids), s);
  }

  lemma MergeSlots(p: Tree, i: nat, b: nat, h: nat, s: set<int>)
    requires Siblings(p, i, b, h) && |p.kids[i].live| + |p.kids[i + 1].live| + 1 <= 2 * b - 1
    requires SlotsIn(p, s) && BLANK in s
    ensures SlotsIn(MergeAt(p, i, b, h), s)
  {
    hide Like;
    SiblingFacts(p, i, b, h);
    TwoKids(p, i, b, h, s);
    var (c, d) := (p.kids[i], p.kids[i + 1]);
    KidShows(c, b, h - 1);
    LikeSlots(c, c.live + [p.live[i]] + d.live, c.dead[|d.live| + 1..],
      if c.Leaf? || d.Leaf? then [] else c.kids + d.kids, s);
  }

  lemma RelievedSlots(t: Tree, k: int, b: nat, h: nat, s: set<int>)
    requires MayRelieve(t, b, h) && SlotsIn(t, s) && BLANK in s
    ensures SlotsIn(Relieved(t, k, b, h), s)
  {
    hide SlotsIn, BorrowRight, BorrowLeft, MergeAt, GetIndex;
    var e := GetIndex(t.live, k);
    var n := |t.live|;
    SparseFacts(t, e, b, h);
    if |t.kids[e].live| <= b - 1 {
      if e < n && |t.kids[e + 1].live| > b - 1 {
        BorrowRightSlots(t, e, b, h, s);
      } else if e > 0 && |t.kids[e - 1].live| > b - 1 {
        BorrowLeftSlots(t, e, b, h, s);
      } else {
        MergeSlots(t, if e == n then e - 1 else e, b, h, s);
      }
    }
  }

  lemma {:induction false} RightmostSlot(t: Tree, b: nat, h: nat, s: set<int>)
    requires b >= 2 && Kid(t, b, h) && SlotsIn(t, s)
    ensures RightmostKey(t, b, h) in s
    decreases h
  {
    KidShows(t, b, h);
    if t.Node? {
      KidAt(t, b, h, |t.live|);
      RightmostSlot(t.kids[|t.live|], b, h - 1, s);
    }
  }

  /** Removal brings no value but blanks into the slots. */
  lemma {:induction false} RemoveSlots(t: Tree, k: int, b: nat, h: nat, s: set<int>)
    requires MayRemove(t, k, b, h) && SlotsIn(t, s) && BLANK in s
    ensures SlotsIn(Remove(t, k, b, h), s)
    decreases h
  {
    hide Relieved, GetIndex, InOrder, Sorted, RightmostKey;
    if t.Node? {
      EntersKid(t, k, b, h);
      RelievedSlots(t, k, b, h, s);
      var p := Relieved(t, k, b, h);
      var j := GetIndex(p.live, k);
      KidAt(p, b, h, j);
      var x := Target(p, k, b, h);
      if j < |p.live| && p.live[j] == k { RightmostSlot(p.kids[j], b, h - 1, s); }
      RemoveSlots(p.kids[j], x, b, h - 1, s);
    }
  }

  lemma RemoveRootSlots(t: Tree, k: int, b: nat, h: nat, s: set<int>)
    requires IsBTree(t, b, h) && k in InOrder(t) && SlotsIn(t, s) && BLANK in s
    ensures SlotsIn(RemoveRoot(t, k, b, h), s)
  {
    hide InOrder, Sorted, Remove;
    RootMayRemove(t, k, b, h);
    RemoveShape(t, k, b, h);
    RemoveSlots(t, k, b, h, s);
  }

  lemma {:induction false} LeafSlots(t: Tree, k: int, b: nat, h: nat, s: set<int>)
    requires WellFormed(t, b, h) && SlotsIn(t, s)
    ensures SlotsIn(LeafFor(t, k, b, h), s)
    decreases h
  {
    hide GetIndex;
    if t.Node? {
      KidAt(t, b, h, GetIndex(t.live, k));
      LeafSlots(t.kids[GetIndex(t.live, k)], k, b, h - 1, s);
    }
  }

  /** Only a value that some slot holds, or the blank one, can be refused. */
  lemma FreshKeyGoesIn(t: Tree, k: int, b: nat, h: nat, s: set<int>)
    requires IsBTree(t, b, h) && SlotsIn(t, s) && k !in s && k != BLANK
    ensures InsertRoot(t, k, b, h).1
  {
    hide InOrder, InsertRoot, LeafFor, GetIndex, Sorted;
    InsertRootFacts(t, k, b, h);
    LeafSlots(t, k, b, h, s);
  }

  /** Two leaves below one key. */
  function Two(k: int, l: seq<int>, dl: seq<int>, r: seq<int>, dr: seq<int>): Tree {
    Node([k], Blanks(2), [Leaf(l, dl), Leaf(r, dr)])
  }

  lemma TwoOrder(k: int, l: seq<int>, dl: seq<int>, r: seq<int>, dr: seq<int>)
    ensures InOrder(Two(k, l, dl, r, dr)) == l + [k] + r
  {
    SinglePair(Leaf(l, dl), k);
    WeaveLast([Leaf(l, dl)], [k], Leaf(r, dr));
    assert [Leaf(l, dl), Leaf(r, dr)] == [Leaf(l, dl)] + [Leaf(r, dr)];
  }

  /** An insertion behind the last key of a leaf with room. */
  lemma LeafAppends(l: seq<int>, dl: seq<int>, x: int)
    requires |l| + |dl| == 3 && |l| < 3 && forall i :: 0 <= i < |l| ==> l[i] < x
    ensures Insert(Leaf(l, dl), x, 2, 0) == if dl[0] == x then (Leaf(l, dl), false) else (Leaf(l + [x], dl[1..]), true)
  {
    GetIndexIs(l, x, |l|);
    assert l[..|l|] + [x] + l[|l|..] == l + [x];
  }

  lemma TwoForm(k: int, l: seq<int>, dl: seq<int>, r: seq<int>, dr: seq<int>)
    requires |l| + |dl| == 3 && |r| + |dr| == 3 && 1 <= |l| && 1 <= |r|
    ensures WellFormed(Two(k, l, dl, r, dr), 2, 1) && Kid(Leaf(l, dl), 2, 0) && Kid(Leaf(r, dr), 2, 0)
    ensures Sorted(l + [k] + r) ==> IsBTree(Two(k, l, dl, r, dr), 2, 1)
  {
    TwoOrder(k, l, dl, r, dr);
    assert Kid(Leaf(l, dl), 2, 0) && Kid(Leaf(r, dr), 2, 0);
  }

  lemma AppendRight(k: int, l: seq<int>, dl: seq<int>, r: seq<int>, dr: seq<int>, x: int)
    requires |l| + |dl| == 3 && |r| + |dr| == 3 && 1 <= |l| && 1 <= |r| < 3
    requires k < x && forall i :: 0 <= i < |r| ==> r[i] < x
    ensures Enterable(Two(k, l, dl, r, dr), 2, 1)
    ensures Insert(Two(k, l, dl, r, dr), x, 2, 1) ==
      if dr[0] == x then (Two(k, l, dl, r, dr), false) else (Two(k, l, dl, r + [x], dr[1..]), true)
  {
    hide GetIndex, LeftHalf, RightHalf, InOrder;
    TwoForm(k, l, dl, r, dr);
    LeafAppends(r, dr, x);
    GetIndexIs([k], x, 1);
    var t := Two(k, l, dl, r, dr);
    PreparedFacts(t, x, 2, 1);
    assert t.kids[1] == Leaf(r, dr) && Prepared(t, x, 2, 1) == t;
    var c := Insert(Leaf(r, dr), x, 2, 0).0;
    assert t.kids[1 := c] == [Leaf(l, dl), c];
    assert t.kids[1 := Leaf(r, dr)] == t.kids;
  }

  lemma FullLeafSplits()
    ensures IsBTree(Leaf([1, 3, 5], []), 2, 0)
    ensures RootFor(Leaf([1, 3, 5], []), 2, 0) == Two(3, [1], [0, 5], [5], [0, 0])
  {
    var t := Leaf([1, 3, 5], []);
    assert WellFormed(t, 2, 0);
    RaisedFacts(t, 2, 0);
    var r := Raised(t, 2);
    assert Blanks(1) == [0] && Blanks(2) == [0, 0] && r.dead[1..] == Blanks(2);
    assert LeftHalf(t, 2) == Leaf([1], [0, 5]) && RightHalf(t, 2) == Leaf([5], [0, 0]);
    assert r.live[..0] + [3] + r.live[0..] == [3];
    assert r.kids[..0] + [LeftHalf(t, 2), RightHalf(t, 2)] + r.kids[1..] == [Leaf([1], [0, 5]), Leaf([5], [0, 0])];
  }

  lemma BorrowTwo(k: int, a: int, dl: seq<int>, r: seq<int>, dr: seq<int>)
    requires |dl| == 2 && |r| + |dr| == 3 && 2 <= |r|
    ensures var t := Two(k, [a], dl, r, dr);
            && Siblings(t, 0, 2, 1)
            && BorrowRight(t, 0, 2, 1) == Two(r[0], [a, k], dl[1..], r[1..], [r[|r| - 1]] + dr)
  {
    hide InOrder;
    TwoForm(k, [a], dl, r, dr);
    var t := Two(k, [a], dl, r, dr);
    SiblingFacts(t, 0, 2, 1);
    var (c, d) := (Leaf([a, k], dl[1..]), Leaf(r[1..], [r[|r| - 1]] + dr));
    assert [a] + [k] == [a, k] && t.kids[0 := c][1 := d] == [c, d] && [k][0 := r[0]] == [r[0]];
  }

  lemma RelievedTwo(k: int, a: int, dl: seq<int>, r: seq<int>, dr: seq<int>)
    requires |dl| == 2 && |r| + |dr| == 3 && 2 <= |r| && a < k
    ensures var t := Two(k, [a], dl, r, dr);
            && MayRelieve(t, 2, 1)
            && Relieved(t, a, 2, 1) == Two(r[0], [a, k], dl[1..], r[1..], [r[|r| - 1]] + dr)
  {
    hide InOrder, BorrowRight, GetIndex;
    TwoForm(k, [a], dl, r, dr);
    BorrowTwo(k, a, dl, r, dr);
    GetIndexIs([k], a, 0);
  }

  /** Removing the only key of a leaf whose right neighbour can spare one: the leaf borrows, and
      the neighbour keeps a copy of its last key behind its keys. */
  lemma SparseRemoval(k: int, a: int, dl: seq<int>, r: seq<int>, dr: seq<int>)
    requires |dl| == 2 && |r| + |dr| == 3 && 2 <= |r| && Sorted([a] + [k] + r)
    ensures var t := Two(k, [a], dl, r, dr);
            && MayRemove(t, a, 2, 1)
            && Remove(t, a, 2, 1) == Two(r[0], [k], [BLANK] + dl[1..], r[1..], [r[|r| - 1]] + dr)
  {
    hide InOrder, Relieved, GetIndex;
    var t := Two(k, [a], dl, r, dr);
    TwoForm(k, [a], dl, r, dr);
    TwoOrder(k, [a], dl, r, dr);
    assert ([a] + [k] + r)[0] == a && ([a] + [k] + r)[1] == k && ([a] + [k] + r)[2] == r[0];
    RelievedTwo(k, a, dl, r, dr);
    EntersKid(t, a, 2, 1);
    var p := Relieved(t, a, 2, 1);
    GetIndexIs([r[0]], a, 0);
    GetIndexIs([a, k], a, 0);
    var c := Leaf([k], [BLANK] + dl[1..]);
    assert [a, k][..0] + [a, k][1..] == [k];
    assert Remove(p.kids[0], a, 2, 0) == c;
    assert p.kids[0 := c] == [c, p.kids[1]];
  }

  /** Removing a key of a right leaf that can spare it. */
  lemma RightRemoval(k: int, l: seq<int>, dl: seq<int>, a: int, x: int, dr: seq<int>)
    requires |l| + |dl| == 3 && 1 <= |l| && |dr| == 1 && Sorted(l + [k] + [a, x])
    ensures var t := Two(k, l, dl, [a, x], dr);
            MayRemove(t, x, 2, 1) && Remove(t, x, 2, 1) == Two(k, l, dl, [a], [BLANK] + dr)
  {
    hide InOrder, BorrowRight, BorrowLeft, MergeAt, GetIndex;
    var t := Two(k, l, dl, [a, x], dr);
    TwoForm(k, l, dl, [a, x], dr);
    TwoOrder(k, l, dl, [a, x], dr);
    var s := l + [k] + [a, x];
    assert s[|l|] == k && s[|l| + 1] == a && s[|l| + 2] == x;
    GetIndexIs([k], x, 1);
    GetIndexIs([a, x], x, 1);
    assert Relieved(t, x, 2, 1) == t;
    EntersKid(t, x, 2, 1);
    var c := Leaf([a], [BLANK] + dr);
    assert [a, x][..1] + [a, x][2..] == [a];
    assert Remove(t.kids[1], x, 2, 0) == c;
    assert t.kids[1 := c] == [t.kids[0], c];
  }

  /** What insert and remove do at a root with one key. */
  lemma TwoRoot(k: int, l: seq<int>, dl: seq<int>, r: seq<int>, dr: seq<int>)
    requires |l| + |dl| == 3 && |r| + |dr| == 3 && 1 <= |l| && 1 <= |r| && Sorted(l + [k] + r)
    ensures var t := Two(k, l, dl, r, dr);
            && IsBTree(t, 2, 1) && InOrder(t) == l + [k] + r
            && (forall x :: InsertRoot(t, x, 2, 1) == Insert(t, x, 2, 1))
            && forall x :: x in l + [k] + r && Remove(t, x, 2, 1).live != [] ==>
              RemoveRoot(t, x, 2, 1) == Remove(t, x, 2, 1)
  {
    hide InOrder, Insert, Remove;
    TwoForm(k, l, dl, r, dr);
    TwoOrder(k, l, dl, r, dr);
  }

  lemma FirstInsertions()
    ensures var t := Leaf([1, 3, 5], []);
            IsBTree(t, 2, 0) && InsertRoot(t, 7, 2, 0) == (Two(3, [1], [0, 5], [5, 7], [0]), true)
    ensures var t := Two(3, [1], [0, 5], [5, 7], [0]);
            IsBTree(t, 2, 1) && InsertRoot(t, 10, 2, 1) == (Two(3, [1], [0, 5], [5, 7, 10], []), true)
  {
    hide InOrder, Insert, Two, RootFor;
    FullLeafSplits();
    assert HeightFor(Leaf([1, 3, 5], []), 2, 0) == 1;
    AppendRight(3, [1], [0, 5], [5], [0, 0], 7);
    assert [5] + [7] == [5, 7] && [0, 0][1..] == [0];
    AppendRight(3, [1], [0, 5], [5, 7], [0], 10);
    assert [5, 7] + [10] == [5, 7, 10] && [0][1..] == [];
    assert [1] + [3] + [5, 7] == [1, 3, 5, 7];
    TwoRoot(3, [1], [0, 5], [5, 7], [0]);
  }

  lemma FirstRemoval()
    ensures var t := Two(3, [1], [0, 5], [5, 7, 10], []);
            IsBTree(t, 2, 1) && 1 in InOrder(t) && RemoveRoot(t, 1, 2, 1) == Two(5, [3], [0, 5], [7, 10], [10])
  {
    hide InOrder, Remove, RemoveRoot;
    assert [1] + [3] + [5, 7, 10] == [1, 3, 5, 7, 10];
    TwoRoot(3, [1], [0, 5], [5, 7, 10], []);
    SparseRemoval(3, 1, [0, 5], [5, 7, 10], []);
    assert [BLANK] + [0, 5][1..] == [0, 5] && [5, 7, 10][1..] == [7, 10] && [10] + [] == [10];
  }

  lemma SecondRemoval()
    ensures var t := Two(5, [3], [0, 5], [7, 10], [10]);
            IsBTree(t, 2, 1) && 10 in InOrder(t) && RemoveRoot(t, 10, 2, 1) == Two(5, [3], [0, 5], [7], [0, 10])
  {
    hide InOrder, Remove, RemoveRoot;
    assert [3] + [5] + [7, 10] == [3, 5, 7, 10];
    TwoRoot(5, [3], [0, 5], [7, 10], [10]);
    RightRemoval(5, [3], [0, 5], 7, 10, [10]);
    assert [BLANK] + [10] == [0, 10];
  }

  lemma LastInsertions()
    ensures var t := Two(5, [3], [0, 5], [7], [0, 10]);
            IsBTree(t, 2, 1) && InsertRoot(t, 8, 2, 1) == (Two(5, [3], [0, 5], [7, 8], [10]), true)
    ensures var t := Two(5, [3], [0, 5], [7, 8], [10]);
            IsBTree(t, 2, 1) && InOrder(t) == [3, 5, 7, 8] && InsertRoot(t, 10, 2, 1) == (t, false)
  {
    hide InOrder, Insert, Two;
    assert [3] + [5] + [7] == [3, 5, 7];
    TwoRoot(5, [3], [0, 5], [7], [0, 10]);
    AppendRight(5, [3], [0, 5], [7], [0, 10], 8);
    assert [7] + [8] == [7, 8] && [0, 10][1..] == [10];
    assert [3] + [5] + [7, 8] == [3, 5, 7, 8];
    TwoRoot(5, [3], [0, 5], [7, 8], [10]);
    AppendRight(5, [3], [0, 5], [7, 8], [10], 10);
  }

  /** A key that has been removed need not go in again: after 7 and 10 have gone in, 1 and 10
      have gone and 8 has gone in, the leaf refuses 10, which it still has in a dead slot. */
  lemma RemovedKeyIsLost() returns (a: Tree, b: Tree, c: Tree, d: Tree, e: Tree)
    ensures IsBTree(Leaf([1, 3, 5], []), 2, 0) && a == InsertRoot(Leaf([1, 3, 5], []), 7, 2, 0).0
    ensures IsBTree(a, 2, 1) && b == InsertRoot(a, 10, 2, 1).0
    ensures IsBTree(b, 2, 1) && 1 in InOrder(b) && c == RemoveRoot(b, 1, 2, 1)
    ensures IsBTree(c, 2, 1) && 10 in InOrder(c) && d == RemoveRoot(c, 10, 2, 1)
    ensures IsBTree(d, 2, 1) && e == InsertRoot(d, 8, 2, 1).0
    ensures IsBTree(e, 2, 1) && InOrder(e) == [3, 5, 7, 8] && InsertRoot(e, 10, 2, 1) == (e, false)
  {
    hide InOrder, Two, InsertRoot, RemoveRoot;
    FirstInsertions();
    FirstRemoval();
    SecondRemoval();
    LastInsertions();
    a := InsertRoot(Leaf([1, 3, 5], []), 7, 2, 0).0;
    b := InsertRoot(a, 10, 2, 1).0;
    c := RemoveRoot(b, 1, 2, 1);
    d := RemoveRoot(c, 10, 2, 1);
    e := InsertRoot(d, 8, 2, 1).0;
  }

  lemma FullLeaf(t: Tree, b: nat)
    requires b >= 2 && t.Leaf? && |t.live| == 2 * b - 1 && t.dead == [] && Sorted(t.live)
    ensures IsBTree(t, b, 0) && InOrder(t) == t.live && forall k :: LeafFor(t, k, b, 0) == t
  {
  }

  /** The middle key of a full root leaf goes in a second time, unless it is the blank value. */
  lemma MiddleKeyTwice(t: Tree, b: nat)
    requires b >= 2 && t.Leaf? && |t.live| == 2 * b - 1 && t.dead == [] && Sorted(t.live)
    ensures var k := t.live[b - 1];
            && IsBTree(t, b, 0) && (InsertRoot(t, k, b, 0).1 <==> k != BLANK)
            && (k != BLANK ==> InOrder(InsertRoot(t, k, b, 0).0) == t.live[..b - 1] + [k, k] + t.live[b..])
  {
    hide InsertRoot, Refuses, InOrder, IsBTree, Sorted, LeafFor, GetIndex;
    FullLeaf(t, b);
    var k := t.live[b - 1];
    assert k in t.live;
    PresentKeyExactly(t, k, b, 0);
    InsertRootFacts(t, k, b, 0);
    IndexIs(t.live, b - 1);
    assert t.live[..b - 1] + [k] + t.live[b - 1..] == t.live[..b - 1] + [k, k] + t.live[b..];
  }

  lemma IndexIs(s: seq<int>, i: nat)
    requires i < |s| && Sorted(s)
    ensures GetIndex(s, s[i]) == i
  {
    GetIndexIs(s, s[i], i);
  }
}
