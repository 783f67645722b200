/** B-tree removal in place: borrowing from siblings, merging them, and the descent. */
module BTreeDeletion {
  import opened SortedSequences
  import opened BTrees
  import R = BTreeRemoval
  import opened BTreeArrays
  import opened BTreeNodes
  import I = BTreeInsertion

  lemma LinkAdded(edges: seq<BNode?>, kids: seq<Shape>, k: Shape)
    requires Links(edges, kids) && |kids| < |edges|
    ensures Links(edges[|kids| := k.node], kids + [k])
  {
  }

  lemma LastLinkDropped(edges: seq<BNode?>, kids: seq<Shape>)
    requires Links(edges, kids) && kids != []
    ensures Links(edges[|kids| - 1 := null], kids[..|kids| - 1])
  {
  }

  /** The first edge goes, and the others move down. */
  method DropFirstLink(edges: array<BNode?>, n: nat, ghost kids: seq<Shape>)
    requires Links(edges[..], kids) && |kids| == n + 1
    modifies edges
    ensures Links(edges[..], kids[1..])
  {
    ShiftDown(edges, 0, n);
    edges[n] := null;
  }

  /** The edges move up, and another one comes first. */
  method AddFirstLink(edges: array<BNode?>, n: nat, x: BNode, ghost kids: seq<Shape>, ghost k: Shape)
    requires Links(edges[..], kids) && |kids| == n + 1 < edges.Length && k.node == x
    modifies edges
    ensures Links(edges[..], [k] + kids)
  {
    ShiftUp(edges, 0, n + 1);
    edges[0] := x;
  }

  lemma KeyAdded(live: seq<int>, dead: seq<int>, k: int)
    requires dead != []
    ensures (live + dead)[|live| := k] == live + [k] + dead[1..]
  {
  }

  lemma FirstKeyGone(live: seq<int>, dead: seq<int>)
    requires live != []
    ensures var (keys, n) := (live + dead, |live|);
            keys[..0] + keys[1..n] + keys[0 + (n - 1)..] == live[1..] + ([live[n - 1]] + dead)
  {
  }

  lemma LastKeyGone(live: seq<int>, dead: seq<int>)
    requires live != []
    ensures live + dead == live[..|live| - 1] + ([live[|live| - 1]] + dead)
  {
  }

  /** Two siblings of the same kind, stored in different nodes. */
  ghost predicate Sibs(c: BNode, ck: seq<Shape>, tc: Tree, d: BNode, dk: seq<Shape>, td: Tree, b: nat)
    reads Own(c), Own(d)
  {
    && NodeIs(c, ck, tc, b) && NodeIs(d, dk, td, b) && Own(c) !! Own(d)
    && |ck| == |Kids(tc)| && |dk| == |Kids(td)| && (tc.Leaf? <==> td.Leaf?)
    && (tc.Node? ==> |tc.kids| == |tc.live| + 1 && |td.kids| == |td.live| + 1)
  }

  /** The left sibling after it has got a key and, below it, the right one's first child. */
  ghost function GrownRight(tc: Tree, k: int, td: Tree): Tree
    requires tc.dead != [] && (tc.Node? ==> td.Node? && td.kids != [])
  {
    R.Like(tc, tc.live + [k], tc.dead[1..], if tc.Leaf? then [] else tc.kids + [td.kids[0]])
  }

  /** The right sibling without its first key and child. */
  ghost function ShrunkRight(tc: Tree, td: Tree): Tree
    requires td.live != [] && (tc.Node? ==> td.Node? && td.kids != [])
  {
    R.Like(tc, td.live[1..], [td.live[|td.live| - 1]] + td.dead, if tc.Leaf? then [] else td.kids[1..])
  }

  lemma LikeParts(t: Tree, live: seq<int>, dead: seq<int>, kids: seq<Tree>)
    ensures var u := R.Like(t, live, dead, kids);
            u.live == live && u.dead == dead && (u.Leaf? <==> t.Leaf?) && Kids(u) == if t.Leaf? then [] else kids
  {
  }

  lemma SibsShow(c: BNode, ck: seq<Shape>, tc: Tree, d: BNode, dk: seq<Shape>, td: Tree, b: nat)
    requires Sibs(c, ck, tc, d, dk, td, b)
    ensures NodeIs(c, ck, tc, b) && NodeIs(d, dk, td, b)
    ensures c != d && c.keys != d.keys && c.edges != d.edges
    ensures c.keys as object != d.edges as object && d.keys as object != c.edges as object
    ensures |ck| == |Kids(tc)| && |dk| == |Kids(td)| && (tc.Leaf? <==> td.Leaf?)
    ensures tc.Leaf? ==> ck == [] && dk == []
    ensures tc.Node? ==> |ck| == |tc.kids| == |tc.live| + 1 && |dk| == |td.kids| == |td.live| + 1
  {
    hide NodeIs;
    assert c in Own(c) && c.keys as object in Own(c) && c.edges as object in Own(c);
    assert d in Own(d) && d.keys as object in Own(d) && d.edges as object in Own(d);
  }

  /** The keys that borrow_from_right moves. */
  method KeyFromRight(keys: array<int>, e: nat, ck: array<int>, cn: nat, dk: array<int>, dn: nat, ghost tc: Tree,
      ghost td: Tree)
    requires keys != ck && keys != dk && ck != dk && e < keys.Length
    requires ck[..] == tc.live + tc.dead && cn == |tc.live| && tc.dead != []
    requires dk[..] == td.live + td.dead && dn == |td.live| > 0
    modifies keys, ck, dk
    ensures keys[..] == old(keys[..])[e := td.live[0]]
    ensures ck[..] == tc.live + [old(keys[e])] + tc.dead[1..]
    ensures dk[..] == td.live[1..] + ([td.live[|td.live| - 1]] + td.dead)
  {
    KeyAdded(tc.live, tc.dead, keys[e]);
    FirstKeyGone(td.live, td.dead);
    assert dk[0] == dk[..][0];
    ck[cn] := keys[e];
    keys[e] := dk[0];
    MoveRange(dk, 1, dn, dk, 0);
  }

  /** The fields that borrow_from_right changes. */
  method MoveFromRight(keys: array<int>, e: nat, c: BNode, d: BNode, b: nat,
                       ghost ck: seq<Shape>, ghost tc: Tree, ghost dk: seq<Shape>, ghost td: Tree)
    requires Sibs(c, ck, tc, d, dk, td, b) && keys !in Own(c) && keys !in Own(d) && e < keys.Length
    requires |tc.live| < 2 * b - 1 && td.live != []
    modifies keys, Own(c), Own(d)
    ensures keys[..] == old(keys[..])[e := td.live[0]]
    ensures var m := if tc.Leaf? then 0 else 1;
            && tc.dead != [] && (tc.Node? ==> td.Node? && td.kids != []) && m <= |dk|
            && NodeIs(c, ck + dk[..m], GrownRight(tc, old(keys[e]), td), b)
            && NodeIs(d, dk[m..], ShrunkRight(tc, td), b)
  {
    hide Links, NodeIs, Sibs, Kids, R.Like;
    SibsShow(c, ck, tc, d, dk, td, b);
    Shows(c, ck, tc, b);
    Shows(d, dk, td, b);
    ghost var k := keys[e];
    KeyFromRight(keys, e, c.keys, c.n, d.keys, d.n, tc, td);
    if !c.leaf {
      I.LinkAt(d.edges[..], dk, 0);
      LinkAdded(c.edges[..], ck, dk[0]);
      c.edges[c.n + 1] := d.edges[0];
      DropFirstLink(d.edges, d.n, dk);
      assert dk[..1] == [dk[0]];
    } else {
      assert ck == ck + dk[..0] == [] && dk == dk[0..];
    }
    c.n := c.n + 1;
    d.n := d.n - 1;
    LikeParts(tc, tc.live + [k], tc.dead[1..], if tc.Leaf? then [] else tc.kids + [td.kids[0]]);
    LikeParts(tc, td.live[1..], [td.live[|td.live| - 1]] + td.dead, if tc.Leaf? then [] else td.kids[1..]);
    ghost var m := if tc.Leaf? then 0 else 1;
    Made(c, ck + dk[..m], GrownRight(tc, k, td), b);
    Made(d, dk[m..], ShrunkRight(tc, td), b);
  }

  lemma SameNodes(edges: seq<BNode?>, l: seq<Shape>, c: Shape, d: Shape, r: seq<Shape>, c': Shape, d': Shape)
    requires Links(edges, l + [c, d] + r) && c'.node == c.node && d'.node == d.node
    ensures Links(edges, l + [c', d'] + r)
  {
  }

  lemma KeyReplaced(live: seq<int>, dead: seq<int>, e: nat, x: int)
    requires e < |live|
    ensures (live + dead)[e := x] == live[e := x] + dead
  {
  }

  lemma KidsReplaced(kids: seq<Tree>, e: nat, c: Tree, d: Tree)
    requires e + 1 < |kids|
    ensures kids[e := c][e + 1 := d] == kids[..e] + [c, d] + kids[e + 2..]
  {
  }

  lemma SibsShown(s: Shape, t: Tree, e: nat, b: nat, h: nat)
    requires R.Siblings(t, e, b, h) && e + 1 < |s.kids| == |t.kids|
    requires Is(s.kids[e], t.kids[e], b) && Is(s.kids[e + 1], t.kids[e + 1], b)
      && Parts([s.kids[e]]) !! Parts([s.kids[e + 1]])
    ensures Sibs(s.kids[e].node, s.kids[e].kids, t.kids[e], s.kids[e + 1].node, s.kids[e + 1].kids, t.kids[e + 1], b)
  {
    hide Is, NodeIs, Store, Distinct, Parts, Own;
    R.SiblingFacts(t, e, b, h);
    Means(s.kids[e], t.kids[e], b);
    Means(s.kids[e + 1], t.kids[e + 1], b);
  }

  lemma RightKids(tc: Tree, k: int, td: Tree)
    requires tc.dead != [] && td.live != [] && (tc.Leaf? <==> td.Leaf?) && (td.Node? ==> td.kids != [])
    ensures var m := if tc.Leaf? then 0 else 1;
            m <= |Kids(td)| && Kids(GrownRight(tc, k, td)) == Kids(tc) + Kids(td)[..m]
              && Kids(ShrunkRight(tc, td)) == Kids(td)[m..]
  {
  }

  lemma BorrowRightIs(t: Tree, e: nat, b: nat, h: nat)
    requires R.Siblings(t, e, b, h) && |t.kids| == |t.live| + 1
    requires |t.kids[e].live| < 2 * b - 1 && |t.kids[e + 1].live| > 0
    ensures var (tc, td) := (t.kids[e], t.kids[e + 1]);
            && tc.dead != [] && (tc.Leaf? <==> td.Leaf?) && (td.Node? ==> td.kids != [])
            && R.BorrowRight(t, e, b, h) ==
               Node(t.live[e := td.live[0]], t.dead,
                 t.kids[..e] + [GrownRight(tc, t.live[e], td), ShrunkRight(tc, td)] + t.kids[e + 2..])
  {
    hide R.Like;
    R.SiblingFacts(t, e, b, h);
    KidsReplaced(t.kids, e, GrownRight(t.kids[e], t.live[e], t.kids[e + 1]), ShrunkRight(t.kids[e], t.kids[e + 1]));
  }

  /** The two children of borrow_from_right, with the key between them. */
  method PairFromRight(keys: array<int>, e: nat, c: BNode, d: BNode, b: nat, ghost sc: Shape, ghost tc: Tree,
      ghost sd: Shape, ghost td: Tree)
    returns (ghost sc': Shape, ghost sd': Shape)
    requires Is(sc, tc, b) && Is(sd, td, b) && Parts([sc]) !! Parts([sd]) && sc.node == c && sd.node == d
    requires Sibs(c, sc.kids, tc, d, sd.kids, td, b) && keys !in Parts([sc]) && keys !in Parts([sd]) && e < keys.Length
    requires |tc.live| < 2 * b - 1 && td.live != [] && tc.dead != [] && (tc.Leaf? <==> td.Leaf?)
      && (td.Node? ==> td.kids != [])
    modifies keys, Own(c), Own(d)
    ensures keys[..] == old(keys[..])[e := td.live[0]]
    ensures Is(sc', GrownRight(tc, old(keys[e]), td), b) && Is(sd', ShrunkRight(tc, td), b) && sc'.node == c
      && sd'.node == d
    ensures Parts([sc']) !! Parts([sd']) && Parts([sc']) + Parts([sd']) == Parts([sc]) + Parts([sd])
  {
    hide Is, Store, Distinct, Parts, Links, GrownRight, ShrunkRight, Sibs, NodeIs, Kids, Own;
    ghost var m := if tc.Leaf? then 0 else 1;
    Means(sc, tc, b);
    Means(sd, td, b);
    RightKids(tc, keys[e], td);
    Open(sd, td, b, m, m);
    NoneBetween(sd.kids, m);
    ghost var k := keys[e];
    MoveFromRight(keys, e, c, d, b, sc.kids, tc, sd.kids, td);
    CloseTwo(c, GrownRight(tc, k, td), b, sc.kids, Kids(tc), sd.kids[..m], Kids(td)[..m]);
    CloseAll(d, ShrunkRight(tc, td), b, sd.kids[m..]);
    sc', sd' := At(c, sc.kids + sd.kids[..m]), At(d, sd.kids[m..]);
  }

  lemma NoneBetween(kids: seq<Shape>, m: nat)
    requires m <= |kids|
    ensures Parts(kids[m..m]) == {}
  {
    assert kids[m..m] == [];
  }

  /** borrow_from_right. */
  method BorrowFromRight(p: BNode, e: nat, b: nat, ghost s: Shape, ghost t: Tree, ghost h: nat)
      returns (ghost s': Shape)
    requires Is(s, t, b) && s.node == p && R.Siblings(t, e, b, h) && |t.kids| == |t.live| + 1
    requires |t.kids[e].live| < 2 * b - 1 && |t.kids[e + 1].live| > 0
    modifies Parts([s])
    ensures Is(s', R.BorrowRight(t, e, b, h), b) && s'.node == p && Parts([s']) == Parts([s])
  {
    hide Is, Store, Distinct, Parts, Links, GrownRight, ShrunkRight, Sibs, NodeIs, R.BorrowRight;
    BorrowRightIs(t, e, b, h);
    OpenPair(s, t, b, e);
    ghost var (l, sc, sd, r, tc, td) := (s.kids[..e], s.kids[e], s.kids[e + 1], s.kids[e + 2..], t.kids[e],
      t.kids[e + 1]);
    SibsShown(s, t, e, b, h);
    Shows(p, s.kids, t, b);
    LinkedKid(p, s.kids, t, b, e);
    LinkedKid(p, s.kids, t, b, e + 1);
    KeyReplaced(t.live, t.dead, e, td.live[0]);
    Means(sc, tc, b);
    Means(sd, td, b);
    ghost var sc', sd' := PairFromRight(p.keys, e, p.edges[e], p.edges[e + 1], b, sc, tc, sd, td);
    SameNodes(p.edges[..], l, sc, sd, r, sc', sd');
    Made(p, l + [sc', sd'] + r, R.BorrowRight(t, e, b, h), b);
    ClosePair(p, R.BorrowRight(t, e, b, h), b, l, t.kids[..e], sc', GrownRight(tc, t.live[e], td), sd',
      ShrunkRight(tc, td), r, t.kids[e + 2..]);
    s' := At(p, l + [sc', sd'] + r);
  }

  // Borrowing from the left: td is the left sibling, tc the child.

  ghost function GrownLeft(td: Tree, k: int, tc: Tree): Tree
    requires tc.dead != [] && (tc.Node? ==> td.Node? && td.kids != [])
  {
    R.Like(tc, [k] + tc.live, tc.dead[1..], if tc.Leaf? then [] else [td.kids[|td.kids| - 1]] + tc.kids)
  }

  ghost function ShrunkLeft(td: Tree, tc: Tree): Tree
    requires td.live != [] && (tc.Node? ==> td.Node? && td.kids != [])
  {
    R.Like(tc, td.live[..|td.live| - 1], [td.live[|td.live| - 1]] + td.dead, if tc.Leaf? then []
      else td.kids[..|td.kids| - 1])
  }

  /** The keys that borrow_from_left moves. */
  method KeyFromLeft(keys: array<int>, e: nat, ck: array<int>, cn: nat, dk: array<int>, dn: nat, ghost tc: Tree,
      ghost td: Tree)
    requires keys != ck && keys != dk && ck != dk && 0 < e <= keys.Length
    requires ck[..] == tc.live + tc.dead && cn == |tc.live| && tc.dead != []
    requires dk[..] == td.live + td.dead && dn == |td.live| > 0
    modifies keys, ck
    ensures keys[..] == old(keys[..])[e - 1 := td.live[|td.live| - 1]]
    ensures ck[..] == [old(keys[e - 1])] + tc.live + tc.dead[1..]
  {
    assert dk[dn - 1] == dk[..][dn - 1];
    I.InsertKey(ck, 0, cn, keys[e - 1], tc.live, tc.dead);
    keys[e - 1] := dk[dn - 1];
  }

  /** The fields that borrow_from_left changes. */
  method MoveFromLeft(keys: array<int>, e: nat, d: BNode, c: BNode, b: nat,
                      ghost dk: seq<Shape>, ghost td: Tree, ghost ck: seq<Shape>, ghost tc: Tree)
    requires Sibs(d, dk, td, c, ck, tc, b) && keys !in Own(c) && keys !in Own(d) && 0 < e <= keys.Length
    requires |tc.live| < 2 * b - 1 && td.live != []
    modifies keys, Own(c), Own(d)
    ensures keys[..] == old(keys[..])[e - 1 := td.live[|td.live| - 1]]
    ensures tc.dead != [] && (tc.Node? ==> td.Node? && td.kids != []) && |dk| == |Kids(td)|
    ensures var m := if tc.Leaf? then 0 else |dk| - 1;
            && m >= 0
            && NodeIs(c, dk[m..] + ck, GrownLeft(td, old(keys[e - 1]), tc), b)
            && NodeIs(d, dk[..m], ShrunkLeft(td, tc), b)
  {
    hide Links, NodeIs, Sibs, Kids, R.Like;
    SibsShow(d, dk, td, c, ck, tc, b);
    Shows(c, ck, tc, b);
    Shows(d, dk, td, b);
    ghost var k := keys[e - 1];
    KeyFromLeft(keys, e, c.keys, c.n, d.keys, d.n, tc, td);
    LastKeyGone(td.live, td.dead);
    if !c.leaf {
      I.LinkAt(d.edges[..], dk, d.n);
      LastLinkDropped(d.edges[..], dk);
      AddFirstLink(c.edges, c.n, d.edges[d.n], ck, dk[d.n]);
      d.edges[d.n] := null;
      assert dk[d.n..] == [dk[d.n]];
    } else {
      assert ck == dk[0..] + ck == [] && dk == dk[..0];
    }
    c.n := c.n + 1;
    d.n := d.n - 1;
    LikeParts(tc, [k] + tc.live, tc.dead[1..], if tc.Leaf? then [] else [td.kids[|td.kids| - 1]] + tc.kids);
    LikeParts(tc, td.live[..|td.live| - 1], [td.live[|td.live| - 1]] + td.dead, if tc.Leaf? then []
      else td.kids[..|td.kids| - 1]);
    ghost var m := if tc.Leaf? then 0 else |dk| - 1;
    Made(c, dk[m..] + ck, GrownLeft(td, k, tc), b);
    Made(d, dk[..m], ShrunkLeft(td, tc), b);
  }

  lemma LeftKids(td: Tree, k: int, tc: Tree)
    requires tc.dead != [] && td.live != [] && (tc.Leaf? <==> td.Leaf?) && (td.Node? ==> td.kids != [])
    ensures var m := if tc.Leaf? then 0 else |td.kids| - 1;
            0 <= m <= |Kids(td)| && Kids(GrownLeft(td, k, tc)) == Kids(td)[m..] + Kids(tc)
              && Kids(ShrunkLeft(td, tc)) == Kids(td)[..m]
  {
  }

  lemma BorrowLeftIs(t: Tree, e: nat, b: nat, h: nat)
    requires e > 0 && R.Siblings(t, e - 1, b, h) && |t.kids| == |t.live| + 1
    requires |t.kids[e].live| < 2 * b - 1 && |t.kids[e - 1].live| > 0
    ensures var (td, tc) := (t.kids[e - 1], t.kids[e]);
            && tc.dead != [] && (tc.Leaf? <==> td.Leaf?) && (td.Node? ==> td.kids != [])
            && R.BorrowLeft(t, e, b, h) ==
               Node(t.live[e - 1 := td.live[|td.live| - 1]], t.dead,
                    t.kids[..e - 1] + [ShrunkLeft(td, tc), GrownLeft(td, t.live[e - 1], tc)] + t.kids[e + 1..])
  {
    hide R.Like;
    R.SiblingFacts(t, e - 1, b, h);
    KidsReplaced(t.kids, e - 1, ShrunkLeft(t.kids[e - 1], t.kids[e]),
      GrownLeft(t.kids[e - 1], t.live[e - 1], t.kids[e]));
  }

  /** The two children of borrow_from_left, with the key between them. */
  method PairFromLeft(keys: array<int>, e: nat, d: BNode, c: BNode, b: nat, ghost sd: Shape, ghost td: Tree,
      ghost sc: Shape, ghost tc: Tree)
    returns (ghost sd': Shape, ghost sc': Shape)
    requires Is(sc, tc, b) && Is(sd, td, b) && Parts([sc]) !! Parts([sd]) && sc.node == c && sd.node == d
    requires Sibs(d, sd.kids, td, c, sc.kids, tc, b) && keys !in Parts([sc]) && keys !in Parts([sd])
      && 0 < e <= keys.Length
    requires |tc.live| < 2 * b - 1 && td.live != [] && tc.dead != [] && (tc.Leaf? <==> td.Leaf?)
      && (td.Node? ==> td.kids != [])
    modifies keys, Own(c), Own(d)
    ensures keys[..] == old(keys[..])[e - 1 := td.live[|td.live| - 1]]
    ensures Is(sc', GrownLeft(td, old(keys[e - 1]), tc), b) && Is(sd', ShrunkLeft(td, tc), b) && sc'.node == c
      && sd'.node == d
    ensures Parts([sd']) !! Parts([sc']) && Parts([sc']) + Parts([sd']) == Parts([sc]) + Parts([sd])
  {
    hide Is, Store, Distinct, Parts, Links, GrownLeft, ShrunkLeft, Sibs, NodeIs, Kids, Own;
    ghost var m := if tc.Leaf? then 0 else |td.kids| - 1;
    Means(sc, tc, b);
    Means(sd, td, b);
    KidCount(td);
    LeftKids(td, keys[e - 1], tc);
    Open(sd, td, b, m, m);
    NoneBetween(sd.kids, m);
    ghost var k := keys[e - 1];
    MoveFromLeft(keys, e, d, c, b, sd.kids, td, sc.kids, tc);
    CloseTwo(c, GrownLeft(td, k, tc), b, sd.kids[m..], Kids(td)[m..], sc.kids, Kids(tc));
    CloseAll(d, ShrunkLeft(td, tc), b, sd.kids[..m]);
    sd', sc' := At(d, sd.kids[..m]), At(c, sd.kids[m..] + sc.kids);
  }

  lemma KidCount(t: Tree)
    ensures |Kids(t)| == if t.Node? then |t.kids| else 0
  {
  }

  /** borrow_from_left. */
  method BorrowFromLeft(p: BNode, e: nat, b: nat, ghost s: Shape, ghost t: Tree, ghost h: nat) returns (ghost s': Shape)
    requires Is(s, t, b) && s.node == p && e > 0 && R.Siblings(t, e - 1, b, h) && |t.kids| == |t.live| + 1
    requires |t.kids[e].live| < 2 * b - 1 && |t.kids[e - 1].live| > 0
    modifies Parts([s])
    ensures Is(s', R.BorrowLeft(t, e, b, h), b) && s'.node == p && Parts([s']) == Parts([s])
  {
    hide Is, Store, Distinct, Parts, Links, GrownLeft, ShrunkLeft, Sibs, NodeIs, R.BorrowLeft;
    BorrowLeftIs(t, e, b, h);
    OpenPair(s, t, b, e - 1);
    ghost var (l, sd, sc, r, td, tc) := (s.kids[..e - 1], s.kids[e - 1], s.kids[e], s.kids[e + 1..], t.kids[e - 1],
      t.kids[e]);
    SibsShown(s, t, e - 1, b, h);
    Shows(p, s.kids, t, b);
    LinkedKid(p, s.kids, t, b, e);
    LinkedKid(p, s.kids, t, b, e - 1);
    KeyReplaced(t.live, t.dead, e - 1, td.live[|td.live| - 1]);
    Means(sc, tc, b);
    Means(sd, td, b);
    ghost var sd', sc' := PairFromLeft(p.keys, e, p.edges[e - 1], p.edges[e], b, sd, td, sc, tc);
    SameNodes(p.edges[..], l, sd, sc, r, sd', sc');
    Made(p, l + [sd', sc'] + r, R.BorrowLeft(t, e, b, h), b);
    ClosePair(p, R.BorrowLeft(t, e, b, h), b, l, t.kids[..e - 1], sd', ShrunkLeft(td, tc), sc',
      GrownLeft(td, t.live[e - 1], tc), r, t.kids[e + 1..]);
    s' := At(p, l + [sd', sc'] + r);
  }

  // Merging two children.

  lemma KeysJoined(live: seq<int>, dead: seq<int>, k: int, more: seq<int>)
    requires |dead| > |more|
    ensures var keys := (live + dead)[|live| := k];
            keys[..|live| + 1] + more + keys[|live| + 1 + |more|..] == live + [k] + more + dead[|more| + 1..]
  {
  }

  lemma KeyOut(live: seq<int>, dead: seq<int>, i: nat)
    requires i < |live|
    ensures var (keys, n) := (live + dead, |live|);
            (keys[..i] + keys[i + 1..n] + keys[n - 1..])[n - 1 := BLANK] == live[..i] + live[i + 1..] + ([BLANK] + dead)
  {
  }

  /** The key between the two children leaves their parent. */
  method DropKey(keys: array<int>, i: nat, n: nat, ghost live: seq<int>, ghost dead: seq<int>)
    requires keys[..] == live + dead && i < n == |live|
    modifies keys
    ensures keys[..] == live[..i] + live[i + 1..] + ([BLANK] + dead)
  {
    KeyOut(live, dead, i);
    ShiftDown(keys, i, n - 1);
    keys[n - 1] := BLANK;
  }

  /** The keys of the second child follow the separating key. */
  method AddKeys(ck: array<int>, cn: nat, ghost k: int, dk: array<int>, dn: nat,
                 ghost live: seq<int>, ghost dead: seq<int>, ghost more: seq<int>)
    requires ck != dk && cn == |live| && |dead| > |more| == dn && dn <= dk.Length
    requires ck[..] == (live + dead)[cn := k] && dk[..dn] == more
    modifies ck
    ensures ck[..] == live + [k] + more + dead[dn + 1..]
  {
    assert dk[0..dn] == more;
    KeysJoined(live, dead, k, more);
    MoveRange(dk, 0, dn, ck, cn + 1);
  }

  /** The keys that merge_children moves. */
  method MergeKeys(keys: array<int>, i: nat, n: nat, ck: array<int>, cn: nat, dk: array<int>, dn: nat,
                   ghost live: seq<int>, ghost dead: seq<int>, ghost tc: Tree, ghost td: Tree)
    requires keys != ck && keys != dk && ck != dk
    requires keys[..] == live + dead && i < n == |live|
    requires ck[..] == tc.live + tc.dead && cn == |tc.live| && |tc.dead| > |td.live|
    requires dk[..] == td.live + td.dead && dn == |td.live|
    modifies keys, ck
    ensures keys[..] == live[..i] + live[i + 1..] + ([BLANK] + dead)
    ensures ck[..] == tc.live + [live[i]] + td.live + tc.dead[|td.live| + 1..]
  {
    assert keys[i] == live[i];
    ck[cn] := keys[i];
    DropKey(keys, i, n, live, dead);
    AddKeys(ck, cn, live[i], dk, dn, tc.live, tc.dead, td.live);
  }

  /** The edges that merge_children moves. */
  method MoveLinks(from: array<BNode?>, n: nat, to: array<BNode?>, at: nat, ghost ck: seq<Shape>, ghost dk: seq<Shape>)
    requires from != to && Links(to[..], ck) && Links(from[..], dk) && |ck| == at && |dk| == n + 1
      && at + n + 1 <= to.Length
    modifies from, to
    ensures Links(to[..], ck + dk)
  {
    ghost var f := from[..];
    assert ck + dk[..0] == ck;
    var i := 0;
    while i <= n
      invariant 0 <= i <= n + 1
      invariant Links(to[..], ck + dk[..i])
      invariant forall j :: i <= j < from.Length ==> from[j] == f[j]
    {
      hide Links;
      I.LinkAt(f, dk, i);
      LinkAdded(to[..], ck + dk[..i], dk[i]);
      ghost var t := to[..];
      to[at + i] := from[i];
      from[i] := null;
      assert to[..] == t[at + i := dk[i].node];
      assert ck + dk[..i + 1] == ck + dk[..i] + [dk[i]];
      i := i + 1;
    }
    assert dk[..n + 1] == dk;
  }

  /** The link to the second of two merged children goes. */
  method DropLink(edges: array<BNode?>, i: nat, n: nat, ghost l: seq<Shape>, ghost c: Shape, ghost d: Shape,
      ghost r: seq<Shape>, ghost m: Shape)
    requires Links(edges[..], l + [c, d] + r) && |l| == i < n && |l + [c, d] + r| == n + 1 && m.node == c.node
    modifies edges
    ensures Links(edges[..], l + [m] + r)
  {
    ShiftDown(edges, i + 1, n);
    edges[n] := null;
  }

  lemma MergedKids(tc: Tree, k: int, td: Tree)
    requires |tc.dead| > |td.live| && (tc.Leaf? <==> td.Leaf?)
    ensures Kids(R.Merged(tc, k, td)) == Kids(tc) + Kids(td)
  {
  }

  /** The two children of merge_children, with the key between them. */
  method JoinPair(keys: array<int>, i: nat, n: nat, c: BNode, d: BNode, b: nat,
                  ghost live: seq<int>, ghost dead: seq<int>,
                  ghost sc: Shape, ghost tc: Tree, ghost sd: Shape, ghost td: Tree)
    returns (ghost sm: Shape)
    requires Is(sc, tc, b) && Is(sd, td, b) && Parts([sc]) !! Parts([sd]) && sc.node == c && sd.node == d
    requires Sibs(c, sc.kids, tc, d, sd.kids, td, b) && keys !in Parts([sc]) && keys !in Parts([sd])
    requires |tc.dead| > |td.live| && keys[..] == live + dead && i < n == |live|
    requires tc.Node? ==> |tc.kids| + |td.kids| <= 2 * b
    modifies keys, Own(c), Own(d)
    ensures keys[..] == live[..i] + live[i + 1..] + ([BLANK] + dead)
    ensures Is(sm, R.Merged(tc, live[i], td), b) && sm.node == c && Parts([sm]) <= Parts([sc]) + Parts([sd])
  {
    hide Is, Store, Distinct, Parts, Links, Sibs, NodeIs, Kids, R.Merged, R.Like;
    Means(sc, tc, b);
    Means(sd, td, b);
    SibsShow(c, sc.kids, tc, d, sd.kids, td, b);
    Shows(c, sc.kids, tc, b);
    Shows(d, sd.kids, td, b);
    MergedKids(tc, live[i], td);
    MergeKeys(keys, i, n, c.keys, c.n, d.keys, d.n, live, dead, tc, td);
    if !c.leaf {
      MoveLinks(d.edges, d.n, c.edges, c.n + 1, sc.kids, sd.kids);
    } else {
      assert sc.kids == sc.kids + sd.kids;
    }
    c.n := c.n + 1 + d.n;
    MergedParts(tc, live[i], td);
    Made(c, sc.kids + sd.kids, R.Merged(tc, live[i], td), b);
    CloseTwo(c, R.Merged(tc, live[i], td), b, sc.kids, Kids(tc), sd.kids, Kids(td));
    sm := At(c, sc.kids + sd.kids);
  }

  lemma MergedParts(tc: Tree, k: int, td: Tree)
    requires |tc.dead| > |td.live| && (tc.Leaf? <==> td.Leaf?)
    ensures var m := R.Merged(tc, k, td);
            m.live == tc.live + [k] + td.live && m.dead == tc.dead[|td.live| + 1..] && (m.Leaf? <==> tc.Leaf?)
  {
  }

  /** merge_children, for the children i and i + 1. */
  method MergeChildren(p: BNode, i: nat, b: nat, ghost s: Shape, ghost t: Tree, ghost h: nat) returns (ghost s': Shape)
    requires Is(s, t, b) && s.node == p && R.Siblings(t, i, b, h) && |t.kids| == |t.live| + 1
    requires |t.kids[i].live| + |t.kids[i + 1].live| + 1 <= 2 * b - 1
    modifies Parts([s])
    ensures Is(s', R.MergeAt(t, i, b, h), b) && s'.node == p && Parts([s']) <= Parts([s])
  {
    hide Is, Store, Distinct, Parts, Links, Sibs, NodeIs, R.Merged;
    R.SiblingFacts(t, i, b, h);
    OpenPair(s, t, b, i);
    ghost var (l, sc, sd, r, tc, td) := (s.kids[..i], s.kids[i], s.kids[i + 1], s.kids[i + 2..], t.kids[i],
      t.kids[i + 1]);
    SibsShown(s, t, i, b, h);
    Shows(p, s.kids, t, b);
    LinkedKid(p, s.kids, t, b, i);
    LinkedKid(p, s.kids, t, b, i + 1);
    Means(sc, tc, b);
    Means(sd, td, b);
    Shows(p.edges[i], sc.kids, tc, b);
    ghost var sm := JoinPair(p.keys, i, p.n, p.edges[i], p.edges[i + 1], b, t.live, t.dead, sc, tc, sd, td);
    DropLink(p.edges, i, p.n, l, sc, sd, r, sm);
    p.n := p.n - 1;
    Made(p, l + [sm] + r, R.MergeAt(t, i, b, h), b);
    KidParts(sm, R.Merged(tc, t.live[i], td), b);
    Close(p, R.MergeAt(t, i, b, h), b, l, t.kids[..i], [sm], [R.Merged(tc, t.live[i], td)], r, t.kids[i + 2..]);
    s' := At(p, l + [sm] + r);
  }

  // The descent.

  ghost predicate CanLend(t: Tree, e: int, b: nat) {
    t.Node? && 0 <= e < |t.kids| && |t.kids[e].live| > b - 1
  }

  lemma KidKeys(s: Shape, t: Tree, b: nat, i: nat)
    requires Is(s, t, b) && t.Node? && i < |t.kids|
    ensures i < s.node.edges.Length && |s.kids| == |t.kids|
    ensures var c := s.node.edges[i]; c != null && c == s.kids[i].node && c.n == |t.kids[i].live|
  {
    hide Is, Store, Distinct, Parts, NodeIs, Own, Apart;
    OpenKid(s, t, b, i);
    LinkedKid(s.node, s.kids, t, b, i);
    Means(s.kids[i], t.kids[i], b);
    Shows(s.kids[i].node, s.kids[i].kids, t.kids[i], b);
  }

  /** try_borrow_from_sibling. */
  method TryBorrow(p: BNode, e: nat, b: nat, ghost s: Shape, ghost t: Tree, ghost h: nat)
      returns (borrowed: bool, ghost s': Shape)
    requires Is(s, t, b) && s.node == p && R.MayRelieve(t, b, h) && e < |t.kids| == |t.live| + 1
      && |t.kids[e].live| == b - 1
    modifies Parts([s])
    ensures borrowed <==> CanLend(t, e + 1, b) || CanLend(t, e - 1, b)
    ensures CanLend(t, e + 1, b) ==> R.Siblings(t, e, b, h) && Is(s', R.BorrowRight(t, e, b, h), b)
    ensures !CanLend(t, e + 1, b) && CanLend(t, e - 1, b) ==>
      e > 0 && R.Siblings(t, e - 1, b, h) && Is(s', R.BorrowLeft(t, e, b, h), b)
    ensures s'.node == p && Parts([s']) == Parts([s]) && (!borrowed ==> Is(s', t, b))
  {
    hide Is, Store, Distinct, Parts, Links, NodeIs, Own, R.BorrowRight, R.BorrowLeft;
    R.SparseFacts(t, e, b, h);
    Means(s, t, b);
    Shows(p, s.kids, t, b);
    if e < p.n { KidKeys(s, t, b, e + 1); }
    if e > 0 { KidKeys(s, t, b, e - 1); }
    if e < p.n && p.edges[e + 1].n > b - 1 {
      s' := BorrowFromRight(p, e, b, s, t, h);
      return true, s';
    }
    if e > 0 && p.edges[e - 1].n > b - 1 {
      s' := BorrowFromLeft(p, e, b, s, t, h);
      return true, s';
    }
    return false, s;
  }

  /** The node as remove leaves it before descending. */
  method Relieve(x: BNode, k: int, b: nat, ghost s: Shape, ghost t: Tree, ghost h: nat)
      returns (j: nat, ghost s': Shape)
    requires Is(s, t, b) && s.node == x && R.MayRelieve(t, b, h) && Sorted(InOrder(t))
    modifies Parts([s])
    ensures var p := R.Relieved(t, k, b, h);
            Is(s', p, b) && p.Node? && j == GetIndex(p.live, k)
    ensures s'.node == x && Parts([s']) <= Parts([s])
  {
    hide Is, Store, Distinct, Parts, Links, NodeIs, Own, R.BorrowRight, R.BorrowLeft, R.MergeAt, GetIndex, Sorted,
      InOrder, WellFormed;
    R.RelievedFacts(t, k, b, h);
    Means(s, t, b);
    I.KeysInUse(x, s.kids, t, b);
    j := GetIndex(x.keys[..x.n], k);
    R.SparseFacts(t, j, b, h);
    KidKeys(s, t, b, j);
    s' := s;
    if x.edges[j].n <= b - 1 {
      var borrowed;
      borrowed, s' := TryBorrow(x, j, b, s, t, h);
      if !borrowed {
        Means(s', t, b);
        Shows(x, s'.kids, t, b);
        s' := MergeChildren(x, if j == x.n then j - 1 else j, b, s', t, h);
      }
      Means(s', R.Relieved(t, k, b, h), b);
      I.KeysInUse(x, s'.kids, R.Relieved(t, k, b, h), b);
      j := GetIndex(x.keys[..x.n], k);
    }
  }

  /** find_rightmost_key. */
  method FindRightmostKey(x: BNode, b: nat, ghost s: Shape, ghost t: Tree, ghost h: nat) returns (k: int)
    requires Is(s, t, b) && s.node == x && b >= 2 && Kid(t, b, h)
    ensures k == R.RightmostKey(t, b, h)
    decreases h
  {
    hide Is, Store, Distinct, Parts, Links, NodeIs, Own, Apart;
    R.KidShows(t, b, h);
    Means(s, t, b);
    Shows(x, s.kids, t, b);
    if x.leaf {
      assert x.keys[x.n - 1] == x.keys[..][x.n - 1];
      return x.keys[x.n - 1];
    }
    KidAt(t, b, h, |t.live|);
    OpenKid(s, t, b, x.n);
    LinkedKid(x, s.kids, t, b, x.n);
    k := FindRightmostKey(x.edges[x.n], b, s.kids[x.n], t.kids[x.n], h - 1);
  }

  lemma KeyCut(live: seq<int>, dead: seq<int>, i: nat)
    requires i < |live|
    ensures var (keys, n) := (live + dead, |live|);
            (keys[..i] + keys[i + 1..n] + keys[i + (n - (i + 1))..])[n - 1 := BLANK] == live[..i] + live[i + 1..]
              + ([BLANK] + dead)
  {
  }

  /** The keys behind the removed one move down, and the freed slot is cleared. */
  method CutKey(keys: array<int>, idx: nat, n: nat, ghost live: seq<int>, ghost dead: seq<int>)
    requires keys[..] == live + dead && idx < n == |live|
    modifies keys
    ensures keys[..] == live[..idx] + live[idx + 1..] + ([BLANK] + dead)
  {
    KeyCut(live, dead, idx);
    MoveRange(keys, idx + 1, n, keys, idx);
    keys[n - 1] := BLANK;
  }

  /** The leaf's case of remove. */
  method RemoveFromLeaf(x: BNode, k: int, b: nat, ghost s: Shape, ghost t: Tree, ghost h: nat)
      returns (done: bool, ghost s': Shape)
    requires Is(s, t, b) && s.node == x && R.MayRemove(t, k, b, h) && t.Leaf?
    modifies Parts([s])
    ensures done && Is(s', R.Remove(t, k, b, h), b) && s'.node == x && Parts([s']) == Parts([s])
  {
    hide Is, Store, Distinct, Parts, Links, NodeIs, GetIndex, Sorted;
    Means(s, t, b);
    Shows(x, s.kids, t, b);
    I.KeysInUse(x, s.kids, t, b);
    IndexOfMember(t.live, k);
    var idx := GetIndex(x.keys[..x.n], k);
    assert x.keys[idx] == x.keys[..][idx];
    if x.keys[idx] != k { return false, s; }
    ghost var u := R.Remove(t, k, b, h);
    assert u == Leaf(t.live[..idx] + t.live[idx + 1..], [BLANK] + t.dead);
    hide R.Remove;
    CutKey(x.keys, idx, x.n, t.live, t.dead);
    x.n := x.n - 1;
    Made(x, s.kids, u, b);
    CloseAll(x, u, b, s.kids);
    s' := At(x, s.kids);
    done := true;
  }

  /** p after its key j, if it is k, has given way to x. */
  ghost function WithKey(p: Tree, j: nat, k: int, x: int): Tree
    requires p.Node?
  {
    p.(live := if j < |p.live| && p.live[j] == k then p.live[j := x] else p.live)
  }

  /** The key to be removed from child j: k itself, unless k is a key of this node, in which
      case its predecessor takes its place. */
  method ReplaceKey(x: BNode, j: nat, k: int, b: nat, ghost s: Shape, ghost p: Tree, ghost h: nat) returns (target: int)
    requires Is(s, p, b) && s.node == x && p.Node? && b >= 2 && WellFormed(p, b, h) && j == GetIndex(p.live, k)
    modifies Own(x)
    ensures target == R.Target(p, k, b, h) && NodeIs(x, s.kids, WithKey(p, j, k, target), b)
  {
    hide Is, Store, Distinct, Parts, Links, GetIndex, NodeIs, R.RightmostKey;
    KidAt(p, b, h, j);
    OpenKid(s, p, b, j);
    LinkedKid(x, s.kids, p, b, j);
    Shows(x, s.kids, p, b);
    assert j < |p.live| ==> x.keys[j] == x.keys[..][j] == p.live[j];
    target := k;
    if j < x.n && x.keys[j] == k {
      target := FindRightmostKey(x.edges[j], b, s.kids[j], p.kids[j], h - 1);
      KeyReplaced(p.live, p.dead, j, target);
      ghost var before := x.keys[..];
      x.keys[j] := target;
      assert x.keys[..] == before[j := target];
    }
    Made(x, s.kids, WithKey(p, j, k, target), b);
  }

  /** BTreeNode::remove, for a key of the subtree. */
  method Remove(x: BNode, k: int, b: nat, ghost s: Shape, ghost t: Tree, ghost h: nat)
      returns (done: bool, ghost s': Shape)
    requires Is(s, t, b) && s.node == x && R.MayRemove(t, k, b, h)
    modifies Parts([s])
    ensures done && Is(s', R.Remove(t, k, b, h), b) && s'.node == x && Parts([s']) <= Parts([s])
    decreases h
  {
    hide Is, Store, Distinct, Parts, Links, GetIndex, Own, NodeIs, InOrder, Sorted, R.Relieved, R.RightmostKey;
    Means(s, t, b);
    Shows(x, s.kids, t, b);
    if x.leaf {
      done, s' := RemoveFromLeaf(x, k, b, s, t, h);
      return;
    }
    R.EntersKid(t, k, b, h);
    ghost var p := R.Relieved(t, k, b, h);
    var j;
    ghost var s1;
    j, s1 := Relieve(x, k, b, s, t, h);
    KidAt(p, b, h, j);
    OpenKid(s1, p, b, j);
    var target := ReplaceKey(x, j, k, b, s1, p, h);
    ghost var p' := WithKey(p, j, k, target);
    LinkedKid(x, s1.kids, p', b, j);
    ghost var c;
    done, c := Remove(x.edges[j], target, b, s1.kids[j], p.kids[j], h - 1);
    KidParts(c, R.Remove(p.kids[j], target, b, h - 1), b);
    StillApart(x, s1.kids[..j], s1.kids[j], c, s1.kids[j + 1..]);
    s' := At(x, s1.kids[j := c]);
    KidChanged(At(x, s1.kids), p', b, j, c, R.Remove(p.kids[j], target, b, h - 1));
  }
}
