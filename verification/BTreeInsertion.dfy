/** B-tree insertion in place: full nodes split on the way down to a leaf. */
module BTreeInsertion {
  import opened SortedSequences
  import opened BTrees
  import opened BTreeArrays
  import opened BTreeNodes

  function Nulls(n: nat): seq<BNode?> { seq(n, _ => null) }

  ghost function Taken(f: seq<BNode?>, t: seq<BNode?>, b: nat, i: nat): (r: seq<BNode?>)
    requires |f| == |t| == 2 * b && i <= b
    ensures |r| == 2 * b
  {
    f[b..b + i] + t[i..]
  }

  ghost function Left(f: seq<BNode?>, b: nat, i: nat): (r: seq<BNode?>)
    requires |f| == 2 * b && i <= b
    ensures |r| == 2 * b && forall j :: b + i <= j < 2 * b ==> r[j] == f[j]
  {
    f[..b] + Nulls(i) + f[b + i..]
  }

  lemma OneTaken(f: seq<BNode?>, t: seq<BNode?>, b: nat, i: nat)
    requires |f| == |t| == 2 * b && i < b
    ensures Taken(f, t, b, i + 1) == Taken(f, t, b, i)[i := f[i + b]]
    ensures Left(f, b, i + 1) == Left(f, b, i)[i + b := null]
  {
  }

  lemma Ends(f: seq<BNode?>, t: seq<BNode?>, b: nat)
    requires |f| == |t| == 2 * b
    ensures Taken(f, t, b, 0) == t && Left(f, b, 0) == f
    ensures Taken(f, t, b, b) == f[b..] + t[b..] && Left(f, b, b) == f[..b] + Nulls(b)
  {
  }

  /** The upper b edges of a full node move to the new node. */
  method HalveEdges(from: array<BNode?>, to: array<BNode?>, b: nat)
    requires from != to && from.Length == to.Length == 2 * b
    modifies from, to
    ensures to[..] == old(from[b..] + to[b..]) && from[..] == old(from[..b]) + Nulls(b)
  {
    hide Taken, Left;
    ghost var (f, t) := (from[..], to[..]);
    Ends(f, t, b);
    var i := 0;
    while i < b
      invariant 0 <= i <= b
      invariant to[..] == Taken(f, t, b, i) && from[..] == Left(f, b, i)
    {
      hide *;
      OneTaken(f, t, b, i);
      ghost var (f', t') := (from[..], to[..]);
      assert f'[i + b] == f[i + b];
      to[i] := from[i + b];
      from[i + b] := null;
      assert to[..] == t'[i := f[i + b]] && from[..] == f'[i + b := null];
      i := i + 1;
    }
  }

  lemma LinksHalved(edges: seq<BNode?>, kids: seq<Shape>, b: nat)
    requires Links(edges, kids) && |edges| == |kids| == 2 * b
    ensures Links(edges[..b] + Nulls(b), kids[..b]) && Links(edges[b..] + Nulls(b), kids[b..])
  {
  }

  lemma UpperKeys(keys: seq<int>, b: nat)
    requires b >= 2 && |keys| == 2 * b - 1
    ensures var blank := Blanks(2 * b - 1);
            blank[..0] + keys[b..2 * b - 1] + blank[0 + (2 * b - 1 - b)..] == keys[b..] + Blanks(b)
  {
  }

  /** The upper b - 1 keys of a full node move to the new node, and b - 1 slots are cleared. */
  method HalveKeys(from: array<int>, to: array<int>, b: nat)
    requires b >= 2 && from != to && from.Length == to.Length == 2 * b - 1 && to[..] == Blanks(2 * b - 1)
    modifies from, to
    ensures to[..] == old(from[b..]) + Blanks(b)
    ensures from[..] == old(from[..b - 1]) + (Blanks(b - 1) + [old(from[2 * b - 2])])
  {
    ghost var f := from[..];
    UpperKeys(f, b);
    MoveRange(from, b, 2 * b - 1, to, 0);
    forall i | b - 1 <= i < 2 * b - 2 {
      from[i] := BLANK;
    }
    assert from[..b - 1] == f[..b - 1] && from[b - 1..2 * b - 2] == Blanks(b - 1)
      && from[2 * b - 2..] == [f[2 * b - 2]];
    assert from[..] == from[..b - 1] + (from[b - 1..2 * b - 2] + from[2 * b - 2..]);
  }

  lemma LeftMade(c: BNode, t: Tree, b: nat, kids: seq<Shape>)
    requires b >= 2 && c.order == b && c.edges.Length == 2 * b && c.keys as object != c.edges as object
    requires |t.live| == 2 * b - 1 && (t.Node? ==> |t.kids| == 2 * b)
    requires c.n == b - 1 && c.keys[..] == t.live[..b - 1] + (Blanks(b - 1) + [t.live[2 * b - 2]])
    requires (c.leaf <==> t.Leaf?) && Links(c.edges[..], kids)
    ensures NodeIs(c, kids, LeftHalf(t, b), b)
  {
  }

  lemma RightMade(d: BNode, t: Tree, b: nat, kids: seq<Shape>)
    requires b >= 2 && d.order == b && d.edges.Length == 2 * b && d.keys as object != d.edges as object
    requires |t.live| == 2 * b - 1 && (t.Node? ==> |t.kids| == 2 * b)
    requires d.n == b - 1 && d.keys[..] == t.live[b..] + Blanks(b)
    requires (d.leaf <==> t.Leaf?) && Links(d.edges[..], kids)
    ensures NodeIs(d, kids, RightHalf(t, b), b)
  {
  }

  lemma HalfKids(t: Tree, b: nat)
    requires b >= 2 && |t.live| == 2 * b - 1 && (t.Node? ==> |t.kids| == 2 * b)
    ensures var m := if t.Leaf? then 0 else b;
            |Kids(t)| == 2 * m && Kids(LeftHalf(t, b)) == Kids(t)[..m] && Kids(RightHalf(t, b)) == Kids(t)[m..]
  {
  }

  lemma Full(x: BNode, kids: seq<Shape>, t: Tree, b: nat)
    requires NodeIs(x, kids, t, b) && |t.live| == 2 * b - 1
    ensures b >= 2 && x.order == b && x.edges.Length == 2 * b && x.keys as object != x.edges as object
    ensures x.keys[..] == t.live && x.keys.Length == 2 * b - 1 && (x.leaf <==> t.Leaf?) && Links(x.edges[..], kids)
  {
  }

  lemma NoLinks(edges: seq<BNode?>)
    requires forall i :: 0 <= i < |edges| ==> edges[i] == null
    ensures Links(edges, [])
  {
  }

  lemma LinkAt(edges: seq<BNode?>, kids: seq<Shape>, i: nat)
    requires Links(edges, kids) && i < |kids|
    ensures i < |edges| && edges[i] == kids[i].node
  {
  }

  method SplitFields(c: BNode, b: nat, ghost kids: seq<Shape>, ghost t: Tree) returns (d: BNode)
    requires NodeIs(c, kids, t, b) && |t.live| == 2 * b - 1 && |kids| == |Kids(t)| && (t.Node? ==> |t.kids| == 2 * b)
    modifies Own(c)
    ensures var m := if t.Leaf? then 0 else b;
            b >= 2 && |kids| == 2 * m && NodeIs(c, kids[..m], LeftHalf(t, b), b)
              && NodeIs(d, kids[m..], RightHalf(t, b), b)
    ensures fresh(Own(d))
  {
    hide NodeIs, LeftHalf, RightHalf, Links, Kids;
    ghost var m := if t.Leaf? then 0 else b;
    Full(c, kids, t, b);
    HalfKids(t, b);
    d := new BNode(b);
    HalveKeys(c.keys, d.keys, b);
    c.n := b - 1;
    d.leaf := c.leaf;
    d.n := b - 1;
    if !d.leaf {
      LinksHalved(c.edges[..], kids, b);
      HalveEdges(c.edges, d.edges, b);
    } else {
      NoLinks(d.edges[..]);
      assert kids == [] && kids[..m] == [];
    }
    LeftMade(c, t, b, kids[..m]);
    RightMade(d, t, b, kids[m..]);
  }

  /** The part of split_child that concerns the full child c: its upper half moves to a new node. */
  method SplitNode(c: BNode, b: nat, ghost s: Shape, ghost t: Tree) returns (d: BNode, ghost l: Shape, ghost r: Shape)
    requires Is(s, t, b) && s.node == c && |t.live| == 2 * b - 1 && (t.Node? ==> |t.kids| == 2 * b)
    modifies Own(c)
    ensures b >= 2 && Is(l, LeftHalf(t, b), b) && Is(r, RightHalf(t, b), b) && l.node == c && r.node == d
    ensures fresh(Own(d)) && Parts([l]) + Parts([r]) == Parts([s]) + Own(d) && Parts([l]) !! Parts([r])
  {
    hide Is, Store, Distinct, Parts, NodeIs, LeftHalf, RightHalf, Links, Kids, Own;
    ghost var m := if t.Leaf? then 0 else b;
    Means(s, t, b);
    Full(c, s.kids, t, b);
    HalfKids(t, b);
    Open(s, t, b, m, m);
    ghost var (ls, rs) := (s.kids[..m], s.kids[m..]);
    Nothing(b);
    assert s.kids[m..m] == [];
    d := SplitFields(c, b, s.kids, t);
    CloseAll(c, LeftHalf(t, b), b, ls);
    CloseAll(d, RightHalf(t, b), b, rs);
    l, r := At(c, ls), At(d, rs);
  }

  ghost predicate CanSplit(t: Tree, i: nat, b: nat) {
    && b >= 2 && t.Node? && |t.kids| == |t.live| + 1 && i < |t.kids| && t.dead != []
    && |t.kids[i].live| == 2 * b - 1 && (t.kids[i].Node? ==> |t.kids[i].kids| == 2 * b)
  }

  lemma KeyIn(live: seq<int>, dead: seq<int>, i: nat, k: int)
    requires dead != [] && i <= |live|
    ensures var (keys, n) := (live + dead, |live|);
            keys[..i + 1] + keys[i..n] + keys[i + 1 + (n - i)..] == live[..i] + [(live + dead)[i]] + live[i..]
              + dead[1..]
    ensures (live[..i] + [(live + dead)[i]] + live[i..] + dead[1..])[i := k] == live[..i] + [k] + live[i..] + dead[1..]
  {
  }

  /** A key goes into slot i. */
  method InsertKey(keys: array<int>, i: nat, n: nat, k: int, ghost live: seq<int>, ghost dead: seq<int>)
    requires keys[..] == live + dead && dead != [] && i <= n == |live|
    modifies keys
    ensures keys[..] == live[..i] + [k] + live[i..] + dead[1..]
  {
    KeyIn(live, dead, i, k);
    MoveRange(keys, i, n, keys, i + 1);
    ghost var moved := keys[..];
    keys[i] := k;
    assert keys[..] == moved[i := k];
  }

  /** The link to a new node goes behind that to child i. */
  method InsertLink(edges: array<BNode?>, i: nat, n: nat, d: BNode,
                    ghost l: seq<Shape>, ghost c: Shape, ghost r: seq<Shape>,
                    ghost sl: Shape, ghost sr: Shape)
    requires Links(edges[..], l + [c] + r) && |l| == i <= n && |l + [c] + r| == n + 1 < edges.Length
    requires sl.node == c.node && sr.node == d
    modifies edges
    ensures Links(edges[..], l + [sl, sr] + r)
  {
    ShiftUp(edges, i + 1, n + 1);
    edges[i + 1] := d;
  }

  /** split_child. */
  method SplitChild(p: BNode, i: nat, b: nat, ghost s: Shape, ghost t: Tree) returns (ghost s': Shape)
    requires Is(s, t, b) && s.node == p && CanSplit(t, i, b)
    modifies Parts([s])
    ensures Is(s', BTrees.SplitChild(t, i, b), b) && s'.node == p
    ensures fresh(Parts([s']) - Parts([s]))
  {
    hide Is, Store, Distinct, Parts, LeftHalf, RightHalf, Links, NodeIs;
    Means(s, t, b);
    OpenKid(s, t, b, i);
    ghost var (l, r, sc, tc) := (s.kids[..i], s.kids[i + 1..], s.kids[i], t.kids[i]);
    Shows(p, s.kids, t, b);
    LinkedKid(p, s.kids, t, b, i);
    var c := p.edges[i];
    Means(sc, tc, b);
    Full(c, sc.kids, tc, b);
    assert c.keys[b - 1] == c.keys[..][b - 1];
    InsertKey(p.keys, i, p.n, c.keys[b - 1], t.live, t.dead);
    var d;
    ghost var sl, sr;
    d, sl, sr := SplitNode(c, b, sc, tc);
    InsertLink(p.edges, i, p.n, d, l, sc, r, sl, sr);
    p.n := p.n + 1;
    Made(p, l + [sl, sr] + r, BTrees.SplitChild(t, i, b), b);
    ClosePair(p, BTrees.SplitChild(t, i, b), b, l, t.kids[..i], sl, LeftHalf(tc, b), sr, RightHalf(tc, b), r,
      t.kids[i + 1..]);
    s' := At(p, l + [sl, sr] + r);
  }

  lemma Splittable(t: Tree, i: nat, b: nat, h: nat)
    requires b >= 2 && t.Node? && WellFormed(t, b, h) && i < |t.kids| && |t.live| < 2 * b - 1
    ensures h > 0 && Kid(t.kids[i], b, h - 1) && |t.kids| == |t.live| + 1
    ensures |t.kids[i].live| >= 2 * b - 1 ==> CanSplit(t, i, b)
  {
    KidAt(t, b, h, i);
  }

  /** The node as insert leaves it before descending. */
  method Prepare(x: BNode, k: int, b: nat, ghost s: Shape, ghost t: Tree, ghost h: nat)
      returns (j: nat, ghost s': Shape)
    requires Is(s, t, b) && s.node == x && t.Node? && Enterable(t, b, h)
    modifies Parts([s])
    ensures var p := Prepared(t, k, b, h);
            Is(s', p, b) && s'.node == x && j == GetIndex(p.live, k)
    ensures fresh(Parts([s']) - Parts([s]))
  {
    hide Is, Store, Distinct, Parts, LeftHalf, RightHalf, Links, GetIndex, Own, WellFormed, CanSplit;
    PreparedFacts(t, k, b, h);
    Means(s, t, b);
    KeysInUse(x, s.kids, t, b);
    j := GetIndex(x.keys[..x.n], k);
    Count(t, b, h);
    OpenKid(s, t, b, j);
    LinkAt(x.edges[..], s.kids, j);
    Means(s.kids[j], t.kids[j], b);
    Splittable(t, j, b, h);
    s' := s;
    if x.edges[j].n >= 2 * b - 1 {
      s' := SplitChild(x, j, b, s, t);
      Means(s', Prepared(t, k, b, h), b);
      KeysInUse(x, s'.kids, Prepared(t, k, b, h), b);
      j := GetIndex(x.keys[..x.n], k);
    }
  }

  lemma KeysInUse(x: BNode, kids: seq<Shape>, t: Tree, b: nat)
    requires NodeIs(x, kids, t, b)
    ensures x.n == |t.live| <= x.keys.Length && x.keys[..x.n] == t.live
  {
    assert x.keys[..x.n] == x.keys[..][..x.n];
  }

  lemma Count(t: Tree, b: nat, h: nat)
    requires t.Node? && WellFormed(t, b, h)
    ensures |t.kids| == |t.live| + 1
  {
  }

  method InsertInLeaf(x: BNode, k: int, b: nat, ghost s: Shape, ghost t: Tree, ghost h: nat)
      returns (done: bool, ghost s': Shape)
    requires Is(s, t, b) && s.node == x && t.Leaf? && Enterable(t, b, h)
    modifies Parts([s])
    ensures var (u, inserted) := BTrees.Insert(t, k, b, h);
            Is(s', u, b) && s'.node == x && done == inserted
    ensures Parts([s']) == Parts([s])
  {
    hide Is, Store, Distinct, Parts, Links, GetIndex;
    Means(s, t, b);
    KeysInUse(x, s.kids, t, b);
    var idx := GetIndex(x.keys[..x.n], k);
    s' := s;
    assert x.keys[idx] == x.keys[..][idx];
    if x.keys[idx] == k {
      return false, s;
    }
    InsertKey(x.keys, idx, x.n, k, t.live, t.dead);
    x.n := x.n + 1;
    CloseAll(x, BTrees.Insert(t, k, b, h).0, b, s.kids);
    s' := At(x, s.kids);
    done := true;
  }

  /** BTreeNode::insert. */
  method Insert(x: BNode, k: int, b: nat, ghost s: Shape, ghost t: Tree, ghost h: nat)
      returns (done: bool, ghost s': Shape)
    requires Is(s, t, b) && s.node == x && Enterable(t, b, h)
    modifies Parts([s])
    ensures var (u, inserted) := BTrees.Insert(t, k, b, h);
            Is(s', u, b) && s'.node == x && done == inserted
    ensures forall o :: o in Parts([s']) && o !in Parts([s]) ==> fresh(o)
    decreases h
  {
    hide Is, Store, Distinct, Parts, Links, GetIndex, Own, Prepared, NodeIs;
    Means(s, t, b);
    LeafFlag(x, s.kids, t, b);
    if x.leaf {
      done, s' := InsertInLeaf(x, k, b, s, t, h);
      return;
    }
    PreparedFacts(t, k, b, h);
    ghost var p := Prepared(t, k, b, h);
    var j;
    ghost var s1;
    j, s1 := Prepare(x, k, b, s, t, h);
    OpenKid(s1, p, b, j);
    LinkedKid(x, s1.kids, p, b, j);
    ghost var c;
    done, c := Insert(x.edges[j], k, b, s1.kids[j], p.kids[j], h - 1);
    KidParts(c, BTrees.Insert(p.kids[j], k, b, h - 1).0, b);
    StillApart(x, s1.kids[..j], s1.kids[j], c, s1.kids[j + 1..]);
    KidChanged(s1, p, b, j, c, BTrees.Insert(p.kids[j], k, b, h - 1).0);
    s' := At(x, s1.kids[j := c]);
  }
}
