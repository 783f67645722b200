/** The circular sibling lists of the Fibonacci heap, and how its nodes store a forest. */
module SiblingRings {
  import opened FibonacciForests

  ghost predicate Joined(a: FNode, b: FNode)
    reads a`right, b`left
  {
    a.right == b && b.left == a
  }

  /** Neighbours are joined. */
  ghost predicate Chained(ts: seq<Tree>)
    reads Heads(ts)`left, Heads(ts)`right
  {
    HeadsAndBelow(ts);
    forall i :: 0 <= i < |ts| - 1 ==> Joined(ts[i].node, ts[i + 1].node)
  }

  /** The roots of ts form one ring in this order. */
  ghost predicate Linked(ts: seq<Tree>)
    reads Heads(ts)`left, Heads(ts)`right
  {
    HeadsAndBelow(ts);
    ts != [] ==> Chained(ts) && Joined(ts[|ts| - 1].node, ts[0].node)
  }

  ghost predicate HeadsDiffer(ts: seq<Tree>) {
    forall i, j :: 0 <= i < j < |ts| ==> ts[i].node != ts[j].node
  }

  lemma ChainAppend(a: seq<Tree>, b: seq<Tree>)
    ensures Chained(a + b) <==>
      Chained(a) && Chained(b) && (a != [] && b != [] ==> Joined(a[|a| - 1].node, b[0].node))
  {
    var s := a + b;
    if Chained(s) {
      forall i | 0 <= i < |a| - 1 ensures Joined(a[i].node, a[i + 1].node) {
        assert Joined(s[i].node, s[i + 1].node);
      }
      forall i | 0 <= i < |b| - 1 ensures Joined(b[i].node, b[i + 1].node) {
        assert Joined(s[|a| + i].node, s[|a| + i + 1].node);
      }
      if a != [] && b != [] { assert Joined(s[|a| - 1].node, s[|a|].node); }
    }
  }

  /** A ring may be read from any of its nodes. */
  lemma Rotate(a: seq<Tree>, b: seq<Tree>)
    requires Linked(a + b)
    ensures Linked(b + a)
  {
    ChainAppend(a, b);
    ChainAppend(b, a);
    assert a == [] ==> a + b == b + a;
    assert b == [] ==> a + b == b + a;
  }

  /** Puts node into the ring, to the left of its first node. */
  method LinkLeftOf(node: FNode, at: FNode, ghost ring: seq<Tree>, ghost t: Tree)
    requires ring != [] && Linked(ring) && HeadsDiffer(ring + [t]) && ring[0].node == at && t.node == node
    requires at.left != null
    modifies node`left, node`right, at`left, at.left`right
    ensures Linked(ring + [t])
  {
    node.right := at;
    node.left := at.left;
    node.left.right := node;
    node.right.left := node;
    assert (ring + [t])[|ring|] == t;
    assert forall i :: 0 <= i < |ring| ==> (ring + [t])[i] == ring[i];
  }

  /** A new node is none of those in the ring or below. */
  lemma InsertReady(ring: seq<Tree>, t: Tree)
    requires Stored(ring) && t.node !in Nodes(ring) && t.kids == []
    ensures Distinct(ring + [t]) && HeadsDiffer(ring + [t]) && Nodes(ring + [t]) == Nodes(ring) + {t.node}
    ensures Count(ring + [t]) == Count(ring) + 1 && Keys(ring + [t]) == Keys(ring) + multiset{t.key}
    ensures Linked(ring) && Inside(ring) && Heads(ring) !! Below(ring) && t.node !in Below(ring)
      && allocated(Below(ring))
    ensures ring != [] ==> ring[0].node in Heads(ring) && ring[0].node.left != null && ring[0].node.left in Heads(ring)
    ensures Heads(ring) <= Nodes(ring) && allocated(Nodes(ring))
  {
    hide Distinct, Nodes, Heads, Below, Inside, Linked;
    Single(t);
    EmptyForest();
    Append(ring, [t]);
    HeadsAndBelow(ring);
    HeadsAndBelow(ring + [t]);
    if ring != [] { LinkedNeighbours(ring); }
  }

  lemma EmptyForest()
    ensures Nodes([]) == {} && Below([]) == {} && Heads([]) == {} && Count([]) == 0 && Keys([]) == multiset{}
      && Distinct([])
    ensures Inside([]) && Linked([])
  {
  }

  /** A node without children stores its own little forest. */
  lemma InsideLeaf(t: Tree)
    requires t.kids == [] && t.node.key == t.key && t.node.degree == 0 && t.node.child == null
    ensures Inside([t])
  {
    assert [t][..0] == [];
    EmptyForest();
  }

  lemma BuildStored(ring: seq<Tree>)
    requires Distinct(ring) && Linked(ring) && Inside(ring)
    ensures Stored(ring)
  {
    HeadsAndBelow(ring);
  }

  /** Takes the first node out of a ring of several. */
  method Unlink(y: FNode, ghost ring: seq<Tree>)
    requires |ring| > 1 && Linked(ring) && HeadsDiffer(ring) && ring[0].node == y
    requires y.left != null && y.right != null
    modifies y.left`right, y.right`left
    ensures Linked(ring[1..])
  {
    ghost var rest := ring[1..];
    assert forall i :: 0 <= i < |ring| - 1 ==> Joined(ring[i].node, ring[i + 1].node);
    LinkedNeighbours(ring);
    y.left.right := y.right;
    y.right.left := y.left;
    forall i | 0 <= i < |rest| - 1 ensures Joined(rest[i].node, rest[i + 1].node) {
      assert rest[i] == ring[i + 1] && rest[i + 1] == ring[i + 2];
      assert ring[i + 2].node != ring[1].node && ring[i + 1].node != ring[|ring| - 1].node;
    }
  }

  /** Joins the ring that m, itself outside, borders on both sides with the ring of c. */
  method JoinRings(m: FNode, c: FNode, ghost ring: seq<Tree>, ghost kids: seq<Tree>)
    requires ring != [] && kids != [] && Linked(ring) && Linked(kids) && HeadsDiffer(ring + kids)
    requires m.right == ring[0].node && m.left == ring[|ring| - 1].node && c == kids[0].node
    requires m !in Heads(ring) && m !in Heads(kids)
    modifies Heads(ring)`left, Heads(ring)`right, Heads(kids)`left, Heads(kids)`right
    ensures Linked(ring + kids) && m.right == ring[0].node
  {
    ghost var all := ring + kids;
    LinkedNeighbours(kids);
    HeadsAndBelow(ring);
    HeadsAndBelow(kids);
    assert forall i :: 0 <= i < |ring| - 1 ==> Joined(ring[i].node, ring[i + 1].node);
    assert forall i :: 0 <= i < |kids| - 1 ==> Joined(kids[i].node, kids[i + 1].node);
    c.left.right := m.right;
    m.right.left := c.left;
    c.left := m.left;
    m.left.right := c;
    forall i | 0 <= i < |all| - 1 ensures Joined(all[i].node, all[i + 1].node) {
      assert all[i].node != all[|all| - 1].node && (i != |ring| - 1 ==> all[i].node != all[|ring| - 1].node);
      assert all[i + 1].node != all[0].node && (i + 1 != |ring| ==> all[i + 1].node != all[|ring|].node);
      assert i < |ring| - 1 ==> all[i] == ring[i] && all[i + 1] == ring[i + 1];
      assert i >= |ring| ==> all[i] == kids[i - |ring|] && all[i + 1] == kids[i + 1 - |ring|];
    }
  }

  /** The children of the first root take its place in a ring of several. */
  method SpliceChildren(m: FNode, ghost ring: seq<Tree>, ghost kids: seq<Tree>)
    requires |ring| > 1 && Linked(ring) && ring[0].node == m && Linked(kids) && HeadsDiffer(ring + kids)
    requires m.child == FirstNode(kids)
    modifies Heads(ring)`left, Heads(ring)`right, Heads(kids)`left, Heads(kids)`right
    ensures Linked(ring[1..] + kids) && m.right == ring[1].node
  {
    hide Linked, Heads, HeadsDiffer;
    ghost var rest := ring[1..];
    LinkedNeighbours(ring);
    SpliceFacts(m, ring, kids);
    Unlink(m, ring);
    assert Linked(kids);
    if m.child != null {
      JoinRings(m, m.child, rest, kids);
    } else {
      assert rest + kids == rest;
    }
  }

  lemma SpliceFacts(m: FNode, ring: seq<Tree>, kids: seq<Tree>)
    requires |ring| > 1 && ring[0].node == m && HeadsDiffer(ring + kids)
    ensures HeadsDiffer(ring) && HeadsDiffer(ring[1..] + kids) && m !in Heads(ring[1..]) && m !in Heads(kids)
    ensures Heads(ring) !! Heads(kids) && Heads(ring[1..]) <= Heads(ring) && allocated(Heads(kids))
    ensures m in Heads(ring) && ring[1].node in Heads(ring) && ring[|ring| - 1].node in Heads(ring)
    ensures ring[1].node != m && ring[|ring| - 1].node != m
  {
    assert (ring + kids)[0] == ring[0] && (ring + kids)[1] == ring[1] && (ring + kids)[|ring| - 1] == ring[|ring| - 1];
    hide Heads, HeadsDiffer, Below, Nodes, Distinct;
    var rest := ring[1..];
    assert ring == [ring[0]] + rest;
    assert ring + kids == [ring[0]] + (rest + kids);
    HeadsApart(ring, kids);
    HeadsApart([ring[0]], rest + kids);
    AppendBelow([ring[0]], rest);
    AppendBelow(rest, kids);
    Single(ring[0]);
    HeadsAndBelow(ring);
  }

  lemma HeadsApart(a: seq<Tree>, b: seq<Tree>)
    requires HeadsDiffer(a + b)
    ensures HeadsDiffer(a) && HeadsDiffer(b) && Heads(a) !! Heads(b)
  {
    var s := a + b;
    assert forall i :: 0 <= i < |a| ==> s[i] == a[i];
    assert forall i :: 0 <= i < |b| ==> s[|a| + i] == b[i];
    forall x | x in Heads(a) ensures x !in Heads(b) {
      HeadsMember(a, x);
      HeadsMember(b, x);
      var i :| 0 <= i < |a| && a[i].node == x;
      assert s[i].node == x;
    }
  }

  ghost function FirstNode(ts: seq<Tree>): FNode? {
    if ts == [] then null else ts[0].node
  }

  /** The nodes store the forest: keys, degrees, child pointers and the rings below the roots. */
  ghost predicate Inside(ts: seq<Tree>)
    reads Nodes(ts)`key, Nodes(ts)`degree, Nodes(ts)`child, Below(ts)`left, Below(ts)`right
  {
    ts == [] ||
    var (init, t) := (ts[..|ts| - 1], ts[|ts| - 1]);
    HeadsAndBelow(t.kids);
    && Inside(init) && Inside(t.kids) && Linked(t.kids)
    && t.node.key == t.key && t.node.degree == |t.kids| && t.node.child == FirstNode(t.kids)
  }

  lemma {:induction false} InsideAppend(a: seq<Tree>, b: seq<Tree>)
    ensures Inside(a + b) <==> Inside(a) && Inside(b)
  {
    if b == [] {
      assert a + b == a;
    } else {
      var init := b[..|b| - 1];
      InsideAppend(a, init);
      assert (a + b)[..|a + b| - 1] == a + init;
    }
  }

  /** What one root shows. */
  lemma InsideAt(ts: seq<Tree>, i: nat)
    requires Inside(ts) && i < |ts|
    ensures var t := ts[i];
            && Inside(t.kids) && Linked(t.kids)
            && t.node.key == t.key && t.node.degree == |t.kids| && t.node.child == FirstNode(t.kids)
    ensures Inside([ts[i]])
  {
    assert ts == ts[..i] + [ts[i]] + ts[i + 1..];
    InsideAppend(ts[..i] + [ts[i]], ts[i + 1..]);
    InsideAppend(ts[..i], [ts[i]]);
    assert [ts[i]][..0] == [];
  }

  /** The nodes hold the forest: all of its structure, no node twice. */
  ghost predicate Stored(ring: seq<Tree>)
    reads Nodes(ring)`key, Nodes(ring)`degree, Nodes(ring)`child, Nodes(ring)`left, Nodes(ring)`right
  {
    HeadsAndBelow(ring);
    Distinct(ring) && Linked(ring) && Inside(ring)
  }

  lemma StoredRotate(a: seq<Tree>, b: seq<Tree>)
    requires Stored(a + b)
    ensures Stored(b + a) && Nodes(b + a) == Nodes(a + b)
  {
    hide Linked, Inside, Distinct, Nodes;
    Append(a, b);
    Append(b, a);
    InsideAppend(a, b);
    InsideAppend(b, a);
    Rotate(a, b);
  }

  /** Roots of a stored forest are different nodes. */
  lemma StoredHeads(ring: seq<Tree>)
    requires Stored(ring)
    ensures HeadsDiffer(ring) && Heads(ring) !! Below(ring) && Nodes(ring) == Heads(ring) + Below(ring)
    ensures forall i :: 0 <= i < |ring| ==> ring[i].node in Heads(ring)
    ensures allocated(Nodes(ring)) && allocated(Heads(ring)) && allocated(Below(ring))
  {
    HeadsAndBelow(ring);
  }

  lemma LinkedNeighbours(ring: seq<Tree>)
    requires Linked(ring) && ring != []
    ensures ring[0].node.left == ring[|ring| - 1].node
    ensures ring[0].node.right == ring[if |ring| > 1 then 1 else 0].node
  {
    assert |ring| > 1 ==> Joined(ring[0].node, ring[1].node);
  }

  lemma LinkedSame(a: seq<Tree>, b: seq<Tree>)
    requires Linked(a) && |a| == |b| && forall i :: 0 <= i < |a| ==> a[i].node == b[i].node
    ensures Linked(b)
  {
    forall i | 0 <= i < |b| - 1 ensures Joined(b[i].node, b[i + 1].node) {
      assert Joined(a[i].node, a[i + 1].node);
    }
  }

  /** y leaves the root ring for a ring of its own. */
  method Detach(y: FNode, ghost ty: Tree, ghost rest: seq<Tree>)
    requires Stored([ty] + rest) && ty.node == y && rest != []
    modifies Heads([ty] + rest)`left, Heads([ty] + rest)`right
    ensures Linked(rest) && Inside(rest) && Inside([ty]) && y.left == y == y.right
  {
    hide Linked, Inside, Distinct, Nodes, Heads, Below, HeadsDiffer, Stored;
    ghost var ring := [ty] + rest;
    StoredMeans(ring);
    FirstHead(ty, rest);
    assert ring[1..] == rest;
    Unlink(y, ring);
    y.left := y;
    y.right := y;
  }

  lemma StoredMeans(ring: seq<Tree>)
    requires Stored(ring)
    ensures Distinct(ring) && Linked(ring) && Inside(ring) && HeadsDiffer(ring)
  {
    HeadsAndBelow(ring);
  }

  lemma FirstHead(t: Tree, rest: seq<Tree>)
    requires Stored([t] + rest) && rest != []
    ensures Inside([t]) && Inside(rest)
    ensures t.node.left != null && t.node.right != null
    ensures t.node in Heads([t] + rest) && t.node.left in Heads([t] + rest) && t.node.right in Heads([t] + rest)
    ensures Heads([t] + rest) !! Below(rest) && Heads([t] + rest) !! Below([t]) && t.node !in Heads(rest)
    ensures allocated(Below(rest)) && allocated(Below([t])) && allocated(Heads(rest)) && allocated(Nodes(rest))
      && allocated(Nodes([t]))
  {
    hide Distinct, Nodes, Heads, Below, Inside, Linked;
    var ring := [t] + rest;
    StoredMeans(ring);
    LinkedNeighbours(ring);
    InsideAppend([t], rest);
    FirstHeadSets(t, rest);
    HeadsAndBelow(ring);
    assert ring[1] == rest[0] && ring[|ring| - 1] == rest[|rest| - 1];
  }

  lemma FirstHeadSets(t: Tree, rest: seq<Tree>)
    requires Distinct([t] + rest)
    ensures Heads([t] + rest) !! Below(rest) && Heads([t] + rest) !! Below([t]) && t.node !in Heads(rest)
  {
    hide Distinct, Nodes, Heads, Below;
    Append([t], rest);
    Single(t);
    HeadsAndBelow([t] + rest);
    HeadsAndBelow(rest);
  }

  /** y, alone in its ring, joins the ring of x's children, and x's degree grows by one. */
  method Attach(x: FNode, y: FNode, ghost tx: Tree, ghost ty: Tree)
    requires Inside([tx]) && Inside([ty]) && Distinct([tx] + [ty]) && tx.node == x && ty.node == y
    requires y.left == y == y.right
    modifies x`child, x`degree, y`left, y`right, Heads(tx.kids)`left, Heads(tx.kids)`right
    ensures Inside([Meld(tx, ty)])
  {
    hide Linked, Inside, Distinct, Nodes, Heads, Below, HeadsDiffer;
    InsideAt([tx], 0);
    PairFacts(tx, ty);
    KidsFacts(tx, ty);
    if x.child != null {
      LinkedNeighbours(tx.kids);
      LinkLeftOf(y, x.child, tx.kids, ty);
    } else {
      x.child := y;
      AloneInRing(ty);
      assert tx.kids + [ty] == [ty];
    }
    x.degree := x.degree + 1;
    BuildMeld(tx, ty);
  }

  lemma PairFacts(tx: Tree, ty: Tree)
    requires Distinct([tx] + [ty])
    ensures tx.node != ty.node && tx.node !in Nodes(tx.kids) && tx.node !in Nodes(ty.kids)
    ensures ty.node !in Nodes(tx.kids) && ty.node !in Nodes(ty.kids) && Nodes(tx.kids) !! Nodes(ty.kids)
    ensures Nodes([ty]) == {ty.node} + Nodes(ty.kids) && Below([ty]) == Nodes(ty.kids)
    ensures Distinct(tx.kids + [ty])
  {
    hide Distinct, Nodes, Heads, Below;
    Single(tx);
    Single(ty);
    Append([tx], [ty]);
    Append(tx.kids, [ty]);
  }

  lemma KidsFacts(tx: Tree, ty: Tree)
    requires Distinct(tx.kids + [ty])
    ensures HeadsDiffer(tx.kids + [ty])
    ensures Nodes(tx.kids) == Heads(tx.kids) + Below(tx.kids) && Heads(tx.kids) !! Below(tx.kids)
    ensures forall i :: 0 <= i < |tx.kids| ==> tx.kids[i].node in Heads(tx.kids)
    ensures allocated(Nodes(tx.kids)) && allocated(Heads(tx.kids)) && allocated(Below(tx.kids))
      && allocated(Nodes(ty.kids))
  {
    hide Distinct, Nodes, Heads, Below;
    Append(tx.kids, [ty]);
    HeadsAndBelow(tx.kids);
    HeadsAndBelow(tx.kids + [ty]);
  }

  lemma AloneInRing(t: Tree)
    requires t.node.left == t.node == t.node.right
    ensures Linked([t])
  {
  }

  lemma BuildMeld(tx: Tree, ty: Tree)
    requires Inside(tx.kids) && Inside([ty]) && Linked(tx.kids + [ty])
    requires tx.node.key == tx.key && tx.node.degree == |tx.kids| + 1 && tx.node.child == FirstNode(tx.kids + [ty])
    ensures Inside([Meld(tx, ty)])
  {
    InsideAppend(tx.kids, [ty]);
    assert [Meld(tx, ty)][..0] == [];
  }

  lemma ApartThree(a: seq<Tree>, t: Tree, b: seq<Tree>)
    ensures Distinct(a + [t] + b) <==>
      && Distinct(a) && Distinct([t]) && Distinct(b)
      && Nodes(a) !! Nodes([t]) && Nodes(a) !! Nodes(b) && Nodes([t]) !! Nodes(b)
    ensures Nodes(a + [t] + b) == Nodes(a) + Nodes([t]) + Nodes(b)
    ensures Heads(a + [t] + b) == Heads(a) + {t.node} + Heads(b)
      && Below(a + [t] + b) == Below(a) + Below([t]) + Below(b)
  {
    hide Distinct, Nodes, Heads, Below;
    Append(a + [t], b);
    Append(a, [t]);
    Single(t);
  }

  /** The forest with x and y apart, and with y below x. */
  lemma Rearranged(p: seq<Tree>, tx: Tree, s: seq<Tree>, ty: Tree)
    requires Distinct([ty] + (p + [tx] + s))
    ensures Distinct(p + [Meld(tx, ty)] + s) && Nodes(p + [Meld(tx, ty)] + s) == Nodes([ty] + (p + [tx] + s))
    ensures Distinct([tx] + [ty])
    ensures Nodes([ty]) !! Nodes(p) && Nodes([ty]) !! Nodes(s) && Nodes([tx]) !! Nodes(p) && Nodes([tx]) !! Nodes(s)
  {
    hide Distinct, Nodes, Heads, Below, Meld;
    Append([ty], p + [tx] + s);
    Append([tx], [ty]);
    ApartThree(p, tx, s);
    ApartThree(p, Meld(tx, ty), s);
    MeldKeeps(tx, ty);
  }

  lemma RootFacts(p: seq<Tree>, tx: Tree, s: seq<Tree>, ty: Tree)
    requires Distinct([ty] + (p + [tx] + s))
    ensures var all := Nodes([ty] + (p + [tx] + s));
            && tx.node in all && ty.node in all && Nodes(tx.kids) <= all && Nodes(ty.kids) <= all
            && Heads([ty] + (p + [tx] + s)) <= all
    ensures tx.node in Nodes([tx]) && Nodes(tx.kids) <= Nodes([tx]) && ty.node in Nodes([ty])
    ensures Heads(p + [tx] + s) !! Nodes(tx.kids) && ty.node !in Heads(p + [tx] + s) && ty.node !in Below(p + [tx] + s)
    ensures Heads(tx.kids) <= Nodes(tx.kids) && Below(p) <= Nodes(p) && Below(s) <= Nodes(s)
    ensures allocated(Heads(p + [tx] + s)) && allocated(Nodes(p)) && allocated(Nodes(s)) && allocated(Below(p))
      && allocated(Below(s))
  {
    hide Distinct, Nodes, Heads, Below;
    var rest := p + [tx] + s;
    Append([ty], rest);
    ApartThree(p, tx, s);
    Single(tx);
    Single(ty);
    HeadsAndBelow([ty] + rest);
    HeadsAndBelow(rest);
    HeadsAndBelow(tx.kids);
    HeadsAndBelow(p);
    HeadsAndBelow(s);
  }

  /** merge on the nodes: y leaves the root ring and becomes a child of x. */
  method HangBelow(x: FNode, y: FNode, ghost p: seq<Tree>, ghost tx: Tree, ghost s: seq<Tree>, ghost ty: Tree)
    requires Stored([ty] + (p + [tx] + s)) && tx.node == x && ty.node == y
    modifies Nodes([ty] + (p + [tx] + s))
    ensures Stored(p + [Meld(tx, ty)] + s)
  {
    hide Linked, Inside, Distinct, Nodes, Heads, Below, HeadsDiffer;
    ghost var rest := p + [tx] + s;
    StoredHeads([ty] + rest);
    Rearranged(p, tx, s, ty);
    RootFacts(p, tx, s, ty);
    Detach(y, ty, rest);
    InsideAppend(p + [tx], s);
    InsideAppend(p, [tx]);
    y.parent := x;
    assert Linked(rest) && Inside(p) && Inside(s) && Inside([tx]) && Inside([ty]);
    Attach(x, y, tx, ty);
    assert Linked(rest) && Inside(p) && Inside(s);
    LinkedSame(rest, p + [Meld(tx, ty)] + s);
    InsideAppend(p + [Meld(tx, ty)], s);
    InsideAppend(p, [Meld(tx, ty)]);
  }
}
