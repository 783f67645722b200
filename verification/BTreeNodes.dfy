/** How the nodes of a B-tree, with their arrays of keys and edges, store a tree value. */
module BTreeNodes {
  import opened BTrees

  /** Edges in use come first; the others are null. */
  class BNode {
    const order: nat
    var leaf: bool
    var n: nat
    const keys: array<int>
    const edges: array<BNode?>

    constructor (b: nat)
      requires b > 0
      ensures order == b && leaf && n == 0 && fresh(keys) && fresh(edges) && keys as object != edges as object
      ensures keys[..] == Blanks(2 * b - 1) && edges.Length == 2 * b && forall i :: 0 <= i < 2 * b ==> edges[i] == null
    {
      order, leaf, n := b, true, 0;
      keys := new int[2 * b - 1](_ => BLANK);
      edges := new BNode?[2 * b](_ => null);
    }
  }

  /** The layout of a subtree in the heap. */
  datatype Shape = At(node: BNode, kids: seq<Shape>)

  ghost function Own(x: BNode): set<object> { {x, x.keys, x.edges} }

  ghost function Parts(ss: seq<Shape>): set<object> {
    if ss == [] then {} else Parts(ss[..|ss| - 1]) + Own(ss[|ss| - 1].node) + Parts(ss[|ss| - 1].kids)
  }

  /** No object belongs to two nodes. */
  ghost predicate Distinct(ss: seq<Shape>) {
    ss == [] ||
    var (init, s) := (ss[..|ss| - 1], ss[|ss| - 1]);
    && Distinct(init) && Distinct(s.kids)
    && Own(s.node) !! Parts(init) && Own(s.node) !! Parts(s.kids) && Parts(init) !! Parts(s.kids)
  }

  ghost function Kids(t: Tree): seq<Tree> { if t.Node? then t.kids else [] }

  ghost function Link(kids: seq<Shape>, i: nat): BNode? { if i < |kids| then kids[i].node else null }

  ghost predicate Links(edges: seq<BNode?>, kids: seq<Shape>) {
    |kids| <= |edges| && forall i :: 0 <= i < |edges| ==> edges[i] == Link(kids, i)
  }

  /** A node's own fields are those of the root of t. */
  ghost predicate NodeIs(x: BNode, kids: seq<Shape>, t: Tree, b: nat)
    reads Own(x)
  {
    && b >= 2 && x.order == b && x.edges.Length == 2 * b && x.keys as object != x.edges as object
    && x.n == |t.live| && x.keys[..] == t.live + t.dead && |t.live| + |t.dead| == 2 * b - 1
    && (x.leaf <==> t.Leaf?) && Links(x.edges[..], kids)
  }

  /** The subtrees ss store the values ts. */
  ghost predicate Store(ss: seq<Shape>, ts: seq<Tree>, b: nat)
    reads Parts(ss)
  {
    |ss| == |ts| &&
    (ss == [] ||
     var (n, s, t) := (|ss| - 1, ss[|ss| - 1], ts[|ts| - 1]);
     Store(ss[..n], ts[..n], b) && NodeIs(s.node, s.kids, t, b) && Store(s.kids, Kids(t), b))
  }

  ghost predicate Is(s: Shape, t: Tree, b: nat)
    reads Parts([s])
  {
    Distinct([s]) && Store([s], [t], b)
  }

  lemma Nothing(b: nat)
    ensures Parts([]) == {} && Distinct([]) && Store([], [], b)
  {
  }

  lemma {:induction false} AppendParts(a: seq<Shape>, c: seq<Shape>)
    ensures Parts(a + c) == Parts(a) + Parts(c)
  {
    if c == [] {
      assert a + c == a;
    } else {
      AppendParts(a, c[..|c| - 1]);
      assert (a + c)[..|a + c| - 1] == a + c[..|c| - 1];
    }
  }

  lemma LastDistinct(a: seq<Shape>, s: Shape)
    ensures Parts(a + [s]) == Parts(a) + Own(s.node) + Parts(s.kids)
    ensures Distinct(a + [s]) <==>
      && Distinct(a) && Distinct(s.kids)
      && Own(s.node) !! Parts(a) && Own(s.node) !! Parts(s.kids) && Parts(a) !! Parts(s.kids)
  {
    hide Own;
    assert (a + [s])[..|a|] == a;
  }

  lemma {:induction false} AppendDistinct(a: seq<Shape>, c: seq<Shape>)
    ensures Distinct(a + c) <==> Distinct(a) && Distinct(c) && Parts(a) !! Parts(c)
  {
    if c == [] {
      assert a + c == a;
    } else {
      hide Own, Distinct, Parts;
      var n := |c| - 1;
      AppendDistinct(a, c[..n]);
      AppendParts(a, c[..n]);
      LastDistinct(a + c[..n], c[n]);
      LastDistinct(c[..n], c[n]);
      assert c == c[..n] + [c[n]] && a + c == a + c[..n] + [c[n]];
    }
  }

  lemma LastStored(a: seq<Shape>, ta: seq<Tree>, s: Shape, t: Tree, b: nat)
    requires |a| == |ta|
    ensures Store(a + [s], ta + [t], b) <==>
      Store(a, ta, b) && NodeIs(s.node, s.kids, t, b) && Store(s.kids, Kids(t), b)
  {
    hide NodeIs, Kids;
    assert (a + [s])[..|a|] == a && (ta + [t])[..|ta|] == ta;
  }

  lemma {:induction false} AppendStore(a: seq<Shape>, ta: seq<Tree>, c: seq<Shape>, tc: seq<Tree>, b: nat)
    requires |a| == |ta| && |c| == |tc|
    ensures Store(a + c, ta + tc, b) <==> Store(a, ta, b) && Store(c, tc, b)
  {
    if c == [] {
      Nothing(b);
      assert a + c == a && ta + tc == ta;
    } else {
      hide NodeIs, Kids, Store, Parts;
      var n := |c| - 1;
      AppendStore(a, ta, c[..n], tc[..n], b);
      LastStored(a + c[..n], ta + tc[..n], c[n], tc[n], b);
      LastStored(c[..n], tc[..n], c[n], tc[n], b);
      assert c == c[..n] + [c[n]] && a + c == a + c[..n] + [c[n]];
      assert tc == tc[..n] + [tc[n]] && ta + tc == ta + tc[..n] + [tc[n]];
    }
  }

  /** One subtree: its root and what hangs below it. */
  lemma One(s: Shape, t: Tree, b: nat)
    ensures Parts([s]) == Own(s.node) + Parts(s.kids)
    ensures Distinct([s]) <==> Distinct(s.kids) && Own(s.node) !! Parts(s.kids)
    ensures Store([s], [t], b) <==> NodeIs(s.node, s.kids, t, b) && Store(s.kids, Kids(t), b)
  {
    hide NodeIs;
    assert [s][..0] == [] && [t][..0] == [];
  }

  /** Three stretches of children, apart from each other and from their parent. */
  ghost predicate Apart(x: BNode, l: seq<Shape>, m: seq<Shape>, r: seq<Shape>) {
    && Distinct(l) && Distinct(m) && Distinct(r)
    && Parts(l) !! Parts(m) && Parts(l) !! Parts(r) && Parts(m) !! Parts(r)
    && Own(x) !! Parts(l) && Own(x) !! Parts(m) && Own(x) !! Parts(r)
  }

  lemma ApartThree(x: BNode, l: seq<Shape>, m: seq<Shape>, r: seq<Shape>)
    ensures Parts(l + m + r) == Parts(l) + Parts(m) + Parts(r)
    ensures Apart(x, l, m, r) <==> Distinct(l + m + r) && Own(x) !! Parts(l + m + r)
  {
    hide Distinct, Parts;
    AppendParts(l, m);
    AppendParts(l + m, r);
    AppendDistinct(l, m);
    AppendDistinct(l + m, r);
  }

  lemma StoreThree(l: seq<Shape>, tl: seq<Tree>, m: seq<Shape>, tm: seq<Tree>, r: seq<Shape>, tr: seq<Tree>, b: nat)
    requires |l| == |tl| && |m| == |tm| && |r| == |tr|
    ensures Store(l + m + r, tl + tm + tr, b) <==> Store(l, tl, b) && Store(m, tm, b) && Store(r, tr, b)
  {
    hide Store;
    AppendStore(l, tl, m, tm, b);
    AppendStore(l + m, tl + tm, r, tr, b);
  }

  /** What a stored tree shows of its root and of its children from i up to j. */
  lemma Open(s: Shape, t: Tree, b: nat, i: nat, j: nat)
    requires Is(s, t, b) && i <= j <= |s.kids|
    ensures |s.kids| == |Kids(t)| && NodeIs(s.node, s.kids, t, b)
    ensures Store(s.kids[..i], Kids(t)[..i], b) && Store(s.kids[i..j], Kids(t)[i..j], b)
      && Store(s.kids[j..], Kids(t)[j..], b)
    ensures Apart(s.node, s.kids[..i], s.kids[i..j], s.kids[j..])
    ensures Parts([s]) == Own(s.node) + Parts(s.kids[..i]) + Parts(s.kids[i..j]) + Parts(s.kids[j..])
    ensures allocated(Own(s.node)) && allocated(Parts(s.kids[..i])) && allocated(Parts(s.kids[i..j]))
      && allocated(Parts(s.kids[j..]))
  {
    hide *;
    Means(s, t, b);
    var (l, m, r) := (s.kids[..i], s.kids[i..j], s.kids[j..]);
    var ts := Kids(t);
    CutThree(s.kids, i, j);
    CutThree(ts, i, j);
    ApartThree(s.node, l, m, r);
    StoreThree(l, ts[..i], m, ts[i..j], r, ts[j..], b);
  }

  lemma CutThree<T>(s: seq<T>, i: nat, j: nat)
    requires i <= j <= |s|
    ensures s == s[..i] + s[i..j] + s[j..]
  {
  }

  lemma Means(s: Shape, t: Tree, b: nat)
    requires Is(s, t, b)
    ensures |s.kids| == |Kids(t)| && NodeIs(s.node, s.kids, t, b) && Store(s.kids, Kids(t), b)
    ensures Distinct(s.kids) && Own(s.node) !! Parts(s.kids) && Parts([s]) == Own(s.node) + Parts(s.kids)
    ensures allocated(Own(s.node)) && allocated(Parts(s.kids))
  {
    hide NodeIs, Kids, Own;
    One(s, t, b);
  }

  lemma Close(x: BNode, t: Tree, b: nat, l: seq<Shape>, tl: seq<Tree>, m: seq<Shape>, tm: seq<Tree>, r: seq<Shape>,
      tr: seq<Tree>)
    requires NodeIs(x, l + m + r, t, b) && Kids(t) == tl + tm + tr
    requires Store(l, tl, b) && Store(m, tm, b) && Store(r, tr, b) && Apart(x, l, m, r)
    ensures Is(At(x, l + m + r), t, b)
    ensures Parts([At(x, l + m + r)]) == Own(x) + Parts(l) + Parts(m) + Parts(r)
  {
    hide NodeIs, Apart, Distinct, Parts, Kids;
    assert |l| == |tl| && |m| == |tm| && |r| == |tr|;
    hide Store;
    One(At(x, l + m + r), t, b);
    ApartThree(x, l, m, r);
    StoreThree(l, tl, m, tm, r, tr, b);
  }

  lemma CloseAll(x: BNode, t: Tree, b: nat, kids: seq<Shape>)
    requires NodeIs(x, kids, t, b) && Store(kids, Kids(t), b) && Distinct(kids) && Own(x) !! Parts(kids)
    ensures Is(At(x, kids), t, b) && Parts([At(x, kids)]) == Own(x) + Parts(kids)
  {
    hide NodeIs, Kids, Own;
    One(At(x, kids), t, b);
  }

  /** Two subtrees apart from each other. */
  lemma Pair(l: Shape, tl: Tree, r: Shape, tr: Tree, b: nat)
    requires Is(l, tl, b) && Is(r, tr, b) && Parts([l]) !! Parts([r])
    ensures Store([l, r], [tl, tr], b) && Distinct([l, r]) && Parts([l, r]) == Parts([l]) + Parts([r])
  {
    hide Store, Distinct, Parts;
    assert [l, r] == [l] + [r] && [tl, tr] == [tl] + [tr];
    AppendStore([l], [tl], [r], [tr], b);
    AppendDistinct([l], [r]);
    AppendParts([l], [r]);
  }

  /** What a stored tree shows of its root and of its child i. */
  lemma OpenKid(s: Shape, t: Tree, b: nat, i: nat)
    requires Is(s, t, b) && t.Node? && i < |t.kids|
    ensures |s.kids| == |t.kids| && NodeIs(s.node, s.kids, t, b) && Is(s.kids[i], t.kids[i], b)
    ensures Store(s.kids[..i], t.kids[..i], b) && Store(s.kids[i + 1..], t.kids[i + 1..], b)
    ensures Apart(s.node, s.kids[..i], [s.kids[i]], s.kids[i + 1..])
    ensures Parts([s]) == Own(s.node) + Parts(s.kids[..i]) + Parts([s.kids[i]]) + Parts(s.kids[i + 1..])
    ensures allocated(Own(s.node)) && allocated(Parts(s.kids[..i])) && allocated(Parts([s.kids[i]]))
      && allocated(Parts(s.kids[i + 1..]))
    ensures s.kids == s.kids[..i] + [s.kids[i]] + s.kids[i + 1..]
      && t.kids == t.kids[..i] + [t.kids[i]] + t.kids[i + 1..]
  {
    hide NodeIs, Store, Distinct, Parts, Own;
    Means(s, t, b);
    Open(s, t, b, i, i + 1);
    assert s.kids[i..i + 1] == [s.kids[i]] && t.kids[i..i + 1] == [t.kids[i]];
  }

  /** A child has changed below its node. */
  lemma KidChanged(s: Shape, t: Tree, b: nat, i: nat, c: Shape, tc: Tree)
    requires t.Node? && i < |s.kids| == |t.kids| && NodeIs(s.node, s.kids, t, b) && Is(c, tc, b)
      && c.node == s.kids[i].node
    requires Store(s.kids[..i], t.kids[..i], b) && Store(s.kids[i + 1..], t.kids[i + 1..], b)
    requires Apart(s.node, s.kids[..i], [c], s.kids[i + 1..])
    ensures Is(At(s.node, s.kids[i := c]), t.(kids := t.kids[i := tc]), b)
    ensures Parts([At(s.node, s.kids[i := c])]) == Own(s.node) + Parts(s.kids[..i]) + Parts([c])
      + Parts(s.kids[i + 1..])
  {
    hide NodeIs, Is, Store, Distinct, Parts, Own, Apart;
    var (l, r, tl, tr) := (s.kids[..i], s.kids[i + 1..], t.kids[..i], t.kids[i + 1..]);
    Replaced(s.kids, i, c);
    Replaced(t.kids, i, tc);
    NodeRelinked(s.node, s.kids, t, b, i, c, tc);
    KidParts(c, tc, b);
    Close(s.node, t.(kids := t.kids[i := tc]), b, l, tl, [c], [tc], r, tr);
  }

  /** A changed child that took up nothing of its surroundings. */
  lemma StillApart(x: BNode, l: seq<Shape>, before: Shape, c: Shape, r: seq<Shape>)
    requires Apart(x, l, [before], r) && Distinct([c])
    requires var more := Parts([c]) - Parts([before]); more !! Own(x) && more !! Parts(l) && more !! Parts(r)
    ensures Apart(x, l, [c], r)
  {
    hide Distinct, Parts, Own;
  }

  lemma LinkedKid(x: BNode, kids: seq<Shape>, t: Tree, b: nat, i: nat)
    requires NodeIs(x, kids, t, b) && i < |kids|
    ensures i < x.edges.Length && x.edges[i] == kids[i].node
  {
    assert x.edges[..][i] == Link(kids, i);
  }

  lemma LeafFlag(x: BNode, kids: seq<Shape>, t: Tree, b: nat)
    requires NodeIs(x, kids, t, b)
    ensures x.leaf <==> t.Leaf?
  {
  }

  lemma Replaced<T>(s: seq<T>, i: nat, x: T)
    requires i < |s|
    ensures s[i := x] == s[..i] + [x] + s[i + 1..]
  {
  }

  lemma KidParts(c: Shape, tc: Tree, b: nat)
    requires Is(c, tc, b)
    ensures Store([c], [tc], b) && Distinct([c])
  {
    hide Store, Distinct;
  }

  lemma NodeRelinked(x: BNode, kids: seq<Shape>, t: Tree, b: nat, i: nat, c: Shape, tc: Tree)
    requires NodeIs(x, kids, t, b) && t.Node? && i < |kids| == |t.kids| && c.node == kids[i].node
    ensures NodeIs(x, kids[i := c], t.(kids := t.kids[i := tc]), b)
  {
    SameLinks(x.edges[..], kids, i, c);
    hide Links;
  }

  lemma SameLinks(edges: seq<BNode?>, kids: seq<Shape>, i: nat, c: Shape)
    requires Links(edges, kids) && i < |kids| && c.node == kids[i].node
    ensures Links(edges, kids[i := c])
  {
  }

  lemma Unpair(c: Shape, tc: Tree, d: Shape, td: Tree, b: nat)
    requires Store([c, d], [tc, td], b) && Distinct([c, d])
    ensures Is(c, tc, b) && Is(d, td, b) && Parts([c]) !! Parts([d]) && Parts([c, d]) == Parts([c]) + Parts([d])
  {
    hide Store, Distinct, Parts;
    assert [c, d] == [c] + [d] && [tc, td] == [tc] + [td];
    AppendStore([c], [tc], [d], [td], b);
    AppendDistinct([c], [d]);
    AppendParts([c], [d]);
  }

  /** What a stored tree shows of its root and of its children i and i + 1. */
  lemma OpenPair(s: Shape, t: Tree, b: nat, i: nat)
    requires Is(s, t, b) && t.Node? && i + 1 < |t.kids|
    ensures |s.kids| == |t.kids| && NodeIs(s.node, s.kids, t, b)
    ensures Is(s.kids[i], t.kids[i], b) && Is(s.kids[i + 1], t.kids[i + 1], b)
      && Parts([s.kids[i]]) !! Parts([s.kids[i + 1]])
    ensures Store(s.kids[..i], t.kids[..i], b) && Store(s.kids[i + 2..], t.kids[i + 2..], b)
    ensures Apart(s.node, s.kids[..i], [s.kids[i], s.kids[i + 1]], s.kids[i + 2..])
    ensures Parts([s.kids[i], s.kids[i + 1]]) == Parts([s.kids[i]]) + Parts([s.kids[i + 1]])
    ensures Parts([s]) == Own(s.node) + Parts(s.kids[..i]) + Parts([s.kids[i]]) + Parts([s.kids[i + 1]])
      + Parts(s.kids[i + 2..])
    ensures allocated(Own(s.node)) && allocated(Parts(s.kids[..i])) && allocated(Parts(s.kids[i + 2..]))
    ensures allocated(Parts([s.kids[i]])) && allocated(Parts([s.kids[i + 1]]))
    ensures s.kids == s.kids[..i] + [s.kids[i], s.kids[i + 1]] + s.kids[i + 2..]
    ensures t.kids == t.kids[..i] + [t.kids[i], t.kids[i + 1]] + t.kids[i + 2..]
  {
    hide NodeIs, Store, Distinct, Parts, Own, Is;
    Means(s, t, b);
    Open(s, t, b, i, i + 2);
    assert s.kids[i..i + 2] == [s.kids[i], s.kids[i + 1]] && t.kids[i..i + 2] == [t.kids[i], t.kids[i + 1]];
    Unpair(s.kids[i], t.kids[i], s.kids[i + 1], t.kids[i + 1], b);
  }

  /** Two changed neighbours, with the node's own fields already changed. */
  lemma ClosePair(x: BNode, t: Tree, b: nat, l: seq<Shape>, tl: seq<Tree>, c: Shape, tc: Tree, d: Shape, td: Tree,
      r: seq<Shape>, tr: seq<Tree>)
    requires NodeIs(x, l + [c, d] + r, t, b) && t.Node? && t.kids == tl + [tc, td] + tr
    requires Is(c, tc, b) && Is(d, td, b) && Parts([c]) !! Parts([d]) && Store(l, tl, b) && Store(r, tr, b)
    requires Distinct(l) && Distinct(r) && Parts(l) !! Parts(r) && Own(x) !! Parts(l) && Own(x) !! Parts(r)
    requires var all := Parts([c]) + Parts([d]); all !! Own(x) && all !! Parts(l) && all !! Parts(r)
    ensures Is(At(x, l + [c, d] + r), t, b)
    ensures Parts([At(x, l + [c, d] + r)]) == Own(x) + Parts(l) + Parts([c]) + Parts([d]) + Parts(r)
  {
    hide NodeIs, Store, Distinct, Parts, Own, Is;
    Pair(c, tc, d, td, b);
    Close(x, t, b, l, tl, [c, d], [tc, td], r, tr);
  }

  /** A root with other children, gathered from two stretches. */
  lemma CloseTwo(x: BNode, t: Tree, b: nat, l: seq<Shape>, tl: seq<Tree>, r: seq<Shape>, tr: seq<Tree>)
    requires NodeIs(x, l + r, t, b) && Kids(t) == tl + tr && Store(l, tl, b) && Store(r, tr, b)
    requires Distinct(l) && Distinct(r) && Parts(l) !! Parts(r) && Own(x) !! Parts(l) && Own(x) !! Parts(r)
    ensures Is(At(x, l + r), t, b) && Parts([At(x, l + r)]) == Own(x) + Parts(l) + Parts(r)
  {
    hide NodeIs, Parts, Own, Is, Distinct, Kids;
    assert |l| == |tl| && |r| == |tr|;
    hide Store;
    AppendStore(l, tl, r, tr, b);
    AppendDistinct(l, r);
    AppendParts(l, r);
    CloseAll(x, t, b, l + r);
  }

  lemma Shows(x: BNode, kids: seq<Shape>, t: Tree, b: nat)
    requires NodeIs(x, kids, t, b)
    ensures b >= 2 && x.order == b && x.edges.Length == 2 * b && x.keys as object != x.edges as object
    ensures x.n == |t.live| && x.keys[..] == t.live + t.dead && x.keys.Length == |t.live| + |t.dead| == 2 * b - 1
    ensures (x.leaf <==> t.Leaf?) && Links(x.edges[..], kids)
  {
    hide Links;
  }

  lemma Made(x: BNode, kids: seq<Shape>, t: Tree, b: nat)
    requires b >= 2 && x.order == b && x.edges.Length == 2 * b && x.keys as object != x.edges as object
    requires x.n == |t.live| && x.keys[..] == t.live + t.dead && x.keys.Length == 2 * b - 1
    requires (x.leaf <==> t.Leaf?) && Links(x.edges[..], kids)
    ensures NodeIs(x, kids, t, b)
  {
    hide Links;
  }
}
