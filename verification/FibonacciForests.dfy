/** Heap-ordered trees and forests, as the nodes of the Fibonacci heap represent them. */
module FibonacciForests {
  import opened Powers

  class FNode {
    var key: int
    var degree: nat
    var left: FNode?
    var right: FNode?
    var child: FNode?
    var parent: FNode?

    constructor (item: int)
      ensures key == item && degree == 0 && left == right == child == parent == null
    {
      key, degree, left, right, child, parent := item, 0, null, null, null, null;
    }
  }

  /** A node with its ring of children, starting at the child pointer. */
  datatype Tree = Tree(node: FNode, key: int, kids: seq<Tree>)

  ghost function Count(ts: seq<Tree>): nat {
    if ts == [] then 0 else Count(ts[..|ts| - 1]) + 1 + Count(ts[|ts| - 1].kids)
  }

  ghost function Keys(ts: seq<Tree>): multiset<int> {
    if ts == [] then multiset{} else Keys(ts[..|ts| - 1]) + multiset{ts[|ts| - 1].key} + Keys(ts[|ts| - 1].kids)
  }

  ghost function Nodes(ts: seq<Tree>): set<FNode> {
    if ts == [] then {} else Nodes(ts[..|ts| - 1]) + {ts[|ts| - 1].node} + Nodes(ts[|ts| - 1].kids)
  }

  /** The nodes of the children and deeper. */
  ghost function Below(ts: seq<Tree>): set<FNode> {
    if ts == [] then {} else Below(ts[..|ts| - 1]) + Nodes(ts[|ts| - 1].kids)
  }

  ghost function Heads(ts: seq<Tree>): set<FNode> {
    if ts == [] then {} else Heads(ts[..|ts| - 1]) + {ts[|ts| - 1].node}
  }

  /** No node occurs twice. */
  ghost predicate Distinct(ts: seq<Tree>) {
    ts == [] ||
    var (init, t) := (ts[..|ts| - 1], ts[|ts| - 1]);
    && Distinct(init) && Distinct(t.kids)
    && t.node !in Nodes(init) && t.node !in Nodes(t.kids) && Nodes(init) !! Nodes(t.kids)
  }

  /** Heap order, and 2^k nodes in every tree of degree k. */
  ghost predicate Good(t: Tree) {
    && Count([t]) == Pow2(|t.kids|)
    && forall i :: 0 <= i < |t.kids| ==> t.key <= t.kids[i].key && Good(t.kids[i])
  }

  ghost predicate AllGood(ts: seq<Tree>) {
    forall i :: 0 <= i < |ts| ==> Good(ts[i])
  }

  lemma {:induction false} AppendCount(a: seq<Tree>, b: seq<Tree>)
    ensures Count(a + b) == Count(a) + Count(b)
  {
    hide Keys, Nodes, Below, Heads, Distinct;
    if b == [] {
      assert a + b == a;
    } else {
      var init := b[..|b| - 1];
      AppendCount(a, init);
      assert (a + b)[..|a + b| - 1] == a + init;
    }
  }

  lemma {:induction false} AppendKeys(a: seq<Tree>, b: seq<Tree>)
    ensures Keys(a + b) == Keys(a) + Keys(b)
  {
    hide Keys, Count, Nodes, Below, Heads, Distinct;
    if b == [] {
      assert a + b == a;
      LastKeys(b);
    } else {
      var init, t := b[..|b| - 1], b[|b| - 1];
      AppendKeys(a, init);
      assert (a + b)[..|a + b| - 1] == a + init;
      LastKeys(b);
      LastKeys(a + b);
      Regroup(Keys(a), Keys(init), multiset{t.key}, Keys(t.kids));
    }
  }

  lemma LastKeys(ts: seq<Tree>)
    ensures if ts == [] then Keys(ts) == multiset{}
            else Keys(ts) == Keys(ts[..|ts| - 1]) + multiset{ts[|ts| - 1].key} + Keys(ts[|ts| - 1].kids)
  {
  }

  lemma Regroup(a: multiset<int>, b: multiset<int>, c: multiset<int>, d: multiset<int>)
    ensures (a + b) + c + d == a + (b + c + d)
  {
  }

  lemma {:induction false} AppendNodes(a: seq<Tree>, b: seq<Tree>)
    ensures Nodes(a + b) == Nodes(a) + Nodes(b)
  {
    hide Count, Keys, Below, Heads, Distinct;
    if b == [] {
      assert a + b == a;
    } else {
      var init := b[..|b| - 1];
      AppendNodes(a, init);
      assert (a + b)[..|a + b| - 1] == a + init;
    }
  }

  lemma {:induction false} AppendBelow(a: seq<Tree>, b: seq<Tree>)
    ensures Below(a + b) == Below(a) + Below(b) && Heads(a + b) == Heads(a) + Heads(b)
  {
    hide Count, Keys, Nodes, Distinct;
    if b == [] {
      assert a + b == a;
    } else {
      var init := b[..|b| - 1];
      AppendBelow(a, init);
      assert (a + b)[..|a + b| - 1] == a + init;
    }
  }

  lemma {:induction false} AppendDistinct(a: seq<Tree>, b: seq<Tree>)
    ensures Distinct(a + b) <==> Distinct(a) && Distinct(b) && Nodes(a) !! Nodes(b)
  {
    if b == [] {
      assert a + b == a;
    } else {
      hide Count, Keys, Below, Heads, Distinct, Nodes;
      var init, t := b[..|b| - 1], b[|b| - 1];
      AppendDistinct(a, init);
      AppendNodes(a, init);
      assert b == init + [t] && a + b == a + init + [t];
      LastDistinct(init, t);
      LastDistinct(a + init, t);
    }
  }

  lemma LastDistinct(init: seq<Tree>, t: Tree)
    ensures Nodes(init + [t]) == Nodes(init) + {t.node} + Nodes(t.kids)
    ensures Distinct(init + [t]) <==>
      && Distinct(init) && Distinct(t.kids)
      && t.node !in Nodes(init) && t.node !in Nodes(t.kids) && Nodes(init) !! Nodes(t.kids)
  {
    assert (init + [t])[..|init|] == init;
  }

  lemma Append(a: seq<Tree>, b: seq<Tree>)
    ensures Count(a + b) == Count(a) + Count(b)
    ensures Keys(a + b) == Keys(a) + Keys(b)
    ensures Nodes(a + b) == Nodes(a) + Nodes(b)
    ensures Below(a + b) == Below(a) + Below(b) && Heads(a + b) == Heads(a) + Heads(b)
    ensures Distinct(a + b) <==> Distinct(a) && Distinct(b) && Nodes(a) !! Nodes(b)
  {
    AppendCount(a, b);
    AppendKeys(a, b);
    AppendNodes(a, b);
    AppendBelow(a, b);
    AppendDistinct(a, b);
  }

  lemma Single(t: Tree)
    ensures Count([t]) == 1 + Count(t.kids) && Keys([t]) == multiset{t.key} + Keys(t.kids)
    ensures Nodes([t]) == {t.node} + Nodes(t.kids) && Below([t]) == Nodes(t.kids) && Heads([t]) == {t.node}
    ensures Distinct([t]) <==> Distinct(t.kids) && t.node !in Nodes(t.kids)
  {
    assert [t][..0] == [];
  }

  /** Roots and deeper nodes are all the nodes, and with no node twice they do not mix. */
  lemma {:induction false} HeadsAndBelow(ts: seq<Tree>)
    ensures Nodes(ts) == Heads(ts) + Below(ts)
    ensures Distinct(ts) ==> Heads(ts) !! Below(ts)
    ensures forall i :: 0 <= i < |ts| ==> ts[i].node in Heads(ts)
    ensures Distinct(ts) ==> forall i, j :: 0 <= i < j < |ts| ==> ts[i].node != ts[j].node
  {
    if ts != [] {
      var init := ts[..|ts| - 1];
      HeadsAndBelow(init);
      assert forall i :: 0 <= i < |ts| - 1 ==> ts[i] == init[i];
    }
  }

  lemma {:induction false} HeadsMember(ts: seq<Tree>, x: FNode)
    ensures x in Heads(ts) <==> exists i :: 0 <= i < |ts| && ts[i].node == x
  {
    if ts != [] {
      HeadsMember(ts[..|ts| - 1], x);
      assert forall i :: 0 <= i < |ts| - 1 ==> ts[..|ts| - 1][i] == ts[i];
    }
  }

  /** A bound for the roots bounds every key. */
  lemma {:induction false} KeysAtLeast(ts: seq<Tree>, b: int)
    requires AllGood(ts) && forall i :: 0 <= i < |ts| ==> b <= ts[i].key
    ensures forall k :: k in Keys(ts) ==> b <= k
    decreases ts
  {
    if ts != [] {
      var t := ts[|ts| - 1];
      KeysAtLeast(ts[..|ts| - 1], b);
      assert Good(t);
      KeysAtLeast(t.kids, b);
    }
  }

  /** A root's degree is at most the logarithm of the forest's size. */
  lemma DegreeBound(ts: seq<Tree>, i: nat)
    requires AllGood(ts) && i < |ts|
    ensures Pow2(|ts[i].kids|) <= Count(ts)
  {
    assert ts == ts[..i] + [ts[i]] + ts[i + 1..];
    Append(ts[..i] + [ts[i]], ts[i + 1..]);
    Append(ts[..i], [ts[i]]);
    assert Good(ts[i]);
  }

  /** merge, on values: y becomes the last child of x. */
  ghost function Meld(x: Tree, y: Tree): Tree {
    Tree(x.node, x.key, x.kids + [y])
  }

  /** Melding loses nothing. */
  lemma MeldKeeps(x: Tree, y: Tree)
    ensures Count([Meld(x, y)]) == Count([x]) + Count([y]) && Keys([Meld(x, y)]) == Keys([x]) + Keys([y])
    ensures Nodes([Meld(x, y)]) == Nodes([x]) + Nodes([y])
    ensures Distinct([Meld(x, y)]) <==> Distinct([x]) && Distinct([y]) && Nodes([x]) !! Nodes([y])
  {
    hide Count, Keys, Nodes, Below, Heads, Distinct;
    Append(x.kids, [y]);
    Single(x);
    Single(y);
    Single(Meld(x, y));
  }

  /** Two trees of equal degree make one of the next degree, still in heap order. */
  lemma MeldGood(x: Tree, y: Tree)
    requires Good(x) && Good(y) && |x.kids| == |y.kids| && x.key <= y.key
    ensures Good(Meld(x, y))
  {
    hide Count;
    MeldKeeps(x, y);
    assert Pow2(|x.kids| + 1) == 2 * Pow2(|x.kids|);
    var m := Meld(x, y);
    forall i | 0 <= i < |m.kids| ensures x.key <= m.kids[i].key && Good(m.kids[i]) {
      if i < |x.kids| { assert m.kids[i] == x.kids[i]; }
    }
  }

  // The size of consolidate's array: floor(log2(size / log2(phi))) + 1 with phi = 1.61803399.

  const LOG2_PHI := 694241914
  const BILLION := 1000000000

  /** The largest k from the given one on with 2^k * log2(phi) <= size. */
  function FloorLog(size: nat, k: nat): (r: nat)
    requires Pow2(k) * LOG2_PHI <= size * BILLION
    ensures r >= k && Pow2(r) * LOG2_PHI <= size * BILLION < Pow2(r + 1) * LOG2_PHI
    decreases size * BILLION - Pow2(k) * LOG2_PHI
  {
    if Pow2(k + 1) * LOG2_PHI <= size * BILLION then FloorLog(size, k + 1) else k
  }

  function ArraySize(size: nat): (r: nat)
    requires size > 0
    ensures Pow2(r) > size
  {
    FloorLog(size, 0) + 1
  }

  /** Every degree that can occur indexes the array. */
  lemma DegreeIndexes(ts: seq<Tree>, i: nat)
    requires AllGood(ts) && i < |ts|
    ensures Count(ts) > 0 && |ts[i].kids| < ArraySize(Count(ts))
  {
    DegreeBound(ts, i);
    if |ts[i].kids| >= ArraySize(Count(ts)) {
      Pow2Monotone(ArraySize(Count(ts)), |ts[i].kids|);
    }
  }
}
