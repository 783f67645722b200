/** The Fibonacci heap without decrease-key. */
module FibonacciHeaps {
  import opened FiniteSets
  import opened Optional
  import opened Powers
  import opened FibonacciForests
  import opened SiblingRings

  /** min is a least root key. */
  ghost predicate LeastRoot(ring: seq<Tree>, min: Tree) {
    min in ring && forall t :: t in ring ==> min.key <= t.key
  }

  ghost predicate DegreesDiffer(ring: seq<Tree>) {
    forall i, j :: 0 <= i < j < |ring| ==> |ring[i].kids| != |ring[j].kids|
  }

  ghost predicate HasRoot(ring: seq<Tree>, node: FNode) {
    exists t :: t in ring && t.node == node
  }

  ghost predicate HasRootOfDegree(ring: seq<Tree>, node: FNode, d: nat, waiting: set<FNode>) {
    exists t :: t in ring && t.node == node && |t.kids| == d && t.node !in waiting
  }

  ghost predicate FiledAt(arr: seq<FNode?>, t: Tree) {
    |t.kids| < |arr| && arr[|t.kids|] == t.node
  }

  /** Every root is waiting or stands in the array at its degree, and the array holds no more. */
  ghost predicate Filed(ring: seq<Tree>, arr: seq<FNode?>, waiting: set<FNode>) {
    && (forall t :: t in ring ==> t.node in waiting || FiledAt(arr, t))
    && (forall d :: 0 <= d < |arr| && arr[d] != null ==> HasRootOfDegree(ring, arr[d], d, waiting))
    && forall w :: w in waiting ==> HasRoot(ring, w)
  }

  /** minNode is the node of a least root. */
  ghost predicate MinIn(ring: seq<Tree>, minNode: FNode?) {
    exists t :: t in ring && t.node == minNode && LeastRoot(ring, t)
  }

  /** ring' is ring with y hung below x. */
  ghost predicate Melded(ring: seq<Tree>, ring': seq<Tree>, x: Tree, y: Tree) {
    && Meld(x, y) in ring'
    && (forall t :: t in ring' ==> t == Meld(x, y) || (t in ring && t != x && t != y))
    && forall t :: t in ring && t != x && t != y ==> t in ring'
  }

  /** The ring with one more root, left of the first; it comes first when its key is less. */
  ghost function WithRoot(ring: seq<Tree>, t: Tree): seq<Tree> {
    if ring == [] || t.key < ring[0].key then [t] + ring else ring + [t]
  }

  /** Trees at the roots of a stored forest are told apart by their nodes. */
  lemma SameNodeSameTree(ring: seq<Tree>, t: Tree, u: Tree)
    requires HeadsDiffer(ring) && t in ring && u in ring && t.node == u.node
    ensures t == u
  {
    var i :| 0 <= i < |ring| && ring[i] == t;
    var j :| 0 <= j < |ring| && ring[j] == u;
  }

  lemma FileOne(ring: seq<Tree>, arr: seq<FNode?>, waiting: set<FNode>, t: Tree)
    requires Filed(ring, arr, waiting + {t.node}) && HeadsDiffer(ring) && t in ring && t.node !in waiting
    requires |t.kids| < |arr| && arr[|t.kids|] == null
    ensures Filed(ring, arr[|t.kids| := t.node], waiting)
  {
    var d := |t.kids|;
    var arr' := arr[d := t.node];
    forall u | u in ring ensures u.node in waiting || FiledAt(arr', u) {
      if u.node == t.node {
        SameNodeSameTree(ring, u, t);
      } else if u.node !in waiting {
        assert FiledAt(arr, u);
      }
    }
    forall e | 0 <= e < |arr'| && arr'[e] != null ensures HasRootOfDegree(ring, arr'[e], e, waiting) {
      if e != d { assert HasRootOfDegree(ring, arr[e], e, waiting + {t.node}); }
    }
    forall w | w in waiting ensures HasRoot(ring, w) {
      assert w in waiting + {t.node};
    }
  }

  lemma TakeOut(ring: seq<Tree>, arr: seq<FNode?>, waiting: set<FNode>, d: nat)
    requires Filed(ring, arr, waiting) && HeadsDiffer(ring) && d < |arr| && arr[d] != null
    ensures Filed(ring, arr[d := null], waiting + {arr[d]}) && arr[d] !in waiting
    ensures HasRootOfDegree(ring, arr[d], d, waiting)
  {
    var c := arr[d];
    var arr' := arr[d := null];
    assert HasRootOfDegree(ring, c, d, waiting);
    forall u | u in ring ensures u.node in waiting + {c} || FiledAt(arr', u) {
      if u.node !in waiting { assert FiledAt(arr, u); }
    }
    forall e | 0 <= e < |arr'| && arr'[e] != null ensures HasRootOfDegree(ring, arr'[e], e, waiting + {c}) {
      assert HasRootOfDegree(ring, arr[e], e, waiting);
      var t :| t in ring && t.node == arr[e] && |t.kids| == e && t.node !in waiting;
      var u :| u in ring && u.node == c && |u.kids| == d && u.node !in waiting;
      if t.node == c { SameNodeSameTree(ring, t, u); }
    }
    forall w | w in waiting + {c} ensures HasRoot(ring, w) {
      if w == c { assert HasRootOfDegree(ring, c, d, waiting); }
    }
  }

  lemma DegreeOfRoot(ring: seq<Tree>, node: FNode, d: nat, waiting: set<FNode>, t: Tree)
    requires HasRootOfDegree(ring, node, d, waiting) && HeadsDiffer(ring) && t in ring && t.node == node
    ensures |t.kids| == d
  {
    var u :| u in ring && u.node == node && |u.kids| == d && u.node !in waiting;
    SameNodeSameTree(ring, t, u);
  }

  lemma MeldFiled(ring: seq<Tree>, ring': seq<Tree>, arr: seq<FNode?>, waiting: set<FNode>, x: Tree, y: Tree)
    requires Filed(ring, arr, waiting) && HeadsDiffer(ring) && Melded(ring, ring', x, y)
    requires x in ring && y in ring && x.node != y.node && x.node in waiting && y.node in waiting
    ensures Filed(ring', arr, waiting - {y.node})
  {
    var w' := waiting - {y.node};
    forall u | u in ring' ensures u.node in w' || FiledAt(arr, u) {
      if u != Meld(x, y) && u.node == y.node { SameNodeSameTree(ring, u, y); }
    }
    forall d | 0 <= d < |arr| && arr[d] != null ensures HasRootOfDegree(ring', arr[d], d, w') {
      assert HasRootOfDegree(ring, arr[d], d, waiting);
      var t :| t in ring && t.node == arr[d] && |t.kids| == d && t.node !in waiting;
      assert t in ring';
    }
    forall w | w in w' ensures HasRoot(ring', w) {
      assert HasRoot(ring, w);
      var t :| t in ring && t.node == w;
      assert w == x.node ==> Meld(x, y) in ring';
      assert t == x || t in ring';
    }
  }

  /** With nothing waiting, the degrees are all different. */
  lemma FiledDiffer(ring: seq<Tree>, arr: seq<FNode?>)
    requires Filed(ring, arr, {}) && HeadsDiffer(ring)
    ensures DegreesDiffer(ring)
  {
    forall i, j | 0 <= i < j < |ring| ensures |ring[i].kids| != |ring[j].kids| {
      assert FiledAt(arr, ring[i]) && FiledAt(arr, ring[j]);
    }
  }

  /** Turns the ring so that y comes first, and finds x in the rest. */
  lemma Pick(ring: seq<Tree>, x: Tree, y: Tree) returns (a: seq<Tree>, b: seq<Tree>, p: seq<Tree>, s: seq<Tree>)
    requires x in ring && y in ring && x != y
    ensures ring == a + b && b + a == [y] + (p + [x] + s)
  {
    var rest;
    a, b, rest := BringFirst(ring, y);
    var i :| 0 <= i < |rest| && rest[i] == x;
    p, s := rest[..i], rest[i + 1..];
    CutAround(rest, i);
  }

  lemma BringFirst(ring: seq<Tree>, y: Tree) returns (a: seq<Tree>, b: seq<Tree>, rest: seq<Tree>)
    requires y in ring
    ensures ring == a + b && b + a == [y] + rest
    ensures forall x :: x in ring && x != y ==> x in rest
  {
    var j :| 0 <= j < |ring| && ring[j] == y;
    a, b := ring[..j], ring[j..];
    CutAround(ring, j);
    var c := ring[j + 1..];
    rest := c + a;
    assert b == [y] + c;
    assert b + a == [y] + c + a;
  }

  lemma CutAround(ring: seq<Tree>, i: nat)
    requires i < |ring|
    ensures ring == ring[..i] + [ring[i]] + ring[i + 1..] && ring == ring[..i] + ring[i..]
  {
  }

  /** Hanging y below x keeps the number of nodes and the multiset of keys. */
  lemma MeldInPlace(ring: seq<Tree>, a: seq<Tree>, b: seq<Tree>, p: seq<Tree>, x: Tree, s: seq<Tree>, y: Tree)
    requires ring == a + b && b + a == [y] + (p + [x] + s)
    ensures var ring' := p + [Meld(x, y)] + s;
            Count(ring') == Count(ring) && Keys(ring') == Keys(ring) && |ring'| == |ring| - 1
  {
    hide Count, Keys;
    Turned(a, b);
    Append([y], p + [x] + s);
    Append(p + [x], s);
    Append(p, [x]);
    Append(p + [Meld(x, y)], s);
    Append(p, [Meld(x, y)]);
    MeldKeeps(x, y);
    assert |b + a| == |ring|;
  }

  lemma TurnedRoots(a: seq<Tree>, b: seq<Tree>, min: Tree)
    requires AllGood(a + b) && DegreesDiffer(a + b) && LeastRoot(a + b, min)
    ensures AllGood(b + a) && DegreesDiffer(b + a) && LeastRoot(b + a, min)
  {
    hide Good;
    forall i | 0 <= i < |b + a| ensures Good((b + a)[i]) {
      assert (b + a)[i] == (a + b)[if i < |b| then |a| + i else i - |b|];
    }
    forall i, j | 0 <= i < j < |b + a| ensures |(b + a)[i].kids| != |(b + a)[j].kids| {
      var i' := if i < |b| then |a| + i else i - |b|;
      var j' := if j < |b| then |a| + j else j - |b|;
      assert (b + a)[i] == (a + b)[i'] && (b + a)[j] == (a + b)[j'];
    }
  }

  lemma Turned(a: seq<Tree>, b: seq<Tree>)
    ensures Count(b + a) == Count(a + b) && Keys(b + a) == Keys(a + b)
  {
    Append(a, b);
    Append(b, a);
  }

  /** ... and every tree good. */
  lemma MeldAllGood(ring: seq<Tree>, ring': seq<Tree>, x: Tree, y: Tree)
    requires AllGood(ring) && x in ring && y in ring && |x.kids| == |y.kids| && x.key <= y.key
    requires Melded(ring, ring', x, y)
    ensures AllGood(ring')
  {
    hide Good;
    MeldGood(x, y);
    forall i | 0 <= i < |ring'| ensures Good(ring'[i]) {
      assert ring'[i] in ring';
    }
  }

  lemma MeldMembers(ring: seq<Tree>, a: seq<Tree>, b: seq<Tree>, p: seq<Tree>, x: Tree, s: seq<Tree>, y: Tree)
    requires ring == a + b && b + a == [y] + (p + [x] + s) && HeadsDiffer(b + a)
    ensures Melded(ring, p + [Meld(x, y)] + s, x, y)
  {
    var turned := b + a;
    assert turned[0] == y && turned[|p| + 1] == x;
    assert forall i :: 0 <= i < |p| ==> turned[i + 1] == p[i];
    assert forall i :: 0 <= i < |s| ==> turned[|p| + 2 + i] == s[i];
    assert forall t :: t in ring <==> t in turned;
    assert forall t :: t in turned <==> t == y || t in p || t == x || t in s;
  }

  lemma MeldLeast(ring: seq<Tree>, ring': seq<Tree>, x: Tree, y: Tree, min: Tree)
    requires Melded(ring, ring', x, y) && LeastRoot(ring, min) && x in ring && y in ring && x.key <= y.key
    ensures var min' := if min == x || min == y then Meld(x, y) else min; min' in ring' && LeastRoot(ring', min')
  {
  }

  class FibonacciHeap {
    var minNode: FNode?
    var size: nat
    ghost var ring: seq<Tree>

    /** Everything but the choice of the minimum. */
    ghost predicate Sound()
      reads this, Nodes(ring)
    {
      Stored(ring) && AllGood(ring) && size == Count(ring) && minNode == FirstNode(ring)
    }

    ghost predicate Valid()
      reads this, Nodes(ring)
    {
      Sound() && (ring != [] ==> LeastRoot(ring, ring[0]))
    }

    constructor ()
      ensures Valid() && ring == []
    {
      minNode, size, ring := null, 0, [];
    }

    /** insert: a new node to the left of the minimum. */
    method Insert(item: int)
      requires Valid()
      modifies this, Nodes(ring)
      ensures Valid() && fresh(Nodes(ring) - old(Nodes(ring)))
      ensures Keys(ring) == old(Keys(ring)) + multiset{item} && size == old(size) + 1
      ensures exists n :: n in Nodes(ring) && fresh(n) && ring == WithRoot(old(ring), Tree(n, item, []))
    {
      hide Stored, AllGood, Nodes, Count, Keys, LeastRoot;
      StoredHeads(ring);
      var node := new FNode(item);
      InsertNode(node);
      assert node in Nodes(ring);
      size := size + 1;
    }

    method InsertNode(node: FNode)
      requires Valid() && node !in Nodes(ring) && node.degree == 0 && node.child == null
      modifies this`minNode, this`ring, Nodes(ring), node
      ensures Stored(ring) && AllGood(ring) && minNode == FirstNode(ring) && ring != [] && LeastRoot(ring, ring[0])
      ensures Count(ring) == size + 1 && Nodes(ring) == old(Nodes(ring)) + {node}
      ensures Keys(ring) == old(Keys(ring)) + multiset{old(node.key)}
      ensures ring == WithRoot(old(ring), Tree(node, old(node.key), []))
    {
      hide Stored, AllGood, Nodes, Count, Keys, LeastRoot, Inside, Linked, Distinct, Heads, Below, HeadsDiffer;
      ghost var t := Tree(node, node.key, []);
      ghost var before := ring;
      InsertReady(ring, t);
      GoodLeaf(ring, t);
      if minNode == null {
        minNode := node;
        node.left := node;
        node.right := node;
        ring := [t];
        assert before + [t] == ring;
        AloneInRing(t);
      } else {
        LinkLeftOf(node, minNode, ring, t);
        ring := ring + [t];
      }
      assert Inside(before);
      InsideLeaf(t);
      InsideAppend(before, [t]);
      BuildStored(before + [t]);
      if node != minNode {
        InsideAt(before, 0);
        if node.key < minNode.key {
          StoredRotate(before, [t]);
          Append([t], before);
          Append(before, [t]);
          minNode := node;
          ring := [t] + before;
        }
      }
    }

    /** merge: y becomes a child of x. */
    method Merge(x: FNode, y: FNode, ghost tx: Tree, ghost ty: Tree)
      requires Stored(ring) && AllGood(ring) && MinIn(ring, minNode)
      requires tx in ring && ty in ring && tx.node == x && ty.node == y && x != y
      requires |tx.kids| == |ty.kids| && tx.key <= ty.key
      modifies this`minNode, this`ring, Nodes(ring)
      ensures Stored(ring) && AllGood(ring) && MinIn(ring, minNode)
      ensures Count(ring) == old(Count(ring)) && Keys(ring) == old(Keys(ring)) && Nodes(ring) == old(Nodes(ring))
      ensures Melded(old(ring), ring, tx, ty) && |ring| == |old(ring)| - 1
    {
      hide Stored, AllGood, Nodes, Count, Keys, LeastRoot, Inside, Linked, Distinct, Heads, Below, HeadsDiffer, Melded;
      ghost var a, b, p, s := Pick(ring, tx, ty);
      ghost var min := LeastTree();
      MeldLeastRoot(ring, min, tx, ty);
      MeldInPlace(ring, a, b, p, tx, s, ty);
      StoredRotate(a, b);
      StoredMeans(b + a);
      StoredMeans(ring);
      Rearranged(p, tx, s, ty);
      MeldMembers(ring, a, b, p, tx, s, ty);
      MeldAllGood(ring, p + [Meld(tx, ty)] + s, tx, ty);
      if y == minNode {
        minNode := x;
      }
      HangBelow(x, y, p, tx, s, ty);
      ghost var before := ring;
      ring := p + [Meld(tx, ty)] + s;
      MeldLeast(before, ring, tx, ty, min);
    }

    ghost method LeastTree() returns (min: Tree)
      requires MinIn(ring, minNode)
      ensures min in ring && min.node == minNode && LeastRoot(ring, min)
    {
      min :| min in ring && min.node == minNode && LeastRoot(ring, min);
    }

    /** The first loop of consolidate: the roots in ring order, and the least of them. */
    method CollectRoots() returns (rootList: seq<FNode>)
      requires Stored(ring) && ring != [] && minNode == FirstNode(ring)
      modifies this`minNode, Heads(ring)`parent
      ensures |rootList| == |ring| && forall i :: 0 <= i < |ring| ==> rootList[i] == ring[i].node
      ensures Stored(ring) && MinIn(ring, minNode)
    {
      hide Stored, Nodes, Inside, Linked, Distinct, Heads, Below, HeadsDiffer;
      StoredHeads(ring);
      rootList := [];
      var initMinNode := minNode;
      var toRight: FNode := minNode;
      ghost var k := 0;
      ghost var m := 0;
      var first := true;
      while first || toRight != initMinNode
        invariant 0 <= k <= |ring| && (first <==> k == 0) && toRight == ring[if k < |ring| then k else 0].node
        invariant |rootList| == k && forall i :: 0 <= i < k ==> rootList[i] == ring[i].node
        invariant 0 <= m < |ring| && minNode == ring[m].node && forall i :: 0 <= i < k ==> ring[m].key <= ring[i].key
        invariant Stored(ring)
        decreases |ring| - k
      {
        RootAt(ring, k);
        RootAt(ring, m);
        rootList := rootList + [toRight];
        toRight.parent := null;
        if minNode.key > toRight.key {
          minNode := toRight;
          m := k;
        }
        toRight := toRight.right;
        first := false;
        k := k + 1;
        RootsDiffer(ring, k);
      }
      assert LeastRoot(ring, ring[m]);
    }

    /** What consolidate's main loop keeps. */
    ghost predicate Loose(keys: multiset<int>, nodes: set<FNode>)
      reads this, nodes
    {
      Nodes(ring) == nodes && Stored(ring) && AllGood(ring) && size == Count(ring) && Keys(ring) == keys
        && MinIn(ring, minNode)
    }

    /** One round of consolidate's main loop: the root is merged with the root of its degree
        found in the array, the result with the next one, until its place is free. */
    method FileRoot(root: FNode, slots: array<FNode?>, ghost waiting: set<FNode>, ghost keys: multiset<int>,
        ghost nodes: set<FNode>)
      requires Loose(keys, nodes) && slots.Length == ArraySize(size)
      requires Filed(ring, slots[..], waiting + {root}) && root !in waiting
      modifies this`minNode, this`ring, nodes, slots
      ensures Loose(keys, nodes) && Filed(ring, slots[..], waiting)
    {
      hide Stored, AllGood, Nodes, Count, Keys, LeastRoot, Filed, MinIn, HeadsDiffer, Meld, Melded, ArraySize;
      ghost var t := TreeOf(root, slots[..], waiting + {root});
      StoredMeans(ring);
      if slots[root.degree] == null {
        FileOne(ring, slots[..], waiting, t);
        slots[root.degree] := root;
        return;
      }
      var parent: FNode;
      var child: FNode;
      if slots[root.degree].key >= root.key {
        parent, child := root, slots[root.degree];
      } else {
        child, parent := root, slots[root.degree];
      }
      MergePair(parent, child, root, slots, waiting, keys, nodes);
      t := TreeOf(parent, slots[..], waiting + {parent});
      while slots[parent.degree] != null
        invariant Loose(keys, nodes) && slots.Length == ArraySize(size) && parent !in waiting
        invariant Filed(ring, slots[..], waiting + {parent}) && parent.degree < slots.Length
        decreases |ring|
      {
        var before := parent;
        if parent.key > slots[parent.degree].key {
          child := parent;
          parent := slots[parent.degree];
        } else {
          child := slots[parent.degree];
        }
        MergePair(parent, child, before, slots, waiting, keys, nodes);
        t := TreeOf(parent, slots[..], waiting + {parent});
      }
      t := TreeOf(parent, slots[..], waiting + {parent});
      StoredMeans(ring);
      FileOne(ring, slots[..], waiting, t);
      slots[parent.degree] := parent;
    }

    /** Takes one of the two roots of equal degree out of the array and merges them. */
    method MergePair(parent: FNode, child: FNode, ghost root: FNode, slots: array<FNode?>, ghost waiting: set<FNode>,
                     ghost keys: multiset<int>, ghost nodes: set<FNode>)
      requires Loose(keys, nodes) && slots.Length == ArraySize(size)
      requires Filed(ring, slots[..], waiting + {root}) && root !in waiting && root.degree < slots.Length
      requires slots[root.degree] != null && {parent, child} == {root, slots[root.degree]}
        && (parent == root || child == root)
      requires parent.key <= child.key
      modifies this`minNode, this`ring, nodes, slots
      ensures Loose(keys, nodes) && Filed(ring, slots[..], waiting + {parent}) && parent !in waiting
      ensures |ring| < |old(ring)|
    {
      hide Stored, AllGood, Nodes, Count, Keys, LeastRoot, Filed, MinIn, HeadsDiffer, Meld, Melded, ArraySize;
      ghost var w := waiting + {root};
      ghost var d := root.degree;
      ghost var other := slots[d];
      ghost var arr := slots[..][d := null];
      StoredMeans(ring);
      TakeOut(ring, slots[..], w, d);
      ghost var tr := TreeOf(root, arr, w + {other});
      ghost var other' := TreeOf(other, arr, w + {other});
      DegreeOfRoot(ring, other, d, w, other');
      ghost var tx, ty := if parent == root then tr else other', if parent == root then other' else tr;
      slots[parent.degree] := null;
      assert slots[..] == arr;
      ghost var before := ring;
      Merge(parent, child, tx, ty);
      MeldFiled(before, ring, arr, w + {other}, tx, ty);
      assert w + {other} - {child} == waiting + {parent};
    }

    /** The tree of a waiting root, with what its node shows. */
    lemma TreeOf(root: FNode, arr: seq<FNode?>, waiting: set<FNode>) returns (t: Tree)
      requires Stored(ring) && AllGood(ring) && size == Count(ring)
      requires Filed(ring, arr, waiting) && root in waiting
      ensures t in ring && t.node == root && root.key == t.key && root.degree == |t.kids|
      ensures size > 0 && root.degree < ArraySize(size)
    {
      hide Stored, AllGood, Nodes, Count, Keys, LeastRoot;
      assert HasRoot(ring, root);
      t :| t in ring && t.node == root;
      var i :| 0 <= i < |ring| && ring[i] == t;
      RootAt(ring, i);
      DegreeIndexes(ring, i);
    }

    /** consolidate: afterwards all root degrees differ, and minNode is a least root. */
    method Consolidate()
      requires Sound()
      modifies this`minNode, this`ring, Nodes(ring)
      ensures Valid() && DegreesDiffer(ring)
      ensures Keys(ring) == old(Keys(ring)) && Nodes(ring) == old(Nodes(ring))
    {
      hide Stored, AllGood, Nodes, Count, Keys, LeastRoot, Filed, MinIn, HeadsDiffer, ArraySize, DegreesDiffer, Heads;
      if minNode == null {
        NoRoots();
        return;
      }
      ghost var keys, nodes, ring0 := Keys(ring), Nodes(ring), ring;
      StoredHeads(ring);
      NonEmpty(ring);
      var slots := new FNode?[ArraySize(size)](_ => null);
      var rootList := CollectRoots();
      AllWaiting(ring, slots[..]);
      for idx := 0 to |rootList|
        invariant Loose(keys, nodes) && slots.Length == ArraySize(size)
        invariant Filed(ring, slots[..], Heads(ring0[idx..]))
      {
        HeadsTail(ring0, idx);
        FileRoot(rootList[idx], slots, Heads(ring0[idx + 1..]), keys, nodes);
      }
      HeadsTail(ring0, |ring0|);
      StoredMeans(ring);
      FiledDiffer(ring, slots[..]);
      var min := LeastTree();
      StartAt(min);
    }

    /** The ring is the same read from minNode on. */
    ghost method StartAt(min: Tree)
      requires Stored(ring) && AllGood(ring) && size == Count(ring) && DegreesDiffer(ring)
      requires min in ring && min.node == minNode && LeastRoot(ring, min)
      modifies this`ring
      ensures Valid() && DegreesDiffer(ring) && Keys(ring) == old(Keys(ring)) && Nodes(ring) == old(Nodes(ring))
    {
      hide Stored, Nodes, Count, Keys, AllGood, DegreesDiffer, LeastRoot;
      var m :| 0 <= m < |ring| && ring[m] == min;
      var a, b := ring[..m], ring[m..];
      assert ring == a + b;
      StoredRotate(a, b);
      Turned(a, b);
      var turned := b + a;
      TurnedRoots(a, b, min);
      ring := turned;
      assert ring[0] == min;
    }

    /** get_min: a least key of the whole heap. */
    method GetMin() returns (r: Option<int>)
      requires Valid()
      ensures r.None? <==> Keys(ring) == multiset{}
      ensures r.Some? ==> r.value in Keys(ring) && forall k :: k in Keys(ring) ==> r.value <= k
    {
      if size == 0 {
        assert ring == [];
        return None;
      }
      EmptyForest();
      assert ring == [ring[0]] + ring[1..];
      FirstIsLeast(ring[0], ring[1..]);
      RootAt(ring, 0);
      return Some(minNode.key);
    }

    /** extract_min: a least key leaves, with exactly the node that held it. */
    method ExtractMin() returns (r: Option<int>)
      requires Valid()
      modifies this, Nodes(ring)
      ensures Valid() && (r.None? <==> old(ring) == [])
      ensures r.None? ==> ring == []
      ensures r.Some? ==>
        && r.value in old(Keys(ring)) && (forall k :: k in old(Keys(ring)) ==> r.value <= k)
        && Keys(ring) == old(Keys(ring)) - multiset{r.value} && size == old(size) - 1
        && Nodes(ring) == old(Nodes(ring)) - {old(minNode)} && DegreesDiffer(ring)
    {
      hide Stored, AllGood, Nodes, Below, Count, Keys, LeastRoot, Filed, MinIn, HeadsDiffer, DegreesDiffer, Heads,
        Linked, Inside, Distinct;
      if minNode == null {
        return None;
      }
      ghost var t, rest := ring[0], ring[1..];
      assert ring == [t] + rest;
      FirstIsLeast(t, rest);
      StoredMeans(ring);
      OpenedCounts(t, rest);
      OpenedNodes(t, rest);
      OpenedGood(t, rest);
      OpenedLinks(t, rest);
      var extractedKey := minNode.key;
      DropFirst(t, rest);
      size := size - 1;
      Consolidate();
      return Some(extractedKey);
    }

    /** The relinking of extract_min: the minimum's children take its place. */
    method DropFirst(ghost t: Tree, ghost rest: seq<Tree>)
      requires ring == [t] + rest && Stored(ring) && minNode == t.node
      modifies this`minNode, this`ring, Nodes(ring)
      ensures ring == rest + t.kids && Stored(ring) && minNode == FirstNode(ring)
    {
      hide Stored, Nodes, Below, HeadsDiffer, Heads, Linked, Inside, Distinct;
      StoredMeans(ring);
      OpenedNodes(t, rest);
      OpenedHeads(t, rest);
      OpenedLinks(t, rest);
      var initMinNode := minNode;
      if minNode.right != minNode {
        assert ring[1..] == rest;
        SpliceChildren(minNode, ring, t.kids);
        assert Linked(rest + t.kids) && Inside(rest + t.kids);
        minNode := minNode.right;
      } else {
        minNode := minNode.child;
        assert rest + t.kids == t.kids;
        assert Linked(rest + t.kids) && Inside(rest + t.kids);
      }
      ring := rest + t.kids;
      Forget(initMinNode);
    }

    /** The extracted node lets go of its links. */
    method Forget(node: FNode)
      requires Distinct(ring) && Linked(ring) && Inside(ring) && node !in Nodes(ring)
      modifies node`child, node`right
      ensures Stored(ring)
    {
      hide Stored, Nodes, Below, HeadsDiffer, Heads, Linked, Inside, Distinct;
      HeadsAndBelow(ring);
      node.child := null;
      node.right := null;
      BuildStored(ring);
    }
  }

  lemma NoRoots()
    ensures DegreesDiffer([])
  {
  }

  lemma NonEmpty(ring: seq<Tree>)
    requires ring != []
    ensures Count(ring) > 0
  {
  }

  lemma AllWaiting(ring: seq<Tree>, arr: seq<FNode?>)
    requires forall d :: 0 <= d < |arr| ==> arr[d] == null
    ensures Filed(ring, arr, Heads(ring[0..]))
  {
    assert ring[0..] == ring;
    forall t | t in ring ensures t.node in Heads(ring) {
      var i :| 0 <= i < |ring| && ring[i] == t;
      HeadsMember(ring, t.node);
    }
    forall w | w in Heads(ring) ensures HasRoot(ring, w) {
      HeadsMember(ring, w);
      var i :| 0 <= i < |ring| && ring[i].node == w;
      assert ring[i] in ring;
    }
  }

  lemma HeadsTail(ring: seq<Tree>, i: nat)
    requires HeadsDiffer(ring) && i <= |ring|
    ensures i == |ring| ==> Heads(ring[i..]) == {}
    ensures i < |ring| ==>
      && Heads(ring[i..]) == Heads(ring[i + 1..]) + {ring[i].node}
      && ring[i].node !in Heads(ring[i + 1..])
  {
    if i < |ring| {
      assert ring[i..] == [ring[i]] + ring[i + 1..];
      Append([ring[i]], ring[i + 1..]);
      Single(ring[i]);
      var tail := ring[i + 1..];
      HeadsMember(tail, ring[i].node);
      forall j | 0 <= j < |tail| ensures tail[j].node != ring[i].node {
        assert tail[j] == ring[i + 1 + j];
      }
    }
  }

  /** The first root's key is a least key of the whole heap. */
  lemma FirstIsLeast(t: Tree, rest: seq<Tree>)
    requires AllGood([t] + rest) && LeastRoot([t] + rest, t)
    ensures t.key in Keys([t] + rest) && forall k :: k in Keys([t] + rest) ==> t.key <= k
  {
    var ring := [t] + rest;
    assert forall i :: 0 <= i < |ring| ==> ring[i] in ring;
    KeysAtLeast(ring, t.key);
    Append([t], rest);
    Single(t);
  }

  /** What remains when the first root goes and its children become roots: one node and one
      key less. */
  lemma OpenedCounts(t: Tree, rest: seq<Tree>)
    ensures Count(rest + t.kids) == Count([t] + rest) - 1
    ensures Keys(rest + t.kids) == Keys([t] + rest) - multiset{t.key}
  {
    hide Count, Keys;
    Append([t], rest);
    Single(t);
    Append(rest, t.kids);
  }

  lemma OpenedNodes(t: Tree, rest: seq<Tree>)
    requires Distinct([t] + rest)
    ensures Nodes(rest + t.kids) == Nodes([t] + rest) - {t.node} && t.node in Nodes([t] + rest)
    ensures Distinct(rest + t.kids)
    ensures allocated(Nodes([t] + rest))
  {
    hide Nodes, Distinct;
    AppendNodes([t], rest);
    AppendDistinct([t], rest);
    Single(t);
    AppendNodes(rest, t.kids);
    AppendDistinct(rest, t.kids);
    WithoutOne(t.node, Nodes(t.kids), Nodes(rest));
  }

  lemma WithoutOne(n: FNode, a: set<FNode>, b: set<FNode>)
    requires n !in a && ({n} + a) !! b
    ensures b + a == {n} + a + b - {n} && b !! a
  {
  }

  lemma OpenedHeads(t: Tree, rest: seq<Tree>)
    requires Distinct([t] + rest)
    ensures HeadsDiffer([t] + rest + t.kids)
    ensures Heads([t] + rest) <= Nodes([t] + rest) && Heads(t.kids) <= Nodes([t] + rest)
    ensures Heads([t] + rest) !! Below(rest + t.kids) && Heads(t.kids) !! Below(rest + t.kids)
    ensures Heads(rest + t.kids) <= Nodes(rest + t.kids) && Below(rest + t.kids) <= Nodes(rest + t.kids)
    ensures allocated(Nodes(rest + t.kids)) && allocated(Below(rest + t.kids)) && allocated(Heads(rest + t.kids))
  {
    hide Nodes, Distinct, Heads, Below;
    OpenedNodes(t, rest);
    Append(rest, t.kids);
    Append([t], rest);
    Single(t);
    HeadsAndBelow([t] + rest);
    HeadsAndBelow(t.kids);
    HeadsAndBelow(rest + t.kids);
    OpenedDiffer(t, rest);
  }

  lemma OpenedDiffer(t: Tree, rest: seq<Tree>)
    requires Distinct([t] + rest)
    ensures HeadsDiffer([t] + rest + t.kids)
  {
    hide Nodes, Distinct, Heads, Below;
    OpenedNodes(t, rest);
    HeadsAndBelow([t] + rest);
    HeadsAndBelow(rest + t.kids);
    var both := rest + t.kids;
    var all := [t] + rest + t.kids;
    assert all == [t] + both;
    forall i, j | 0 <= i < j < |all| ensures all[i].node != all[j].node {
      assert all[j] == both[j - 1];
      if i > 0 { assert all[i] == both[i - 1]; }
    }
  }

  lemma OpenedGood(t: Tree, rest: seq<Tree>)
    requires AllGood([t] + rest)
    ensures AllGood(rest + t.kids)
  {
    var ring := [t] + rest;
    assert Good(ring[0]);
    forall i | 0 <= i < |rest + t.kids| ensures Good((rest + t.kids)[i]) {
      if i < |rest| { assert (rest + t.kids)[i] == ring[i + 1]; }
        else { assert (rest + t.kids)[i] == t.kids[i - |rest|]; }
    }
  }

  lemma OpenedLinks(t: Tree, rest: seq<Tree>)
    requires Stored([t] + rest)
    ensures Linked([t] + rest) && Linked(t.kids) && Inside(rest + t.kids)
    ensures t.node.key == t.key && t.node.child == FirstNode(t.kids)
    ensures t.node.right == if rest == [] then t.node else rest[0].node
    ensures rest != [] ==> rest[0].node != t.node
  {
    hide Nodes, Distinct, Heads, Below, Linked, Inside;
    var ring := [t] + rest;
    StoredMeans(ring);
    InsideAt(ring, 0);
    InsideAppend([t], rest);
    InsideAppend(rest, t.kids);
    LinkedNeighbours(ring);
    assert rest != [] ==> ring[1] == rest[0];
  }

  /** What consolidate reads of a root. */
  lemma RootAt(ring: seq<Tree>, i: nat)
    requires Stored(ring) && i < |ring|
    ensures ring[i].node.key == ring[i].key && ring[i].node.degree == |ring[i].kids|
    ensures ring[i].node.right == ring[if i + 1 < |ring| then i + 1 else 0].node
    ensures ring[i].node in Heads(ring)
  {
    StoredMeans(ring);
    InsideAt(ring, i);
    HeadsAndBelow(ring);
    assert i + 1 < |ring| ==> Joined(ring[i].node, ring[i + 1].node);
  }

  lemma RootsDiffer(ring: seq<Tree>, k: nat)
    requires Stored(ring) && k <= |ring|
    ensures 0 < k < |ring| ==> ring[k].node != ring[0].node
  {
    StoredHeads(ring);
  }

  lemma MeldLeastRoot(ring: seq<Tree>, min: Tree, x: Tree, y: Tree)
    requires Stored(ring) && min in ring && x in ring && y in ring
    ensures min.node == x.node ==> min == x
    ensures min.node == y.node ==> min == y
  {
    StoredHeads(ring);
    if min.node == x.node { SameNodeSameTree(ring, min, x); }
    if min.node == y.node { SameNodeSameTree(ring, min, y); }
  }

  lemma GoodLeaf(ring: seq<Tree>, t: Tree)
    requires AllGood(ring) && t.kids == []
    ensures AllGood(ring + [t]) && AllGood([t] + ring)
    ensures ring != [] && LeastRoot(ring, ring[0]) ==>
      if t.key < ring[0].key then LeastRoot([t] + ring, t) else LeastRoot(ring + [t], ring[0])
    ensures LeastRoot([t], t)
  {
    Single(t);
    assert Pow2(0) == 1;
    assert Good(t);
  }
}
