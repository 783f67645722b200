/** The B-tree object: its nodes in the heap, and the keys it holds. */
module BTreeObjects {
  import opened SortedSequences
  import T = BTrees
  import O = BTreeOperations
  import R = BTreeRemoval
  import S = BTreeSlots
  import opened BTreeNodes
  import I = BTreeInsertion
  import D = BTreeDeletion

  /** What hangs below the root pointer. */
  datatype Content = Empty | Full(shape: Shape, tree: T.Tree, height: nat)

  class BTree {
    /** The template parameter. */
    const order: nat
    var root: BNode?
    ghost var content: Content
    /** Every key that insert has been called with. */
    ghost var offered: set<int>

    ghost function Footprint(): set<object>
      reads this
    {
      if content.Empty? then {} else Parts([content.shape])
    }

    ghost predicate Valid()
      reads this, Footprint()
    {
      && order >= 2 && (root == null <==> content.Empty?) && this !in Footprint()
      && (content.Full? ==>
            && Is(content.shape, content.tree, order) && content.shape.node == root
            && O.IsBTree(content.tree, order, content.height) && S.SlotsIn(content.tree, offered + {T.BLANK}))
    }

    /** The keys in order. */
    ghost function Keys(): seq<int>
      reads this
    {
      if content.Empty? then [] else T.InOrder(content.tree)
    }

    /** The leaf that the search for k ends in refuses k. */
    ghost predicate Refuses(k: int)
      requires Valid() && content.Full?
      reads this, Footprint()
    {
      T.Refuses(T.LeafFor(content.tree, k, order, content.height), k, order)
    }

    constructor (b: nat)
      requires b >= 2
      ensures Valid() && order == b && root == null && offered == {}
    {
      order, root, content, offered := b, null, Empty, {};
    }

    /** The tree after inserting k. */
    ghost function Inserted(k: int): T.Tree
      requires Valid()
      reads this, Footprint()
    {
      if content.Empty? then T.Leaf([k], T.Blanks(2 * order - 2))
      else O.InsertRoot(content.tree, k, order, content.height).0
    }

    /** insert, for a key that is not in the tree or is refused: the key goes in unless it is
        refused, which only happens to the blank value and to keys offered before. */
    method Insert(k: int) returns (done: bool)
      requires Valid() && (k !in Keys() || Refuses(k))
      modifies this, Footprint()
      ensures Valid() && fresh(Footprint() - old(Footprint())) && offered == old(offered) + {k}
      ensures done <==> old(root) == null || !old(Refuses(k))
      ensures k !in old(offered) && k != T.BLANK ==> done
      ensures Keys() == if done then With(old(Keys()), k) else old(Keys())
      ensures content.Full? && content.tree == old(Inserted(k))
    {
      hide Is, Parts, T.InOrder, T.LeafFor, T.Refuses, Sorted, With, O.IsBTree, O.RootFor, T.Insert, NodeIs,
        T.Enterable, S.SlotsIn;
      if root == null {
        NewRoot(k);
        WithFirst(k);
        return true;
      }
      ghost var (t, h) := (content.tree, content.height);
      ghost var slots, slots' := offered + {T.BLANK}, offered + {k} + {T.BLANK};
      S.MoreSlots(t, slots, slots');
      S.InsertRootSlots(t, k, order, h, slots');
      if k !in offered && k != T.BLANK { S.FreshKeyGoesIn(t, k, order, h, slots); }
      offered := offered + {k};
      O.InsertRootFacts(t, k, order, h);
      O.RootForFacts(t, order, h);
      Means(content.shape, t, order);
      Shows(root, content.shape.kids, t, order);
      ghost var r := O.RootFor(t, order, h);
      ghost var (s, more) := (content.shape, {});
      if root.n >= 2 * order - 1 {
        s, more := Raise();
      } else {
        StaysRoot(t, order, h);
      }
      ghost var h' := O.HeightFor(t, order, h);
      label Ready:
      ghost var s';
      done, s' := I.Insert(root, k, order, s, r, h');
      content := Full(s', T.Insert(r, k, order, h').0, h');
      ghost var grown := Footprint() - old(Footprint());
      assert grown <= (Parts([s']) - Parts([s])) + more;
      forall o | o in grown ensures fresh(o) {
        if o !in more {
          assert o in Parts([s']) - Parts([s]);
          assert !old@Ready(allocated(o));
        }
      }
      assert Footprint() - old(Footprint()) == grown && fresh(grown);
    }

    /** remove, for a key of the tree if there is one: exactly that key goes. */
    method Remove(k: int) returns (done: bool)
      requires Valid() && (root == null || k in Keys())
      modifies this, Footprint()
      ensures Valid() && Footprint() <= old(Footprint()) && offered == old(offered)
      ensures done <==> old(root) != null
      ensures done ==> content.Full? && content.tree == old(O.RemoveRoot(content.tree, k, order, content.height))
      ensures Keys() == if done then Without(old(Keys()), k) else []
    {
      hide Is, Parts, T.InOrder, Sorted, Without, O.IsBTree, R.Remove, S.SlotsIn;
      if root == null { return false; }
      ghost var (t, h) := (content.tree, content.height);
      S.RemoveRootSlots(t, k, order, h, offered + {T.BLANK});
      O.RootMayRemove(t, k, order, h);
      O.RemoveRootFacts(t, k, order, h);
      var removed;
      ghost var s;
      removed, s := D.Remove(root, k, order, content.shape, t, h);
      s := Lower(k, s, t, h);
      ghost var u := O.RemoveRoot(t, k, order, h);
      content := Full(s, u, if O.IsBTree(u, order, h) then h else h - 1);
      done := true;
    }

    /** An internal root that has lost its last key gives way to its only child. */
    method Lower(ghost k: int, ghost s: Shape, ghost t: T.Tree, ghost h: nat) returns (ghost s': Shape)
      requires root != null && O.IsBTree(t, order, h) && k in T.InOrder(t) && this !in Parts([s])
      requires R.MayRemove(t, k, order, h) && Is(s, R.Remove(t, k, order, h), order) && s.node == root
      modifies this`root
      ensures root != null && s'.node == root && Parts([s']) <= Parts([s])
      ensures Is(s', O.RemoveRoot(t, k, order, h), order)
    {
      hide Is, Parts, T.InOrder, Sorted, Without, O.IsBTree, R.Remove, NodeIs, Own, Store, Apart, Distinct;
      ghost var r := R.Remove(t, k, order, h);
      R.RemoveShape(t, k, order, h);
      Means(s, r, order);
      Shows(root, s.kids, r, order);
      s' := s;
      if root.n == 0 && !root.leaf {
        T.KidAt(r, order, h, 0);
        OpenKid(s, r, order, 0);
        LinkedKid(root, s.kids, r, order, 0);
        root, s' := root.edges[0], s.kids[0];
      }
    }

    /** The first key makes a root. */
    method NewRoot(k: int)
      requires order >= 2 && root == null
      modifies this
      ensures Valid() && Keys() == [k] && fresh(Footprint()) && offered == old(offered) + {k}
      ensures content.Full? && content.tree == T.Leaf([k], T.Blanks(2 * order - 2))
    {
      hide Is, Parts, T.InOrder, O.IsBTree, NodeIs;
      var x := new BNode(order);
      x.keys[0] := k;
      x.n := 1;
      ghost var t := T.Leaf([k], T.Blanks(2 * order - 2));
      OneKey(k, order);
      I.NoLinks(x.edges[..]);
      Made(x, [], t, order);
      Nothing(order);
      CloseAll(x, t, order, []);
      S.FirstSlots(k, order, offered + {k} + {T.BLANK});
      root, content, offered := x, Full(At(x, []), t, 0), offered + {k};
    }

    /** A full root is split below a new one. */
    method Raise() returns (ghost s: Shape, ghost more: set<object>)
      requires Valid() && root != null && |content.tree.live| >= 2 * order - 1
      modifies this`root, Footprint()
      ensures content == old(content) && root != null && s.node == root
      ensures Is(s, O.RootFor(content.tree, order, content.height), order)
      ensures fresh(more) && Parts([s]) <= Footprint() + more
    {
      hide Is, T.InOrder, O.IsBTree, NodeIs, O.RootFor, O.Raised, T.SplitChild, I.CanSplit, Own;
      ghost var t := content.tree;
      Raisable(t, order, content.height);
      var newRoot := Above(root, order, content.shape, t);
      ghost var below := At(newRoot, [content.shape]);
      label Above:
      s := I.SplitChild(newRoot, 0, order, below, O.Raised(t, order));
      more := (Parts([s]) - Parts([below])) + Own(newRoot);
      forall o | o in more ensures fresh(o) {
        if o !in Own(newRoot) { assert !old@Above(allocated(o)); }
      }
      root := newRoot;
    }
  }

  /** A new root with the old one as its only child. */
  method Above(root: BNode, b: nat, ghost s: Shape, ghost t: T.Tree) returns (x: BNode)
    requires b >= 2 && Is(s, t, b) && s.node == root
    ensures Is(At(x, [s]), O.Raised(t, b), b)
    ensures fresh(Own(x)) && Parts([At(x, [s])]) == Own(x) + Parts([s])
  {
    hide Is, Parts, NodeIs;
    Means(s, t, b);
    x := new BNode(b);
    x.edges[0] := root;
    x.leaf := false;
    Made(x, [s], O.Raised(t, b), b);
    KidParts(s, t, b);
    CloseAll(x, O.Raised(t, b), b, [s]);
  }

  lemma Raisable(t: T.Tree, b: nat, h: nat)
    requires O.IsBTree(t, b, h) && |t.live| >= 2 * b - 1
    ensures b >= 2 && I.CanSplit(O.Raised(t, b), 0, b) && O.RootFor(t, b, h) == T.SplitChild(O.Raised(t, b), 0, b)
  {
    O.RaisedFacts(t, b, h);
  }

  /** A root holding one key. */
  lemma OneKey(k: int, b: nat)
    requires b >= 2
    ensures T.Blanks(2 * b - 1)[0 := k] == [k] + T.Blanks(2 * b - 2)
    ensures O.IsBTree(T.Leaf([k], T.Blanks(2 * b - 2)), b, 0) && T.InOrder(T.Leaf([k], T.Blanks(2 * b - 2))) == [k]
  {
  }

  lemma WithFirst(k: int)
    ensures With([], k) == [k]
  {
  }

  lemma StaysRoot(t: T.Tree, b: nat, h: nat)
    requires O.IsBTree(t, b, h) && |t.live| < 2 * b - 1
    ensures O.RootFor(t, b, h) == t
  {
  }
}
