/** The B-tree operations at the root. */
module BTreeOperations {
  import opened SortedSequences
  import opened BTrees
  import opened BTreeRemoval

  /** A B-tree of height h: uniform depth, bounded key counts, keys in order. */
  ghost predicate IsBTree(t: Tree, b: nat, h: nat) {
    b >= 2 && WellFormed(t, b, h) && Sorted(InOrder(t)) && (t.Node? ==> |t.live| >= 1)
  }

  /** A new root above a full one. */
  function Raised(t: Tree, b: nat): Tree
    requires b > 0
  {
    Node([], Blanks(2 * b - 1), [t])
  }

  lemma RaisedFacts(t: Tree, b: nat, h: nat)
    requires b >= 2 && WellFormed(t, b, h) && |t.live| == 2 * b - 1
    ensures WellFormed(Raised(t, b), b, h + 1) && InOrder(Raised(t, b)) == InOrder(t)
    ensures Raised(t, b).dead != [] && (t.Node? ==> |t.kids| == 2 * b)
  {
    WeaveOne(t);
    assert Kid(t, b, h);
    KidShows(t, b, h);
  }

  /** The root BTree::insert descends from: a full root is split below a new one. */
  function RootFor(t: Tree, b: nat, ghost h: nat): Tree
    requires IsBTree(t, b, h)
  {
    if |t.live| >= 2 * b - 1 then RaisedFacts(t, b, h); SplitChild(Raised(t, b), 0, b) else t
  }

  ghost function HeightFor(t: Tree, b: nat, h: nat): nat { if |t.live| >= 2 * b - 1 then h + 1 else h }

  lemma RootForFacts(t: Tree, b: nat, h: nat)
    requires IsBTree(t, b, h)
    ensures var r := RootFor(t, b, h);
            && Enterable(r, b, HeightFor(t, b, h)) && InOrder(r) == InOrder(t) && (r.Node? ==> |r.live| >= 1)
  {
    hide InOrder, LeftHalf, RightHalf;
    if |t.live| >= 2 * b - 1 {
      RaisedFacts(t, b, h);
      SplitFacts(Raised(t, b), 0, b, h + 1);
    }
  }

  /** BTree::insert on a tree with a root. */
  function InsertRoot(t: Tree, k: int, b: nat, ghost h: nat): (Tree, bool)
    requires IsBTree(t, b, h)
  {
    RootForFacts(t, b, h);
    Insert(RootFor(t, b, h), k, b, HeightFor(t, b, h))
  }

  /** Insertion of any key: it goes in exactly when the leaf found for it in the old tree does
      not refuse it, nothing else changes, and the tree stays a B-tree unless a key that was
      there already went in. */
  lemma InsertRootFacts(t: Tree, k: int, b: nat, h: nat)
    requires IsBTree(t, b, h)
    ensures k !in InOrder(t) || !InsertRoot(t, k, b, h).1 ==>
      IsBTree(InsertRoot(t, k, b, h).0, b, HeightFor(t, b, h))
    ensures InsertRoot(t, k, b, h).1 <==> !Refuses(LeafFor(t, k, b, h), k, b)
    ensures InOrder(InsertRoot(t, k, b, h).0) == if InsertRoot(t, k, b, h).1 then With(InOrder(t), k) else InOrder(t)
  {
    hide InOrder, Insert, LeftHalf, RightHalf, Sorted, With, Refuses, GetIndex;
    var r, h' := RootFor(t, b, h), HeightFor(t, b, h);
    RootForFacts(t, b, h);
    InsertShape(r, k, b, h');
    InsertOrder(r, k, b, h');
    InsertSucceeds(r, k, b, h');
    if k !in InOrder(t) { WithFacts(InOrder(t), k); }
    if |t.live| >= 2 * b - 1 {
      RaisedLeaf(t, k, b, h);
    }
  }

  /** Splitting a full root changes neither the leaf found nor its verdict. */
  lemma RaisedLeaf(t: Tree, k: int, b: nat, h: nat)
    requires IsBTree(t, b, h) && |t.live| == 2 * b - 1
    ensures WellFormed(RootFor(t, b, h), b, h + 1)
    ensures Refuses(LeafFor(RootFor(t, b, h), k, b, h + 1), k, b) <==> Refuses(LeafFor(t, k, b, h), k, b)
  {
    hide InOrder, LeftHalf, RightHalf, Sorted, Refuses, GetIndex;
    RootForFacts(t, b, h);
    RaisedFacts(t, b, h);
    GetIndexIs([], k, 0);
    SplitIndex(Raised(t, b), 0, k, b);
    HalfRefuses(t, k, b, h);
    KidAt(RootFor(t, b, h), b, h + 1, GetIndex(RootFor(t, b, h).live, k));
  }

  /** The leaf found for a key of an inner node lies below that key. */
  lemma {:induction false} LeafBelow(t: Tree, k: int, b: nat, h: nat)
    requires WellFormed(t, b, h) && Sorted(InOrder(t)) && k in InOrder(t) && k !in LeafFor(t, k, b, h).live
    ensures var u := LeafFor(t, k, b, h); GetIndex(u.live, k) == |u.live|
    decreases h
  {
    hide InOrder, GetIndex, Weave, Pairs, Rest;
    if t.Node? {
      var i := GetIndex(t.live, k);
      KidAt(t, b, h, i);
      Surroundings(t, k, b, h);
      var (a, m, r) := (Pairs(t.kids[..i], t.live[..i]), InOrder(t.kids[i]), Rest(t.kids[i + 1..], t.live[i..]));
      SortedParts(a, m, r);
      if i < |t.live| && t.live[i] == k {
        var u := LeafFor(t.kids[i], k, b, h - 1);
        LeafForIsLeaf(t.kids[i], k, b, h - 1);
        assert r[0] in r;
        assert forall j :: 0 <= j < |u.live| ==> u.live[j] in u.live;
        GetIndexIs(u.live, k, |u.live|);
      } else {
        InTheMiddle(a, m, r, k);
        LeafBelow(t.kids[i], k, b, h - 1);
      }
    } else {
      LeafOrder(t);
    }
  }

  lemma LeafOrder(t: Tree)
    requires t.Leaf?
    ensures InOrder(t) == t.live
  {
  }

  /** A key of the tree goes in a second time exactly when it is the middle key of the leaf found
      for it and that leaf is full, or when the leaf does not hold it and the slot behind the
      leaf's keys, which is blank after a split, does not hold it either. */
  lemma PresentKeyExactly(t: Tree, k: int, b: nat, h: nat)
    requires IsBTree(t, b, h) && k in InOrder(t)
    ensures var u := LeafFor(t, k, b, h);
            InsertRoot(t, k, b, h).1 <==>
              if k in u.live then |u.live| == 2 * b - 1 && k == u.live[b - 1] && k != BLANK
              else k != if |u.live| == 2 * b - 1 then BLANK else u.dead[0]
    ensures InsertRoot(t, k, b, h).1 ==> multiset(InOrder(InsertRoot(t, k, b, h).0))[k] == 2
  {
    hide InOrder, InsertRoot, LeafFor, Refuses, Sorted, With, GetIndex;
    InsertRootFacts(t, k, b, h);
    var u := LeafFor(t, k, b, h);
    LeafKeys(t, k, b, h);
    if k in u.live {
      RefusesPresent(u, k, b);
    } else {
      RefusesNew(u, k, b);
      LeafBelow(t, k, b, h);
    }
    WithCounts(InOrder(t), k);
  }

  /** BTree::remove on a tree with a root: an emptied internal root gives way to its child. */
  function RemoveRoot(t: Tree, k: int, b: nat, ghost h: nat): Tree
    requires IsBTree(t, b, h) && k in InOrder(t)
  {
    RootMayRemove(t, k, b, h);
    var r := Remove(t, k, b, h);
    RemoveShape(t, k, b, h);
    if |r.live| == 0 && r.Node? then KidAt(r, b, h, 0); r.kids[0] else r
  }

  lemma RootMayRemove(t: Tree, k: int, b: nat, h: nat)
    requires IsBTree(t, b, h) && k in InOrder(t)
    ensures MayRemove(t, k, b, h)
  {
  }

  /** Removal of a present key: the tree stays a B-tree, at most one level lower, and exactly
      that key is gone. */
  lemma RemoveRootFacts(t: Tree, k: int, b: nat, h: nat)
    requires IsBTree(t, b, h) && k in InOrder(t)
    ensures InOrder(RemoveRoot(t, k, b, h)) == Without(InOrder(t), k)
    ensures IsBTree(RemoveRoot(t, k, b, h), b, h) || (h > 0 && IsBTree(RemoveRoot(t, k, b, h), b, h - 1))
  {
    hide InOrder, Remove, Sorted, Without;
    RootMayRemove(t, k, b, h);
    RemoveShape(t, k, b, h);
    RemoveOrder(t, k, b, h);
    WithoutFacts(InOrder(t), k);
    var r := Remove(t, k, b, h);
    if |r.live| == 0 && r.Node? {
      KidAt(r, b, h, 0);
      KidShows(r.kids[0], b, h - 1);
      WeaveOne(r.kids[0]);
      NodeOrder(r);
      assert r.kids == [r.kids[0]] && r.live == [];
    }
  }

  /** A key can get lost: after 5 has come and gone, the blank value does not go in. */
  lemma BlankIsLost()
    ensures var t := Leaf([5], Blanks(2));
            && IsBTree(t, 2, 0) && 5 in InOrder(t)
            && var u := RemoveRoot(t, 5, 2, 0);
               IsBTree(u, 2, 0) && BLANK !in InOrder(u) && !InsertRoot(u, BLANK, 2, 0).1
                 && InOrder(InsertRoot(u, BLANK, 2, 0).0) == []
  {
    var t := Leaf([5], Blanks(2));
    assert IsBTree(t, 2, 0) && 5 in InOrder(t);
    var u := RemoveRoot(t, 5, 2, 0);
    RemoveRootFacts(t, 5, 2, 0);
    assert u.live == [] && u.dead == [BLANK] + Blanks(2);
    assert (u.live + u.dead)[0] == BLANK;
  }
}
