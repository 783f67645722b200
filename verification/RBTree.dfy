/** The red-black tree object. */
module RBTrees {
  import T = RedBlackTrees
  import N = RedBlackNodes

  /** RBTree: the root pointer. */
  class RBTree {
    var root: N.RBNode?
    ghost var shape: N.Shape

    ghost predicate Valid()
      reads this, N.Nodes(shape)
    {
      N.Holds(root, shape) && T.IsTree(N.Value(shape))
    }

    ghost function Tree(): T.Tree
      reads this, N.Nodes(shape)
    {
      N.Value(shape)
    }

    constructor ()
      ensures Valid() && Tree() == T.Leaf && N.Nodes(shape) == {}
    {
      root, shape := null, N.Nil;
    }

    method Insert(t: int) returns (done: bool)
      requires Valid()
      modifies this, N.Nodes(shape)
      ensures Valid() && fresh(N.Nodes(shape) - old(N.Nodes(shape))) && done
      ensures Tree() == T.Apply(old(Tree()), T.Add(t))
      ensures T.Keys(Tree()) == old(T.Keys(Tree())) + {t}
    {
      hide N.Holds, N.Value, N.Nodes, T.IsTree, T.Keys, T.Insert;
      ghost var v := N.Value(shape);
      T.ApplyKeepsTree(v, T.Add(t));
      N.Look(root, shape);
      root, shape := N.Insert(root, t, shape);
      BlackenRoot();
      return true;
    }

    /** The recolouring at the end of every operation. */
    method BlackenRoot()
      requires N.Holds(root, shape)
      modifies N.Nodes(shape)
      ensures N.Holds(root, shape)
      ensures N.Value(shape) == T.Blacken(old(N.Value(shape)))
    {
      hide N.Holds, N.Value, N.Nodes;
      N.Look(root, shape);
      if root != null {
        root.color := T.Black;
        N.Build(root, shape.left, shape.right);
      }
    }

    method Remove(t: int)
      requires Valid() && t in T.Keys(Tree())
      modifies this, N.Nodes(shape)
      ensures Valid() && N.Nodes(shape) <= old(N.Nodes(shape))
      ensures Tree() == T.Apply(old(Tree()), T.Delete(t))
      ensures T.Keys(Tree()) == old(T.Keys(Tree())) - {t}
    {
      hide N.Holds, N.Value, N.Nodes, T.Keys, T.Remove, T.Enterable, T.LeansRight;
      ghost var v := N.Value(shape);
      T.ApplyKeepsTree(v, T.Delete(t));
      T.NodeIffKeys(v);
      N.Look(root, shape);
      T.RootIsEnterable(v);
      root, shape := N.Remove(root, t, shape);
      BlackenRoot();
    }

    method RemoveMin()
      requires Valid() && T.Keys(Tree()) != {}
      modifies this, N.Nodes(shape)
      ensures Valid() && N.Nodes(shape) <= old(N.Nodes(shape))
      ensures Tree() == T.Apply(old(Tree()), T.DeleteLeast)
      ensures T.Keys(Tree()) == old(T.Keys(Tree())) - {T.Least(old(T.Keys(Tree())))}
    {
      hide N.Holds, N.Value, N.Nodes, T.Keys, T.RemoveMin;
      ghost var v := N.Value(shape);
      T.ApplyKeepsTree(v, T.DeleteLeast);
      T.NodeIffKeys(v);
      N.Look(root, shape);
      root, shape := N.RemoveMin(root, shape);
      BlackenRoot();
    }

    method RemoveMax()
      requires Valid() && T.Keys(Tree()) != {}
      modifies this, N.Nodes(shape)
      ensures Valid() && N.Nodes(shape) <= old(N.Nodes(shape))
      ensures Tree() == T.Apply(old(Tree()), T.DeleteGreatest)
      ensures T.Keys(Tree()) == old(T.Keys(Tree())) - {T.Greatest(old(T.Keys(Tree())))}
    {
      hide N.Holds, N.Value, N.Nodes, T.Keys, T.RemoveMax;
      ghost var v := N.Value(shape);
      T.ApplyKeepsTree(v, T.DeleteGreatest);
      T.NodeIffKeys(v);
      N.Look(root, shape);
      T.RootIsEnterable(v);
      root, shape := N.RemoveMax(root, shape);
      BlackenRoot();
    }

    method Contains(t: int) returns (found: bool)
      requires Valid()
      ensures found <==> t in T.Keys(Tree())
    {
      N.Look(root, shape);
      if root == null {
        return false;
      }
      T.ContainsIsMembership(N.Value(shape), t);
      found := N.Contains(root, t, shape);
    }

    method LeftmostKey() returns (k: int, some: bool)
      requires Valid()
      ensures some <==> T.Keys(Tree()) != {}
      ensures some ==> k == T.Least(T.Keys(Tree()))
    {
      N.Look(root, shape);
      T.NodeIffKeys(N.Value(shape));
      if root == null {
        return 0, false;
      }
      T.LeftmostIsLeast(N.Value(shape));
      k := N.LeftmostKey(root, shape);
      some := true;
    }

    method RightmostKey() returns (k: int, some: bool)
      requires Valid()
      ensures some <==> T.Keys(Tree()) != {}
      ensures some ==> k == T.Greatest(T.Keys(Tree()))
    {
      N.Look(root, shape);
      T.NodeIffKeys(N.Value(shape));
      if root == null {
        return 0, false;
      }
      T.RightmostIsGreatest(N.Value(shape));
      k := N.RightmostKey(root, shape);
      some := true;
    }
  }
}
