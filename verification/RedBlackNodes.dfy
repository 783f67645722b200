/** The red-black tree in place: nodes relinked and recoloured, each operation proved to
    compute the corresponding tree value. */
module RedBlackNodes {
  import T = RedBlackTrees

  /** The layout of a tree in the heap. */
  datatype Shape = Nil | At(node: RBNode, left: Shape, right: Shape)

  ghost function Nodes(s: Shape): set<RBNode> {
    if s.Nil? then {} else Nodes(s.left) + {s.node} + Nodes(s.right)
  }

  /** The links below n are laid out as s, no node twice. */
  ghost predicate Holds(n: RBNode?, s: Shape)
    reads Nodes(s)
  {
    match s
    case Nil => n == null
    case At(m, l, r) =>
      && n == m && m !in Nodes(l) && m !in Nodes(r) && Nodes(l) !! Nodes(r)
      && Holds(m.left, l) && Holds(m.right, r)
  }

  /** The tree value that the nodes represent. */
  ghost function Value(s: Shape): (t: T.Tree)
    reads Nodes(s)
    ensures t.Node? <==> s.At?
  {
    if s.Nil? then T.Leaf else T.Node(s.node.color, Value(s.left), s.node.key, Value(s.right))
  }

  predicate IsRed(n: RBNode?)
    reads n
  {
    n != null && n.color == T.Red
  }

  class RBNode {
    var key: int
    var color: T.Color
    var left: RBNode?
    var right: RBNode?

    constructor (t: int)
      ensures key == t && color == T.Red && left == null && right == null
    {
      key, color, left, right := t, T.Red, null, null;
    }
  }

  /** What a laid-out node shows of its tree. */
  lemma Look(n: RBNode?, s: Shape)
    requires Holds(n, s)
    ensures n == null <==> s.Nil?
    ensures IsRed(n) <==> T.IsRed(Value(s))
    ensures n != null ==>
      && Holds(n.left, s.left) && Holds(n.right, s.right) && s.node == n
      && Value(s) == T.Node(n.color, Value(s.left), n.key, Value(s.right))
      && n !in Nodes(s.left) && n !in Nodes(s.right) && Nodes(s.left) !! Nodes(s.right)
      && Nodes(s) == Nodes(s.left) + {n} + Nodes(s.right)
      && allocated(Nodes(s.left)) && allocated(Nodes(s.right))
  {
  }

  lemma Build(n: RBNode, l: Shape, r: Shape)
    requires Holds(n.left, l) && Holds(n.right, r)
    requires n !in Nodes(l) && n !in Nodes(r) && Nodes(l) !! Nodes(r)
    ensures Holds(n, At(n, l, r)) && Value(At(n, l, r)) == T.Node(n.color, Value(l), n.key, Value(r))
    ensures Nodes(At(n, l, r)) == Nodes(l) + {n} + Nodes(r)
  {
  }

  method RotateRight(n: RBNode, ghost s: Shape) returns (x: RBNode, ghost s': Shape)
    requires Holds(n, s) && s.left.At?
    modifies Nodes(s)
    ensures Holds(x, s') && Nodes(s') == Nodes(s)
    ensures Value(s') == T.RotateRight(old(Value(s)))
  {
    hide Holds, Value, Nodes;
    Look(n, s);
    Look(n.left, s.left);
    x := n.left;
    ghost var m := At(n, s.left.right, s.right);
    s' := At(x, s.left.left, m);
    n.left := x.right;
    x.right := n;
    x.color := x.right.color;
    x.right.color := T.Red;
    Build(n, s.left.right, s.right);
    Build(x, s.left.left, m);
  }

  method RotateLeft(n: RBNode, ghost s: Shape) returns (x: RBNode, ghost s': Shape)
    requires Holds(n, s) && s.right.At?
    modifies Nodes(s)
    ensures Holds(x, s') && Nodes(s') == Nodes(s)
    ensures Value(s') == T.RotateLeft(old(Value(s)))
  {
    hide Holds, Value, Nodes;
    Look(n, s);
    Look(n.right, s.right);
    x := n.right;
    ghost var m := At(n, s.left, s.right.left);
    s' := At(x, m, s.right.right);
    n.right := x.left;
    x.left := n;
    x.color := x.left.color;
    x.left.color := T.Red;
    Build(n, s.left, s.right.left);
    Build(x, m, s.right.right);
  }

  /** One of the three recolourings of flip_color. */
  method InvertColor(n: RBNode?, ghost s: Shape)
    requires Holds(n, s)
    modifies Nodes(s)
    ensures Holds(n, s) && Value(s) == T.Inverted(old(Value(s)))
  {
    hide Holds, Value, Nodes;
    Look(n, s);
    if n != null {
      n.color := T.Opposite(n.color);
      Build(n, s.left, s.right);
    }
  }

  method FlipColor(n: RBNode, ghost s: Shape)
    requires Holds(n, s)
    modifies Nodes(s)
    ensures Holds(n, s)
    ensures Value(s) == T.FlipColor(old(Value(s)))
  {
    hide Holds, Value, Nodes;
    Look(n, s);
    n.color := T.Opposite(n.color);
    InvertColor(n.left, s.left);
    InvertColor(n.right, s.right);
    Build(n, s.left, s.right);
  }

  /** The last two tests of insert and fix_up. */
  method FixLeft(n: RBNode, ghost s: Shape) returns (x: RBNode, ghost s': Shape)
    requires Holds(n, s)
    modifies Nodes(s)
    ensures Holds(x, s') && Nodes(s') == Nodes(s)
    ensures Value(s') == T.FixLeft(old(Value(s)))
  {
    hide Holds, Value, Nodes, T.RotateRight, T.FlipColor;
    x, s' := n, s;
    Look(n, s);
    Look(n.left, s.left);
    if IsRed(n.left) {
      Look(n.left.left, s.left.left);
      if IsRed(n.left.left) {
        x, s' := RotateRight(n, s);
      }
    }
    Look(x, s');
    Look(x.left, s'.left);
    Look(x.right, s'.right);
    if IsRed(x.left) && IsRed(x.right) {
      FlipColor(x, s');
    }
  }

  method FixUp(n: RBNode, ghost s: Shape) returns (x: RBNode, ghost s': Shape)
    requires Holds(n, s)
    modifies Nodes(s)
    ensures Holds(x, s') && Nodes(s') == Nodes(s)
    ensures Value(s') == T.FixUp(old(Value(s)))
  {
    hide Holds, Value, Nodes, T.RotateLeft, T.FixLeft;
    Look(n, s);
    Look(n.right, s.right);
    x, s' := n, s;
    if IsRed(n.right) {
      x, s' := RotateLeft(n, s);
    }
    x, s' := FixLeft(x, s');
  }

  method MoveRedLeft(n: RBNode, ghost s: Shape) returns (x: RBNode, ghost s': Shape)
    requires Holds(n, s) && s.right.At?
    modifies Nodes(s)
    ensures Holds(x, s') && Nodes(s') == Nodes(s)
    ensures Value(s') == T.MoveRedLeft(old(Value(s)))
  {
    hide Holds, Value, Nodes, T.RotateLeft, T.RotateRight, T.FlipColor;
    x, s' := n, s;
    FlipColor(n, s);
    Look(n, s);
    Look(n.right, s.right);
    Look(n.right.left, s.right.left);
    if IsRed(n.right.left) {
      var r;
      ghost var sr;
      r, sr := RotateRight(n.right, s.right);
      n.right := r;
      Look(r, sr);
      Build(n, s.left, sr);
      s' := At(n, s.left, sr);
      x, s' := RotateLeft(n, s');
      FlipColor(x, s');
    }
  }

  method MoveRedRight(n: RBNode, ghost s: Shape) returns (x: RBNode, ghost s': Shape)
    requires Holds(n, s) && s.left.At?
    modifies Nodes(s)
    ensures Holds(x, s') && Nodes(s') == Nodes(s)
    ensures Value(s') == T.MoveRedRight(old(Value(s)))
  {
    hide Holds, Value, Nodes, T.RotateRight, T.FlipColor;
    x, s' := n, s;
    FlipColor(n, s);
    Look(n, s);
    Look(n.left, s.left);
    Look(n.left.left, s.left.left);
    if IsRed(n.left.left) {
      x, s' := RotateRight(n, s);
      FlipColor(x, s');
    }
  }

  /** n.left.reset(...) with the laid-out tree l. */
  method SetLeft(n: RBNode, l: RBNode?, ghost sl: Shape, ghost sr: Shape) returns (ghost s': Shape)
    requires Holds(l, sl) && Holds(n.right, sr) && n !in Nodes(sl) && n !in Nodes(sr) && Nodes(sl) !! Nodes(sr)
    modifies n
    ensures Holds(n, s') && Nodes(s') == Nodes(sl) + {n} + Nodes(sr)
    ensures Value(s') == T.Node(old(n.color), old(Value(sl)), old(n.key), old(Value(sr)))
  {
    hide Holds, Value, Nodes;
    n.left := l;
    Build(n, sl, sr);
    s' := At(n, sl, sr);
  }

  method SetRight(n: RBNode, r: RBNode?, ghost sl: Shape, ghost sr: Shape) returns (ghost s': Shape)
    requires Holds(n.left, sl) && Holds(r, sr) && n !in Nodes(sl) && n !in Nodes(sr) && Nodes(sl) !! Nodes(sr)
    modifies n
    ensures Holds(n, s') && Nodes(s') == Nodes(sl) + {n} + Nodes(sr)
    ensures Value(s') == T.Node(old(n.color), old(Value(sl)), old(n.key), old(Value(sr)))
  {
    hide Holds, Value, Nodes;
    n.right := r;
    Build(n, sl, sr);
    s' := At(n, sl, sr);
  }

  method Insert(n: RBNode?, t: int, ghost s: Shape) returns (x: RBNode, ghost s': Shape)
    requires Holds(n, s)
    modifies Nodes(s)
    ensures Holds(x, s') && fresh(Nodes(s') - Nodes(s))
    ensures Value(s') == T.Insert(old(Value(s)), t)
    decreases s
  {
    hide Holds, Value, Nodes, T.InsertFix;
    Look(n, s);
    if n == null {
      x := new RBNode(t);
      s' := At(x, Nil, Nil);
      NewLeaf(x);
      return;
    }
    x, s' := n, s;
    if n.key == t {
    } else if n.key > t {
      var l;
      ghost var sl;
      l, sl := Insert(n.left, t, s.left);
      s' := SetLeft(n, l, sl, s.right);
    } else {
      var r;
      ghost var sr;
      r, sr := Insert(n.right, t, s.right);
      s' := SetRight(n, r, s.left, sr);
    }
    x, s' := InsertFix(x, s');
  }

  lemma NewLeaf(x: RBNode)
    requires x.left == null && x.right == null
    ensures Holds(x, At(x, Nil, Nil)) && Value(At(x, Nil, Nil)) == T.Node(x.color, T.Leaf, x.key, T.Leaf)
    ensures Nodes(At(x, Nil, Nil)) == {x}
  {
  }

  /** The three tests at the end of insert. */
  method InsertFix(n: RBNode, ghost s: Shape) returns (x: RBNode, ghost s': Shape)
    requires Holds(n, s)
    modifies Nodes(s)
    ensures Holds(x, s') && Nodes(s') == Nodes(s)
    ensures Value(s') == T.InsertFix(old(Value(s)))
  {
    hide Holds, Value, Nodes, T.RotateLeft, T.FixLeft;
    Look(n, s);
    Look(n.left, s.left);
    Look(n.right, s.right);
    x, s' := n, s;
    if IsRed(n.right) && !IsRed(n.left) {
      x, s' := RotateLeft(n, s);
    }
    x, s' := FixLeft(x, s');
  }

  method Contains(n: RBNode, t: int, ghost s: Shape) returns (found: bool)
    requires Holds(n, s)
    ensures found == T.Contains(Value(s), t)
    decreases s
  {
    hide Holds, Value, Nodes;
    Look(n, s);
    Look(n.left, s.left);
    Look(n.right, s.right);
    if t == n.key {
      return true;
    }
    if t < n.key {
      if n.left == null { return false; }
      found := Contains(n.left, t, s.left);
    } else {
      if n.right == null { return false; }
      found := Contains(n.right, t, s.right);
    }
  }

  method LeftmostKey(n: RBNode, ghost s: Shape) returns (k: int)
    requires Holds(n, s)
    ensures k == T.LeftmostKey(Value(s))
    decreases s
  {
    hide Holds, Value, Nodes;
    Look(n, s);
    Look(n.left, s.left);
    if n.left == null {
      return n.key;
    }
    k := LeftmostKey(n.left, s.left);
  }

  method RightmostKey(n: RBNode, ghost s: Shape) returns (k: int)
    requires Holds(n, s)
    ensures k == T.RightmostKey(Value(s))
    decreases s
  {
    hide Holds, Value, Nodes;
    Look(n, s);
    Look(n.right, s.right);
    if n.right == null {
      return n.key;
    }
    k := RightmostKey(n.right, s.right);
  }

  /** The conditional move_red_left of remove_min and remove. */
  method PushLeft(n: RBNode, ghost s: Shape) returns (x: RBNode, ghost s': Shape)
    requires Holds(n, s) && T.Proper(Value(s)) && s.left.At?
    modifies Nodes(s)
    ensures Holds(x, s') && Nodes(s') == Nodes(s)
    ensures old(Value(s).left.Node?) && Value(s') == T.PushLeft(old(Value(s)))
  {
    hide Holds, Value, Nodes, T.MoveRedLeft, T.Proper;
    Look(n, s);
    Look(n.left, s.left);
    Look(n.left.left, s.left.left);
    x, s' := n, s;
    if !IsRed(n.left) && !IsRed(n.left.left) {
      T.MoveRedLeftShape(Value(s));
      x, s' := MoveRedLeft(n, s);
    }
  }

  method RemoveMin(n: RBNode, ghost s: Shape) returns (x: RBNode?, ghost s': Shape)
    requires Holds(n, s) && T.Proper(Value(s))
    modifies Nodes(s)
    ensures Holds(x, s') && Nodes(s') <= Nodes(s)
    ensures Value(s') == T.RemoveMin(old(Value(s)))
    decreases T.Size(Value(s))
  {
    hide Holds, Value, Nodes, T.PushLeft, T.Proper;
    Look(n, s);
    Look(n.left, s.left);
    if n.left == null {
      x, s' := null, Nil;
      NoNodes();
      return;
    }
    T.PushLeftShape(Value(s));
    var y;
    y, s' := PushLeft(n, s);
    Look(y, s');
    Look(y.left, s'.left);
    var l;
    ghost var sl;
    l, sl := RemoveMin(y.left, s'.left);
    s' := SetLeft(y, l, sl, s'.right);
    x, s' := FixUp(y, s');
  }

  lemma NoNodes()
    ensures Holds(null, Nil) && Value(Nil) == T.Leaf && Nodes(Nil) == {}
  {
  }

  /** The conditional rotation at the start of remove_max and of remove's right branch. */
  method LeanRight(n: RBNode, ghost s: Shape) returns (x: RBNode, ghost s': Shape)
    requires Holds(n, s)
    modifies Nodes(s)
    ensures Holds(x, s') && Nodes(s') == Nodes(s)
    ensures Value(s') == T.LeanRight(old(Value(s)))
  {
    hide Holds, Value, Nodes, T.RotateRight;
    Look(n, s);
    Look(n.left, s.left);
    x, s' := n, s;
    if IsRed(n.left) {
      x, s' := RotateRight(n, s);
    }
  }

  /** The conditional move_red_right. */
  method PushRight(n: RBNode, ghost s: Shape) returns (x: RBNode, ghost s': Shape)
    requires Holds(n, s) && s.right.At? && T.ProperBelow(Value(s)) && !T.IsRed(Value(s).left)
    requires !T.IsRed(Value(s).right) ==> T.Proper(Value(s))
    modifies Nodes(s)
    ensures Holds(x, s') && Nodes(s') == Nodes(s)
    ensures Value(s') == T.PushRight(old(Value(s)))
  {
    hide Holds, Value, Nodes, T.MoveRedRight, T.Proper;
    Look(n, s);
    Look(n.right, s.right);
    Look(n.right.left, s.right.left);
    x, s' := n, s;
    if !IsRed(n.right) && !IsRed(n.right.left) {
      T.MoveRedRightShape(Value(s));
      x, s' := MoveRedRight(n, s);
    }
  }

  method RemoveMax(n: RBNode, ghost s: Shape) returns (x: RBNode?, ghost s': Shape)
    requires Holds(n, s) && T.Enterable(Value(s))
    modifies Nodes(s)
    ensures Holds(x, s') && Nodes(s') <= Nodes(s)
    ensures Value(s') == T.RemoveMax(old(Value(s)))
    decreases T.Size(Value(s))
  {
    hide Holds, Value, Nodes, T.LeanRight, T.PushRight, T.Proper, T.Enterable, T.ProperBelow;
    T.LeanRightShape(Value(s));
    var y;
    ghost var v := Value(s);
    y, s' := LeanRight(n, s);
    Look(y, s');
    Look(y.right, s'.right);
    if y.right == null {
      x, s' := null, Nil;
      NoNodes();
      return;
    }
    T.PushRightShape(v);
    y, s' := PushRight(y, s');
    Look(y, s');
    Look(y.right, s'.right);
    var r;
    ghost var sr;
    r, sr := RemoveMax(y.right, s'.right);
    s' := SetRight(y, r, s'.left, sr);
    x, s' := FixUp(y, s');
  }

  method Remove(n: RBNode, t: int, ghost s: Shape) returns (x: RBNode?, ghost s': Shape)
    requires Holds(n, s) && T.MayRemove(Value(s), t)
    modifies Nodes(s)
    ensures Holds(x, s') && Nodes(s') <= Nodes(s)
    ensures Value(s') == T.Remove(old(Value(s)), t)
    decreases T.Size(Value(s)), 0
  {
    hide Holds, Value, Nodes, T.PushLeft, T.LeanRight, T.PushRight, T.MayRemove, T.Proper, T.ProperBelow, T.FixUp,
      T.Keys, T.Ordered;
    ghost var v := Value(s);
    var y;
    Look(n, s);
    if t < n.key {
      T.EntersLeft(v, t);
      y, s' := PushLeft(n, s);
      Look(y, s');
      Look(y.left, s'.left);
      var l;
      ghost var sl;
      l, sl := Remove(y.left, t, s'.left);
      s' := SetLeft(y, l, sl, s'.right);
    } else {
      T.EntersRight(v, t);
      y, s' := LeanRight(n, s);
      Look(y, s');
      Look(y.right, s'.right);
      if t == y.key && y.right == null {
        x, s' := null, Nil;
        NoNodes();
        return;
      }
      y, s' := PushRight(y, s');
      s' := RemoveBelow(y, t, s');
    }
    x, s' := FixUp(y, s');
  }

  /** The end of remove's right branch: the key found here is replaced by its successor, any
      other is removed from the right subtree. */
  method RemoveBelow(n: RBNode, t: int, ghost s: Shape) returns (ghost s': Shape)
    requires Holds(n, s) && T.Ready(Value(s).right)
    requires if Value(s).key == t then T.Proper(Value(s).right) else T.MayRemove(Value(s).right, t)
    modifies Nodes(s)
    ensures Holds(n, s') && Nodes(s') <= Nodes(s)
    ensures var v := old(Value(s));
            Value(s') == if v.key == t then v.(key := T.LeftmostKey(v.right), right := T.RemoveMin(v.right))
                         else v.(right := T.Remove(v.right, t))
    decreases T.Size(Value(s).right), 1
  {
    hide Holds, Value, Nodes, T.MayRemove, T.Proper, T.Remove, T.RemoveMin;
    Look(n, s);
    Look(n.right, s.right);
    var r;
    ghost var sr;
    if t == n.key {
      n.key := LeftmostKey(n.right, s.right);
      r, sr := RemoveMin(n.right, s.right);
    } else {
      r, sr := Remove(n.right, t, s.right);
    }
    s' := SetRight(n, r, s.left, sr);
  }
}
