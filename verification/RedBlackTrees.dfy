/** Left-leaning red-black trees as values: what the in-place operations compute. */
module RedBlackTrees {
  import opened Powers


  datatype Color = Red | Black

  datatype Tree = Leaf | Node(color: Color, left: Tree, key: int, right: Tree)

  predicate IsRed(t: Tree) { t.Node? && t.color == Red }

  function Opposite(c: Color): Color { if c == Red then Black else Red }

  function Inverted(t: Tree): Tree { if t.Leaf? then t else t.(color := Opposite(t.color)) }

  function Blacken(t: Tree): Tree { if t.Leaf? then t else t.(color := Black) }

  ghost function Keys(t: Tree): set<int> {
    if t.Leaf? then {} else Keys(t.left) + {t.key} + Keys(t.right)
  }

  function Size(t: Tree): nat {
    if t.Leaf? then 0 else Size(t.left) + 1 + Size(t.right)
  }

  ghost predicate Ordered(t: Tree) {
    t.Node? ==>
      && Ordered(t.left) && Ordered(t.right)
      && (forall k :: k in Keys(t.left) ==> k < t.key)
      && forall k :: k in Keys(t.right) ==> t.key < k
  }

  /** Black nodes on the leftmost path. */
  function BlackHeight(t: Tree): nat {
    if t.Leaf? then 0 else BlackHeight(t.left) + if t.color == Black then 1 else 0
  }

  /** Equal black height everywhere, no red right child, no two reds in a row. */
  ghost predicate Proper(t: Tree) {
    t.Node? ==>
      && Proper(t.left) && Proper(t.right)
      && BlackHeight(t.left) == BlackHeight(t.right)
      && !IsRed(t.right) && (t.color == Red ==> !IsRed(t.left))
  }

  /** Proper children of equal black height under a root of any colour. */
  ghost predicate ProperBelow(t: Tree) {
    t.Node? && Proper(t.left) && Proper(t.right) && BlackHeight(t.left) == BlackHeight(t.right)
  }

  // The local operations.

  function RotateRight(n: Tree): Tree
    requires n.Node? && n.left.Node?
  {
    Node(n.color, n.left.left, n.left.key, Node(Red, n.left.right, n.key, n.right))
  }

  function RotateLeft(n: Tree): Tree
    requires n.Node? && n.right.Node?
  {
    Node(n.color, Node(Red, n.left, n.key, n.right.left), n.right.key, n.right.right)
  }

  function FlipColor(n: Tree): Tree
    requires n.Node?
  {
    Node(Opposite(n.color), Inverted(n.left), n.key, Inverted(n.right))
  }

  function FixLeft(n: Tree): Tree
    requires n.Node?
  {
    var m := if IsRed(n.left) && IsRed(n.left.left) then RotateRight(n) else n;
    if IsRed(m.left) && IsRed(m.right) then FlipColor(m) else m
  }

  function FixUp(n: Tree): Tree
    requires n.Node?
  {
    FixLeft(if IsRed(n.right) then RotateLeft(n) else n)
  }

  function MoveRedLeft(n: Tree): Tree
    requires n.Node? && n.right.Node?
  {
    var m := FlipColor(n);
    if IsRed(m.right.left) then FlipColor(RotateLeft(m.(right := RotateRight(m.right)))) else m
  }

  function MoveRedRight(n: Tree): Tree
    requires n.Node? && n.left.Node?
  {
    var m := FlipColor(n);
    if IsRed(m.left.left) then FlipColor(RotateRight(m)) else m
  }

  /** Same keys, in the same order. */
  ghost predicate SameKeys(a: Tree, b: Tree) {
    Size(a) == Size(b) && Keys(a) == Keys(b) && (Ordered(a) ==> Ordered(b))
  }

  lemma RotateRightKeys(n: Tree)
    requires n.Node? && n.left.Node?
    ensures SameKeys(n, RotateRight(n))
  {
    var x := n.left;
    var m := Node(Red, x.right, n.key, n.right);
    assert Keys(x) == Keys(x.left) + {x.key} + Keys(x.right);
    assert Keys(m) == Keys(x.right) + {n.key} + Keys(n.right);
    if Ordered(n) {
      assert Ordered(x) && x.key in Keys(x);
      assert Ordered(m);
    }
  }

  lemma RotateLeftKeys(n: Tree)
    requires n.Node? && n.right.Node?
    ensures SameKeys(n, RotateLeft(n))
  {
    var x := n.right;
    var m := Node(Red, n.left, n.key, x.left);
    assert Keys(x) == Keys(x.left) + {x.key} + Keys(x.right);
    assert Keys(m) == Keys(n.left) + {n.key} + Keys(x.left);
    if Ordered(n) {
      assert Ordered(x) && x.key in Keys(x);
      assert Ordered(m);
    }
  }

  lemma FlipColorKeys(n: Tree)
    requires n.Node?
    ensures SameKeys(n, FlipColor(n))
  {
    ReplacedChildren(n, Opposite(n.color), Inverted(n.left), Inverted(n.right));
  }

  /** Only the keys below a node and their order matter to the node. */
  lemma ReplacedChildren(n: Tree, c: Color, l: Tree, r: Tree)
    requires n.Node? && SameKeys(n.left, l) && SameKeys(n.right, r)
    ensures SameKeys(n, Node(c, l, n.key, r))
  {
  }

  lemma FixUpKeys(n: Tree)
    requires n.Node?
    ensures FixUp(n).Node? && SameKeys(n, FixUp(n))
  {
    hide Size, Keys, Ordered;
    if IsRed(n.right) {
      RotateLeftKeys(n);
      FixLeftKeys(RotateLeft(n));
    } else {
      FixLeftKeys(n);
    }
  }

  lemma FixLeftKeys(n: Tree)
    requires n.Node?
    ensures FixLeft(n).Node? && SameKeys(n, FixLeft(n))
  {
    hide Size, Keys, Ordered;
    var m := n;
    if IsRed(n.left) && IsRed(n.left.left) { RotateRightKeys(n); m := RotateRight(n); }
    FlipColorKeys(m);
  }

  lemma MoveRedLeftKeys(n: Tree)
    requires n.Node? && n.right.Node?
    ensures SameKeys(n, MoveRedLeft(n))
  {
    hide Size, Keys, Ordered;
    var m := FlipColor(n);
    FlipColorKeys(n);
    if IsRed(m.right.left) {
      RotateRightKeys(m.right);
      ReplacedChildren(m, m.color, m.left, RotateRight(m.right));
      var m' := m.(right := RotateRight(m.right));
      RotateLeftKeys(m');
      FlipColorKeys(RotateLeft(m'));
    }
  }

  lemma MoveRedRightKeys(n: Tree)
    requires n.Node? && n.left.Node?
    ensures SameKeys(n, MoveRedRight(n))
  {
    hide Size, Keys, Ordered;
    var m := FlipColor(n);
    FlipColorKeys(n);
    if IsRed(m.left.left) {
      RotateRightKeys(m);
      FlipColorKeys(RotateRight(m));
    }
  }

  // The balance each of them restores.

  /** fix_up over proper children: proper again under a black root, and under a red root up
      to the root's colour. */
  lemma FixUpBalance(n: Tree)
    requires ProperBelow(n)
    ensures Proper(Blacken(FixUp(n)))
    ensures n.color == Black ==> Proper(FixUp(n)) && BlackHeight(FixUp(n)) == BlackHeight(n)
    ensures n.color == Black && !(IsRed(n.left) && IsRed(n.right)) ==> !IsRed(FixUp(n))
    ensures !IsRed(n.right) && (n.color == Red ==> !IsRed(n.left)) ==> FixUp(n) == n
  {
  }

  /** move_red_left at a node whose left child and left grandchild are black: a child of the
      right sibling moves over if there is one to spare, else the three nodes merge. */
  lemma MoveRedLeftShape(n: Tree)
    requires n.Node? && Proper(n) && n.left.Node? && !IsRed(n.left) && !IsRed(n.left.left)
    ensures n.right.Node? && ProperBelow(MoveRedLeft(n)) && MoveRedLeft(n).left.Node?
    ensures var m := MoveRedLeft(n);
            if IsRed(n.right.left) then
              && m.color == n.color && !IsRed(m.left) && IsRed(m.left.left) && !IsRed(m.right)
              && BlackHeight(m.left) == BlackHeight(n.left)
            else
              m.color != n.color && IsRed(m.left) && IsRed(m.right) && BlackHeight(m.left) + 1 == BlackHeight(n.left)
  {
    var l, r := n.left, n.right;
    assert Proper(l) && Proper(r) && r.Node? && Proper(r.left) && Proper(r.right);
    if IsRed(r.left) {
      assert MoveRedLeft(n)
        == Node(n.color, Node(Black, Inverted(l), n.key, r.left.left), r.left.key,
        Node(Black, r.left.right, r.key, r.right));
    } else {
      assert MoveRedLeft(n) == Node(Opposite(n.color), Inverted(l), n.key, Inverted(r));
    }
  }

  /** A black node that leans right, which removal meets below move_red_right. */
  ghost predicate LeansRight(t: Tree) {
    ProperBelow(t) && t.color == Black && !IsRed(t.left) && IsRed(t.right)
  }

  lemma MoveRedRightShape(n: Tree)
    requires n.Node? && Proper(n) && !IsRed(n.left) && n.right.Node? && !IsRed(n.right.left)
    ensures n.left.Node?
    ensures var m := MoveRedRight(n);
            && m.Node? && m.right.Node? && Proper(m.left)
            && if IsRed(n.left.left) then
                 && m.color == n.color && m.key == n.left.key && m.right.key == n.key && !IsRed(m.left)
                   && LeansRight(m.right)
                 && BlackHeight(m.left) == BlackHeight(m.right) == BlackHeight(n.left)
               else
                 && m.color != n.color && m.key == n.key && IsRed(m.left) && IsRed(m.right) && Proper(m.right)
                 && BlackHeight(m.left) == BlackHeight(m.right) && BlackHeight(m.left) + 1 == BlackHeight(n.left)
  {
    var l, r := n.left, n.right;
    assert Proper(l) && Proper(r) && l.Node? && Proper(l.left) && Proper(l.right);
    if IsRed(l.left) {
      assert MoveRedRight(n) == Node(n.color, Inverted(l.left), l.key, Node(Black, l.right, n.key, Inverted(r)));
    } else {
      assert MoveRedRight(n) == Node(Opposite(n.color), Inverted(l), n.key, Inverted(r));
    }
  }

  // Insertion.

  /** The three tests at the end of insert. */
  function InsertFix(n: Tree): Tree
    requires n.Node?
  {
    FixLeft(if IsRed(n.right) && !IsRed(n.left) then RotateLeft(n) else n)
  }

  function Insert(n: Tree, k: int): Tree {
    if n.Leaf? then Node(Red, Leaf, k, Leaf)
    else if n.key == k then InsertFix(n)
    else if n.key > k then InsertFix(n.(left := Insert(n.left, k)))
    else InsertFix(n.(right := Insert(n.right, k)))
  }

  lemma InsertFixBalance(n: Tree)
    requires n.Node? && BlackHeight(n.left) == BlackHeight(n.right)
    requires Proper(Blacken(n.left)) && Proper(n.right) && (n.color == Red ==> Proper(n.left))
    requires IsRed(n.left) && IsRed(n.right) ==> n.color == Black && Proper(n.left)
    ensures InsertFix(n).Node? && Proper(Blacken(InsertFix(n))) && BlackHeight(InsertFix(n)) == BlackHeight(n)
    ensures n.color == Black ==> Proper(InsertFix(n))
  {
  }

  lemma InsertFixKeys(n: Tree)
    requires n.Node?
    ensures SameKeys(n, InsertFix(n))
  {
    hide Size, Keys, Ordered;
    if IsRed(n.right) && !IsRed(n.left) {
      RotateLeftKeys(n);
      FixLeftKeys(RotateLeft(n));
    } else {
      FixLeftKeys(n);
    }
  }

  /** Insertion keeps the black height; only a red node may come back with a red left child. */
  lemma {:induction false} InsertBalance(n: Tree, k: int)
    requires Proper(n)
    ensures Insert(n, k).Node? && Proper(Blacken(Insert(n, k))) && BlackHeight(Insert(n, k)) == BlackHeight(n)
    ensures !IsRed(n) ==> Proper(Insert(n, k))
  {
    hide InsertFix;
    if n.Node? {
      if n.key > k { InsertBalance(n.left, k); }
      if n.key < k { InsertBalance(n.right, k); }
      var m := if n.key > k then n.(left := Insert(n.left, k)) else if n.key < k then n.(right := Insert(n.right, k))
        else n;
      InsertFixBalance(m);
    }
  }

  lemma {:induction false} InsertKeys(n: Tree, k: int)
    requires Ordered(n)
    ensures Keys(Insert(n, k)) == Keys(n) + {k} && Ordered(Insert(n, k))
  {
    hide InsertFix;
    if n.Node? {
      if n.key > k { InsertKeys(n.left, k); }
      if n.key < k { InsertKeys(n.right, k); }
      var m := if n.key > k then n.(left := Insert(n.left, k)) else if n.key < k then n.(right := Insert(n.right, k))
        else n;
      assert Ordered(m) && Keys(m) == Keys(n) + {k};
      InsertFixKeys(m);
    }
  }

  // Lookup.

  predicate Contains(t: Tree, k: int)
    requires t.Node?
  {
    if k == t.key then true
    else if k < t.key then t.left.Node? && Contains(t.left, k)
    else t.right.Node? && Contains(t.right, k)
  }

  lemma {:induction false} ContainsIsMembership(t: Tree, k: int)
    requires t.Node? && Ordered(t)
    ensures Contains(t, k) <==> k in Keys(t)
  {
    if t.left.Node? { ContainsIsMembership(t.left, k); }
    if t.right.Node? { ContainsIsMembership(t.right, k); }
  }

  function LeftmostKey(t: Tree): int
    requires t.Node?
  {
    if t.left.Leaf? then t.key else LeftmostKey(t.left)
  }

  function RightmostKey(t: Tree): int
    requires t.Node?
  {
    if t.right.Leaf? then t.key else RightmostKey(t.right)
  }

  lemma {:induction false} LeftmostIsLeast(t: Tree)
    requires t.Node? && Ordered(t)
    ensures LeftmostKey(t) in Keys(t) && forall k :: k in Keys(t) ==> LeftmostKey(t) <= k
  {
    if t.left.Node? { LeftmostIsLeast(t.left); }
  }

  lemma {:induction false} RightmostIsGreatest(t: Tree)
    requires t.Node? && Ordered(t)
    ensures RightmostKey(t) in Keys(t) && forall k :: k in Keys(t) ==> k <= RightmostKey(t)
  {
    if t.right.Node? { RightmostIsGreatest(t.right); }
  }

  // Removal. Each function enters a node that is red or has a red child, except at the root.

  ghost predicate Ready(n: Tree) {
    n.Node? && (IsRed(n) || IsRed(n.left) || IsRed(n.right))
  }

  /** What removal promises of its result r: balance as before where the node was ready, and
      balance up to the root's colour at the root. */
  ghost predicate Rebalanced(n: Tree, r: Tree) {
    && Proper(Blacken(r))
    && (Ready(n) ==> Proper(r) && BlackHeight(r) == BlackHeight(n) && (!IsRed(n) ==> !IsRed(r)))
  }

  /** The left child is a node that removal may enter. */
  function PushLeft(n: Tree): Tree
    requires n.Node? && n.left.Node? && Proper(n)
  {
    if !IsRed(n.left) && !IsRed(n.left.left) then MoveRedLeftShape(n); MoveRedLeft(n) else n
  }

  lemma PushLeftShape(n: Tree)
    requires n.Node? && n.left.Node? && Proper(n)
    ensures PushLeft(n).Node? && Proper(PushLeft(n).left) && Ready(PushLeft(n).left) && SameKeys(n, PushLeft(n))
  {
    hide MoveRedLeft, Keys, Ordered;
    if !IsRed(n.left) && !IsRed(n.left.left) { MoveRedLeftShape(n); MoveRedLeftKeys(n); }
  }

  /** Whatever smaller left subtree comes back, fix_up repairs the node. */
  lemma PushLeftRepaired(n: Tree, l: Tree)
    requires n.Node? && n.left.Node? && Proper(n) && PushLeft(n).Node?
    requires Rebalanced(PushLeft(n).left, l) && Ready(PushLeft(n).left)
    ensures Rebalanced(n, FixUp(PushLeft(n).(left := l)))
  {
    hide MoveRedLeft, FixUp;
    if !IsRed(n.left) && !IsRed(n.left.left) { MoveRedLeftShape(n); }
    FixUpBalance(PushLeft(n).(left := l));
  }

  function RemoveMin(n: Tree): Tree
    requires n.Node? && Proper(n)
    decreases Size(n)
  {
    if n.left.Leaf? then Leaf
    else
      PushLeftShape(n);
      var m := PushLeft(n);
      FixUp(m.(left := RemoveMin(m.left)))
  }

  lemma {:induction false} RemoveMinBalance(n: Tree)
    requires n.Node? && Proper(n)
    ensures Rebalanced(n, RemoveMin(n))
    decreases Size(n)
  {
    hide PushLeft, FixUp;
    if n.left.Node? {
      PushLeftShape(n);
      var m := PushLeft(n);
      RemoveMinBalance(m.left);
      PushLeftRepaired(n, RemoveMin(m.left));
    }
  }

  lemma {:induction false} RemoveMinKeys(n: Tree)
    requires n.Node? && Proper(n) && Ordered(n)
    ensures Ordered(RemoveMin(n)) && Keys(RemoveMin(n)) == Keys(n) - {LeftmostKey(n)}
    decreases Size(n)
  {
    hide PushLeft, FixUp;
    if n.left.Node? {
      PushLeftShape(n);
      var m := PushLeft(n);
      RemoveMinKeys(m.left);
      LeftmostIsLeast(n);
      LeftmostIsLeast(m.left);
      assert LeftmostKey(m.left) in Keys(m) && LeftmostKey(n) in Keys(m);
      assert LeftmostKey(m.left) == LeftmostKey(n) < m.key;
      RemovedLeft(n, m, RemoveMin(m.left), LeftmostKey(n));
    }
  }

  /** A key gone from the left subtree is gone from the node. */
  lemma RemovedLeft(n: Tree, m: Tree, l: Tree, k: int)
    requires Ordered(n) && m.Node? && SameKeys(n, m) && k < m.key
    requires Ordered(l) && Keys(l) == Keys(m.left) - {k}
    ensures Ordered(FixUp(m.(left := l))) && Keys(FixUp(m.(left := l))) == Keys(n) - {k}
  {
    hide FixUp;
    var m' := m.(left := l);
    assert k !in Keys(m.right);
    assert Keys(m') == Keys(l) + {m.key} + Keys(m.right) && Keys(m) == Keys(m.left) + {m.key} + Keys(m.right);
    assert Ordered(m');
    FixUpKeys(m');
  }

  /** What removal towards the right may enter. */
  ghost predicate Enterable(n: Tree) {
    n.Node? && (Proper(n) || LeansRight(n))
  }

  /** A red left child moves to the right. */
  function LeanRight(n: Tree): Tree
    requires n.Node?
  {
    if IsRed(n.left) then RotateRight(n) else n
  }

  lemma LeanRightShape(n: Tree)
    requires Enterable(n)
    ensures ProperBelow(LeanRight(n)) && LeanRight(n).color == n.color && !IsRed(LeanRight(n).left)
    ensures BlackHeight(LeanRight(n)) == BlackHeight(n) && SameKeys(n, LeanRight(n))
    ensures !IsRed(LeanRight(n).right) ==> LeanRight(n) == n && Proper(n)
    ensures LeanRight(n).right.Leaf? ==> n.left.Leaf?
    ensures !IsRed(n.left) ==> LeanRight(n) == n
    ensures Ordered(n) ==> LeanRight(n).key <= n.key
  {
    if IsRed(n.left) {
      LeanRightBalance(n);
      LeanRightKey(n);
      RotateRightKeys(n);
    }
  }

  lemma LeanRightKey(n: Tree)
    requires n.Node? && n.left.Node?
    ensures Ordered(n) ==> RotateRight(n).key < n.key
  {
    assert n.left.key in Keys(n.left);
  }

  lemma LeanRightBalance(n: Tree)
    requires n.Node? && Proper(n) && IsRed(n.left)
    ensures var m := RotateRight(n);
      ProperBelow(m) && m.color == n.color && !IsRed(m.left) && IsRed(m.right) && BlackHeight(m) == BlackHeight(n)
  {
    assert Proper(n.left) && Proper(n.left.right);
  }

  /** The right child is a node that removal may enter. */
  function PushRight(m: Tree): Tree
    requires m.Node? && m.right.Node? && ProperBelow(m) && !IsRed(m.left) && (!IsRed(m.right) ==> Proper(m))
  {
    if !IsRed(m.right) && !IsRed(m.right.left) then MoveRedRightShape(m); MoveRedRight(m) else m
  }

  lemma PushRightShape(n: Tree)
    requires Enterable(n) && LeanRight(n).right.Node?
    ensures var m := LeanRight(n); ProperBelow(m) && !IsRed(m.left) && (!IsRed(m.right) ==> Proper(m))
    ensures var m := PushRight(LeanRight(n));
            m.Node? && Enterable(m.right) && Ready(m.right) && SameKeys(n, m)
              && (LeansRight(m.right) ==> m.right.key == n.key)
  {
    hide MoveRedRight, Size, Keys, Ordered, RotateRight;
    LeanRightShape(n);
    var m := LeanRight(n);
    if !IsRed(m.right) && !IsRed(m.right.left) { MoveRedRightShape(m); MoveRedRightKeys(m); }
  }

  lemma PushRightRepaired(n: Tree, r: Tree)
    requires Enterable(n) && LeanRight(n).right.Node?
    requires var m := LeanRight(n); ProperBelow(m) && !IsRed(m.left) && (!IsRed(m.right) ==> Proper(m))
    requires var m := PushRight(LeanRight(n)); m.Node? && Ready(m.right) && Rebalanced(m.right, r)
    ensures forall k :: Rebalanced(n, FixUp(PushRight(LeanRight(n)).(right := r, key := k)))
  {
    hide MoveRedRight, FixUp, LeanRight;
    LeanRightShape(n);
    var m := LeanRight(n);
    if !IsRed(m.right) && !IsRed(m.right.left) { MoveRedRightShape(m); }
    forall k ensures Rebalanced(n, FixUp(PushRight(LeanRight(n)).(right := r, key := k))) {
      FixUpBalance(PushRight(m).(right := r, key := k));
    }
  }

  function RemoveMax(n: Tree): Tree
    requires Enterable(n)
    decreases Size(n)
  {
    LeanRightShape(n);
    var m := LeanRight(n);
    if m.right.Leaf? then Leaf
    else
      PushRightShape(n);
      var p := PushRight(m);
      FixUp(p.(right := RemoveMax(p.right)))
  }

  lemma {:induction false} RemoveMaxBalance(n: Tree)
    requires Enterable(n)
    ensures Rebalanced(n, RemoveMax(n))
    decreases Size(n)
  {
    hide PushRight, FixUp, LeanRight;
    LeanRightShape(n);
    if LeanRight(n).right.Node? {
      PushRightShape(n);
      var p := PushRight(LeanRight(n));
      RemoveMaxBalance(p.right);
      PushRightRepaired(n, RemoveMax(p.right));
      assert p.(right := RemoveMax(p.right)) == p.(right := RemoveMax(p.right), key := p.key);
    }
  }

  lemma SameGreatest(a: Tree, b: Tree)
    requires a.Node? && b.Node? && Ordered(a) && SameKeys(a, b) && b.right.Node?
    ensures b.key < RightmostKey(b.right) == RightmostKey(a)
  {
    RightmostIsGreatest(a);
    RightmostIsGreatest(b);
    RightmostIsGreatest(b.right);
  }

  lemma {:induction false} RemoveMaxKeys(n: Tree)
    requires Enterable(n) && Ordered(n)
    ensures Ordered(RemoveMax(n)) && Keys(RemoveMax(n)) == Keys(n) - {RightmostKey(n)}
    decreases Size(n)
  {
    hide PushRight, FixUp, LeanRight;
    LeanRightShape(n);
    RightmostIsGreatest(n);
    if LeanRight(n).right.Node? {
      PushRightShape(n);
      var p := PushRight(LeanRight(n));
      RemoveMaxKeys(p.right);
      SameGreatest(n, p);
      RemovedRight(n, p, RemoveMax(p.right), RightmostKey(n));
    }
  }

  lemma RemovedRight(n: Tree, m: Tree, r: Tree, k: int)
    requires Ordered(n) && m.Node? && SameKeys(n, m) && m.key < k
    requires Ordered(r) && Keys(r) == Keys(m.right) - {k}
    ensures Ordered(FixUp(m.(right := r))) && Keys(FixUp(m.(right := r))) == Keys(n) - {k}
  {
    hide FixUp;
    var m' := m.(right := r);
    assert k !in Keys(m.left);
    assert Keys(m') == Keys(m.left) + {m.key} + Keys(r) && Keys(m) == Keys(m.left) + {m.key} + Keys(m.right);
    assert Ordered(m');
    FixUpKeys(m');
  }

  /** A node that leans right is only entered for a key that is not to its left. */
  ghost predicate MayRemove(n: Tree, t: int) {
    Enterable(n) && Ordered(n) && t in Keys(n) && (LeansRight(n) ==> n.key <= t)
  }

  lemma EntersLeft(n: Tree, t: int)
    requires MayRemove(n, t) && t < n.key
    ensures n.left.Node? && Proper(n)
    ensures var m := PushLeft(n);
      m.Node? && MayRemove(m.left, t) && Ready(m.left) && Size(m.left) < Size(n) && SameKeys(n, m) && t < m.key
  {
    hide PushLeft;
    assert t in Keys(n.left);
    PushLeftShape(n);
    PushLeftKey(n);
    var m := PushLeft(n);
    assert t in Keys(m);
  }

  lemma PushLeftKey(n: Tree)
    requires n.Node? && n.left.Node? && Proper(n) && Ordered(n)
    ensures n.key <= PushLeft(n).key
  {
    if !IsRed(n.left) && !IsRed(n.left.left) {
      MoveRedLeftShape(n);
      if IsRed(n.right.left) { assert n.right.left.key in Keys(n.right); }
    }
  }

  lemma EntersRight(n: Tree, t: int)
    requires MayRemove(n, t) && n.key <= t
    ensures var m := LeanRight(n);
      ProperBelow(m) && !IsRed(m.left) && (!IsRed(m.right) ==> Proper(m)) && (t != m.key ==> m.right.Node?)
    ensures LeanRight(n).right.Leaf? ==> LeanRight(n).left.Leaf?
    ensures LeanRight(n).right.Node? ==>
      var p := PushRight(LeanRight(n));
      && p.Node? && p.key <= t && SameKeys(n, p) && Size(p.right) < Size(n) && Ready(p.right)
      && if p.key == t then Proper(p.right) else MayRemove(p.right, t)
  {
    hide PushRight, LeanRight, LeansRight;
    LeanRightShape(n);
    var m := LeanRight(n);
    assert t in Keys(m);
    if m.right.Node? {
      PushRightShape(n);
      PushRightKey(n);
      var p := PushRight(m);
      assert p.key <= t && t in Keys(p);
      assert p.key == t ==> p.key == n.key;
      assert Ordered(p) && Keys(p) == Keys(p.left) + {p.key} + Keys(p.right);
      assert p.key != t ==> t in Keys(p.right);
    }
  }

  lemma PushRightKey(n: Tree)
    requires Enterable(n) && LeanRight(n).right.Node? && Ordered(n)
    requires var m := LeanRight(n); ProperBelow(m) && !IsRed(m.left) && (!IsRed(m.right) ==> Proper(m))
    ensures PushRight(LeanRight(n)).Node?
    ensures var p := PushRight(LeanRight(n)); p.key <= n.key && (p.key == n.key ==> !LeansRight(p.right))
  {
    hide RotateRight, MoveRedRight;
    if IsRed(n.left) {
      LeanRightKey(n);
      LeanRightBalance(n);
    } else if !IsRed(n.right) && !IsRed(n.right.left) {
      MoveRedRightShape(n);
      if IsRed(n.left.left) { assert n.left.key in Keys(n.left); }
    }
  }

  function Remove(n: Tree, t: int): Tree
    requires MayRemove(n, t)
    decreases Size(n)
  {
    if t < n.key then
      EntersLeft(n, t);
      var m := PushLeft(n);
      FixUp(m.(left := Remove(m.left, t)))
    else
      EntersRight(n, t);
      var m := LeanRight(n);
      if t == m.key && m.right.Leaf? then Leaf
      else
        var p := PushRight(m);
        if t == p.key then
          FixUp(p.(key := LeftmostKey(p.right), right := RemoveMin(p.right)))
        else
          FixUp(p.(right := Remove(p.right, t)))
  }

  lemma {:induction false} RemoveBalance(n: Tree, t: int)
    requires MayRemove(n, t)
    ensures Rebalanced(n, Remove(n, t))
    decreases Size(n)
  {
    hide PushLeft, PushRight, LeanRight, FixUp, Rebalanced;
    if t < n.key {
      EntersLeft(n, t);
      var m := PushLeft(n);
      RemoveBalance(m.left, t);
      PushLeftRepaired(n, Remove(m.left, t));
    } else {
      EntersRight(n, t);
      LeanRightShape(n);
      var m := LeanRight(n);
      if t == m.key && m.right.Leaf? {
        LastNode(n);
      } else {
        var p := PushRight(m);
        if t == p.key {
          RemoveMinBalance(p.right);
          PushRightRepaired(n, RemoveMin(p.right));
        } else {
          RemoveBalance(p.right, t);
          PushRightRepaired(n, Remove(p.right, t));
          assert p.(right := Remove(p.right, t)) == p.(right := Remove(p.right, t), key := p.key);
        }
      }
    }
  }

  lemma LastNode(n: Tree)
    requires Enterable(n) && LeanRight(n).right.Leaf?
    ensures Rebalanced(n, Leaf)
  {
  }

  lemma {:induction false} RemoveKeys(n: Tree, t: int)
    requires MayRemove(n, t)
    ensures Ordered(Remove(n, t)) && Keys(Remove(n, t)) == Keys(n) - {t}
    decreases Size(n)
  {
    hide PushLeft, PushRight, LeanRight, FixUp, Enterable, LeansRight, Proper, BlackHeight;
    if t < n.key {
      EntersLeft(n, t);
      var m := PushLeft(n);
      RemoveKeys(m.left, t);
      RemovedLeft(n, m, Remove(m.left, t), t);
    } else {
      EntersRight(n, t);
      var m := LeanRight(n);
      if t == m.key && m.right.Leaf? {
        EnterableLast(n);
      } else {
        var p := PushRight(m);
        if t == p.key {
          RemoveMinKeys(p.right);
          LeftmostIsLeast(p.right);
          SuccessorMovedUp(n, p, RemoveMin(p.right));
        } else {
          RemoveKeys(p.right, t);
          RemovedRight(n, p, Remove(p.right, t), t);
        }
      }
    }
  }

  lemma EnterableLast(n: Tree)
    requires Enterable(n) && LeanRight(n).right.Leaf?
    ensures n.left.Leaf? && n.right.Leaf?
  {
  }

  /** The root's key gives way to the least key on its right. */
  lemma SuccessorMovedUp(n: Tree, m: Tree, r: Tree)
    requires Ordered(n) && m.Node? && m.right.Node? && SameKeys(n, m)
    requires var k := LeftmostKey(m.right);
             && Ordered(r) && Keys(r) == Keys(m.right) - {k} && k in Keys(m.right)
             && forall x :: x in Keys(m.right) ==> k <= x
    ensures var m' := m.(key := LeftmostKey(m.right), right := r);
            Ordered(FixUp(m')) && Keys(FixUp(m')) == Keys(n) - {m.key}
  {
    hide FixUp;
    var k := LeftmostKey(m.right);
    var m' := m.(key := k, right := r);
    assert Keys(m') == Keys(m.left) + {k} + Keys(r) && Keys(m) == Keys(m.left) + {m.key} + Keys(m.right);
    assert Ordered(m');
    FixUpKeys(m');
  }

  // The tree operations: the root is made black at the end.

  datatype Op = Add(key: int) | Delete(key: int) | DeleteLeast | DeleteGreatest

  /** What the source asks of the caller: removals find something to remove. */
  ghost predicate Allowed(op: Op, keys: set<int>) {
    match op
    case Add(_) => true
    case Delete(k) => k in keys
    case DeleteLeast => keys != {}
    case DeleteGreatest => keys != {}
  }

  ghost predicate IsTree(t: Tree) {
    Proper(t) && Ordered(t) && !IsRed(t)
  }

  lemma NodeIffKeys(t: Tree)
    ensures t.Node? <==> Keys(t) != {}
  {
    if t.Node? { assert t.key in Keys(t); }
  }

  lemma RootIsEnterable(t: Tree)
    requires t.Node? && IsTree(t)
    ensures Enterable(t) && !LeansRight(t)
  {
  }

  function Apply(t: Tree, op: Op): Tree
    requires IsTree(t) && Allowed(op, Keys(t))
  {
    NodeIffKeys(t);
    match op
    case Add(k) => Blacken(Insert(t, k))
    case Delete(k) => Blacken(Remove(t, k))
    case DeleteLeast => Blacken(RemoveMin(t))
    case DeleteGreatest => Blacken(RemoveMax(t))
  }

  ghost function KeysAfter(keys: set<int>, op: Op): set<int>
    requires Allowed(op, keys)
  {
    match op
    case Add(k) => keys + {k}
    case Delete(k) => keys - {k}
    case DeleteLeast => keys - {Least(keys)}
    case DeleteGreatest => keys - {Greatest(keys)}
  }

  ghost predicate IsLeast(s: set<int>, k: int) { k in s && forall x :: x in s ==> k <= x }

  ghost predicate IsGreatest(s: set<int>, k: int) { k in s && forall x :: x in s ==> x <= k }

  ghost function Least(s: set<int>): (k: int)
    requires s != {}
    ensures IsLeast(s, k)
  {
    LeastExists(s);
    var k :| IsLeast(s, k);
    k
  }

  ghost function Greatest(s: set<int>): (k: int)
    requires s != {}
    ensures IsGreatest(s, k)
  {
    GreatestExists(s);
    var k :| IsGreatest(s, k);
    k
  }

  lemma {:induction false} LeastExists(s: set<int>)
    requires s != {}
    ensures exists k :: IsLeast(s, k)
    decreases |s|
  {
    assert (forall x: int :: x !in s) ==> s == {};
    var a :| a in s;
    if !IsLeast(s, a) {
      var rest := s - {a};
      assert forall x :: x in s ==> x == a || x in rest;
      assert rest == {} ==> IsLeast(s, a);
      LeastExists(rest);
      var k :| IsLeast(rest, k);
      assert IsLeast(s, k);
    }
  }

  lemma {:induction false} GreatestExists(s: set<int>)
    requires s != {}
    ensures exists k :: IsGreatest(s, k)
    decreases |s|
  {
    assert (forall x: int :: x !in s) ==> s == {};
    var a :| a in s;
    if !IsGreatest(s, a) {
      var rest := s - {a};
      assert forall x :: x in s ==> x == a || x in rest;
      assert rest == {} ==> IsGreatest(s, a);
      GreatestExists(rest);
      var k :| IsGreatest(rest, k);
      assert IsGreatest(s, k);
    }
  }

  lemma RootBlackened(t: Tree)
    requires Proper(Blacken(t)) && Ordered(t)
    ensures IsTree(Blacken(t)) && Keys(Blacken(t)) == Keys(t)
  {
    if t.Node? { ReplacedChildren(t, Black, t.left, t.right); }
  }

  /** Every operation keeps the tree proper and ordered with a black root, and changes the
      key set as its name says. */
  lemma ApplyKeepsTree(t: Tree, op: Op)
    requires IsTree(t) && Allowed(op, Keys(t))
    ensures IsTree(Apply(t, op)) && Keys(Apply(t, op)) == KeysAfter(Keys(t), op)
  {
    hide Insert, Remove, RemoveMin, RemoveMax, Keys, Ordered, Proper, BlackHeight, Blacken;
    NodeIffKeys(t);
    if t.Node? { RootIsEnterable(t); }
    match op
    case Add(k) =>
      InsertBalance(t, k);
      InsertKeys(t, k);
      RootBlackened(Insert(t, k));
    case Delete(k) =>
      RemoveBalance(t, k);
      RemoveKeys(t, k);
      RootBlackened(Remove(t, k));
    case DeleteLeast =>
      RemoveMinBalance(t);
      RemoveMinKeys(t);
      LeftmostIsLeast(t);
      RootBlackened(RemoveMin(t));
    case DeleteGreatest =>
      RemoveMaxBalance(t);
      RemoveMaxKeys(t);
      RightmostIsGreatest(t);
      RootBlackened(RemoveMax(t));
  }

  // Height.

  function Height(t: Tree): nat {
    if t.Leaf? then 0 else 1 + if Height(t.left) > Height(t.right) then Height(t.left) else Height(t.right)
  }

  lemma {:induction false} BalanceBounds(t: Tree)
    requires Proper(t)
    ensures Pow2(BlackHeight(t)) <= Size(t) + 1
    ensures Height(t) <= 2 * BlackHeight(t) + if IsRed(t) then 1 else 0
  {
    if t.Node? {
      BalanceBounds(t.left);
      BalanceBounds(t.right);
    }
  }

  lemma {:induction false} Pow2Double(a: nat)
    ensures Pow2(2 * a) == Pow2(a) * Pow2(a)
  {
    if a > 0 {
      Pow2Double(a - 1);
      assert Pow2(2 * a) == 2 * (2 * Pow2(2 * (a - 1)));
    }
  }

  lemma {:induction false} SizeIsKeyCount(t: Tree)
    requires Ordered(t)
    ensures Size(t) == |Keys(t)|
  {
    if t.Node? {
      SizeIsKeyCount(t.left);
      SizeIsKeyCount(t.right);
      CountAround(Keys(t.left), t.key, Keys(t.right));
    }
  }

  lemma CountAround(a: set<int>, k: int, b: set<int>)
    requires (forall x :: x in a ==> x < k) && forall x :: x in b ==> k < x
    ensures |a + {k} + b| == |a| + 1 + |b|
  {
    assert k !in a;
    assert |a + {k}| == |a| + 1;
    var c := a + {k};
    assert c * b == {} by {
      assert forall x :: x in c ==> x !in b;
    }
    assert |c + b| == |c| + |b|;
  }

  /** Height at most twice the binary logarithm of n + 1. */
  ghost predicate LogarithmicHeight(t: Tree, n: nat) {
    Pow2(Height(t)) <= (n + 1) * (n + 1)
  }

  lemma HeightIsLogarithmic(t: Tree)
    requires IsTree(t)
    ensures LogarithmicHeight(t, |Keys(t)|)
  {
    BalanceBounds(t);
    SizeIsKeyCount(t);
    var b := BlackHeight(t);
    Pow2Monotone(Height(t), 2 * b);
    Pow2Double(b);
    Squares(Pow2(b), |Keys(t)| + 1);
  }

  lemma {:induction false} Squares(a: nat, b: nat)
    requires a <= b
    ensures a * a <= b * b
    decreases b
  {
    if a < b {
      Squares(a, b - 1);
      assert (b - 1) * (b - 1) == b * b - 2 * b + 1;
    }
  }

  // Whole histories.

  /** Each operation of the history finds what it needs. */
  ghost predicate Feasible(ops: seq<Op>)
    decreases |ops|, 0
  {
    ops == [] || (Feasible(ops[..|ops| - 1]) && Allowed(ops[|ops| - 1], ModelKeys(ops[..|ops| - 1])))
  }

  ghost function ModelKeys(ops: seq<Op>): set<int>
    requires Feasible(ops)
    decreases |ops|, 1
  {
    if ops == [] then {} else KeysAfter(ModelKeys(ops[..|ops| - 1]), ops[|ops| - 1])
  }

  /** What the history makes of the empty tree: a proper ordered tree with a black root and
      exactly the expected keys. */
  ghost function Run(ops: seq<Op>): (t: Tree)
    requires Feasible(ops)
    ensures IsTree(t) && Keys(t) == ModelKeys(ops)
    decreases |ops|
  {
    if ops == [] then Leaf
    else
      var b := Run(ops[..|ops| - 1]);
      ApplyKeepsTree(b, ops[|ops| - 1]);
      Apply(b, ops[|ops| - 1])
  }

  lemma HistoryHeight(ops: seq<Op>)
    requires Feasible(ops)
    ensures LogarithmicHeight(Run(ops), |ModelKeys(ops)|)
  {
    hide LogarithmicHeight;
    HeightIsLogarithmic(Run(ops));
  }
}
