/** B-trees as values: what insertion and removal compute, dead key slots included. */
module BTrees {
  import opened SortedSequences

  /** A node's key array is split into the n keys in use and the dead slots behind them. The
      edges in use are the children. */
  datatype Tree =
    | Leaf(live: seq<int>, dead: seq<int>)
    | Node(live: seq<int>, dead: seq<int>, kids: seq<Tree>)

  /** T(), which fills slots that were never used or have been cleared. */
  const BLANK := 0

  function Blanks(n: nat): (s: seq<int>)
    ensures |s| == n
  {
    seq(n, _ => BLANK)
  }

  // The keys in order.

  ghost function InOrder(t: Tree): seq<int>
    decreases t, 1
  {
    match t
    case Leaf(live, _) => live
    case Node(live, _, kids) => Weave(kids, live)
  }

  /** Each child followed by its key. */
  ghost function Pairs(kids: seq<Tree>, keys: seq<int>): seq<int>
    decreases kids, 0
  {
    if kids == [] || keys == [] then []
    else Pairs(kids[..|kids| - 1], keys[..|keys| - 1]) + InOrder(kids[|kids| - 1]) + [keys[|keys| - 1]]
  }

  /** Children and keys in turn, one child more than keys. */
  ghost function Weave(kids: seq<Tree>, keys: seq<int>): seq<int>
    decreases kids, 2
  {
    if |kids| != |keys| + 1 then [] else Pairs(kids[..|keys|], keys) + InOrder(kids[|keys|])
  }

  lemma {:induction false} PairsAppend(a: seq<Tree>, ka: seq<int>, b: seq<Tree>, kb: seq<int>)
    requires |a| == |ka| && |b| == |kb|
    ensures Pairs(a + b, ka + kb) == Pairs(a, ka) + Pairs(b, kb)
  {
    hide InOrder;
    if b == [] {
      assert a + b == a && ka + kb == ka;
    } else {
      var n := |b| - 1;
      PairsAppend(a, ka, b[..n], kb[..n]);
      assert (a + b)[..|a + b| - 1] == a + b[..n] && (ka + kb)[..|ka + kb| - 1] == ka + kb[..n];
      Regroup(Pairs(a, ka), Pairs(b[..n], kb[..n]), InOrder(b[n]), [kb[n]]);
    }
  }

  lemma Regroup(a: seq<int>, b: seq<int>, c: seq<int>, d: seq<int>)
    ensures (a + b) + c + d == a + (b + c + d)
  {
  }

  /** What follows child i: nothing, or its key and the rest. */
  ghost function Rest(kids: seq<Tree>, keys: seq<int>): seq<int>
    requires |kids| == |keys|
  {
    if keys == [] then [] else [keys[0]] + Weave(kids, keys[1..])
  }

  lemma WeaveLast(a: seq<Tree>, ka: seq<int>, c: Tree)
    requires |a| == |ka|
    ensures Weave(a + [c], ka) == Pairs(a, ka) + InOrder(c)
  {
    assert (a + [c])[..|ka|] == a;
  }

  /** One child in its surroundings. */
  lemma Focus(a: seq<Tree>, ka: seq<int>, c: Tree, b: seq<Tree>, kb: seq<int>)
    requires |a| == |ka| && |b| == |kb|
    ensures Weave(a + [c] + b, ka + kb) == Pairs(a, ka) + InOrder(c) + Rest(b, kb)
  {
    hide InOrder, Pairs, Weave, Rest;
    if b == [] {
      assert kb == [];
      FocusEnd(a, ka, c);
    } else {
      FocusBefore(a, ka, c, b, kb);
    }
  }

  lemma FocusEnd(a: seq<Tree>, ka: seq<int>, c: Tree)
    requires |a| == |ka|
    ensures Weave(a + [c] + [], ka + []) == Pairs(a, ka) + InOrder(c) + Rest([], [])
  {
    hide InOrder, Pairs, Weave;
    WeaveLast(a, ka, c);
    assert a + [c] + [] == a + [c] && ka + [] == ka;
    assert Pairs(a, ka) + InOrder(c) + [] == Pairs(a, ka) + InOrder(c);
  }

  lemma FocusBefore(a: seq<Tree>, ka: seq<int>, c: Tree, b: seq<Tree>, kb: seq<int>)
    requires |a| == |ka| && |b| == |kb| && b != []
    ensures Weave(a + [c] + b, ka + kb) == Pairs(a, ka) + InOrder(c) + Rest(b, kb)
  {
    hide InOrder, Pairs, Weave;
    var b', last, k, kb' := b[..|b| - 1], b[|b| - 1], kb[0], kb[1..];
    FocusInside(a, ka, c, b', k, kb', last);
    assert b' + [last] == b;
    assert [k] + kb' == kb;
  }

  lemma FocusInside(a: seq<Tree>, ka: seq<int>, c: Tree, b: seq<Tree>, k: int, kb: seq<int>, last: Tree)
    requires |a| == |ka| && |b| == |kb|
    ensures Weave(a + [c] + (b + [last]), ka + ([k] + kb)) == Pairs(a, ka) + InOrder(c) + ([k] + Weave(b + [last], kb))
  {
    hide InOrder, Pairs, Weave;
    assert a + [c] + (b + [last]) == (a + ([c] + b)) + [last];
    WeaveLast(a + ([c] + b), ka + ([k] + kb), last);
    WeaveLast(b, kb, last);
    PairsAppend(a, ka, [c] + b, [k] + kb);
    PairsAppend([c], [k], b, kb);
    SinglePair(c, k);
    FocusRegroup(Pairs(a, ka), InOrder(c), [k], Pairs(b, kb), InOrder(last));
  }

  lemma NothingAdded<T>(a: seq<T>)
    ensures a + [] == a
  {
  }

  lemma SinglePair(c: Tree, k: int)
    ensures Pairs([c], [k]) == InOrder(c) + [k]
  {
    assert [c][..0] == [] && [k][..0] == [];
  }

  lemma FocusRegroup(a: seq<int>, b: seq<int>, c: seq<int>, d: seq<int>, e: seq<int>)
    ensures (a + ((b + c) + d)) + e == a + b + (c + (d + e))
  {
  }

  /** Two neighbouring children with the key between them. */
  lemma FocusPair(a: seq<Tree>, ka: seq<int>, l: Tree, m: int, r: Tree, b: seq<Tree>, kb: seq<int>)
    requires |a| == |ka| && |b| == |kb|
    ensures Weave(a + [l, r] + b, ka + [m] + kb) == Pairs(a, ka) + (InOrder(l) + [m] + InOrder(r)) + Rest(b, kb)
  {
    hide InOrder, Pairs, Weave;
    Focus(a, ka, l, [r] + b, [m] + kb);
    assert a + [l] + ([r] + b) == a + [l, r] + b && ka + ([m] + kb) == ka + [m] + kb;
    Focus([], [], r, b, kb);
    assert [] + [r] + b == [r] + b && [] + kb == kb && ([m] + kb)[1..] == kb;
    NoPairs();
    FocusPairRegroup(Pairs(a, ka), InOrder(l), [m], InOrder(r), Rest(b, kb));
  }

  lemma NoPairs()
    ensures Pairs([], []) == []
  {
  }

  lemma FocusPairRegroup(a: seq<int>, b: seq<int>, c: seq<int>, d: seq<int>, e: seq<int>)
    ensures a + b + (c + ([] + d + e)) == a + (b + c + d) + e
  {
  }

  // The shape: uniform depth h, and at least B - 1 keys in every node but the root.

  ghost predicate WellFormed(t: Tree, b: nat, h: nat)
    decreases h, 0
  {
    && |t.live| + |t.dead| == 2 * b - 1
    && (t.Leaf? <==> h == 0)
    && (t.Node? ==> |t.kids| == |t.live| + 1 && forall i :: 0 <= i < |t.kids| ==> Kid(t.kids[i], b, h - 1))
  }

  ghost predicate Kid(t: Tree, b: nat, h: nat)
    decreases h, 1
  {
    WellFormed(t, b, h) && |t.live| >= b - 1
  }

  lemma KidAt(t: Tree, b: nat, h: nat, i: nat)
    requires WellFormed(t, b, h) && t.Node? && i < |t.kids|
    ensures h > 0 && Kid(t.kids[i], b, h - 1) && |t.kids| == |t.live| + 1
  {
  }

  /** A node's order around child i. */
  lemma ChildFocus(live: seq<int>, kids: seq<Tree>, i: nat, c: Tree)
    requires |kids| == |live| + 1 && i < |kids|
    ensures Weave(kids[i := c], live) == Pairs(kids[..i], live[..i]) + InOrder(c) + Rest(kids[i + 1..], live[i..])
  {
    hide InOrder, Pairs, Weave, Rest;
    Focus(kids[..i], live[..i], c, kids[i + 1..], live[i..]);
    assert kids[i := c] == kids[..i] + [c] + kids[i + 1..];
    assert live == live[..i] + live[i..];
  }

  /** A node's order around children i and i + 1. */
  lemma PairFocus(live: seq<int>, kids: seq<Tree>, i: nat)
    requires |kids| == |live| + 1 && i < |live|
    ensures Weave(kids, live) ==
      Pairs(kids[..i], live[..i]) + (InOrder(kids[i]) + [live[i]] + InOrder(kids[i + 1]))
        + Rest(kids[i + 2..], live[i + 1..])
  {
    hide InOrder, Pairs, Weave, Rest;
    FocusPair(kids[..i], live[..i], kids[i], live[i], kids[i + 1], kids[i + 2..], live[i + 1..]);
    assert kids == kids[..i] + [kids[i], kids[i + 1]] + kids[i + 2..];
    assert live == live[..i] + [live[i]] + live[i + 1..];
  }

  /** A weave falls apart at any key. */
  lemma WeaveSplit(kids: seq<Tree>, live: seq<int>, i: nat)
    requires |kids| == |live| + 1 && i < |live|
    ensures Weave(kids, live) == Weave(kids[..i + 1], live[..i]) + [live[i]] + Weave(kids[i + 1..], live[i + 1..])
  {
    hide InOrder, Pairs, Weave;
    ChildFocus(live, kids, i, kids[i]);
    assert kids[i := kids[i]] == kids;
    WeaveLast(kids[..i], live[..i], kids[i]);
    assert kids[..i] + [kids[i]] == kids[..i + 1];
    assert live[i..][1..] == live[i + 1..];
  }

  // Insertion.

  /** The halves of a full node around its middle key, index B - 1. The clearing loop covers
      B - 1 of the B freed slots, so the last slot keeps its old key. */
  function LeftHalf(c: Tree, b: nat): Tree
    requires b >= 2 && |c.live| == 2 * b - 1 && (c.Node? ==> |c.kids| == 2 * b)
  {
    var dead := Blanks(b - 1) + [c.live[2 * b - 2]];
    if c.Leaf? then Leaf(c.live[..b - 1], dead) else Node(c.live[..b - 1], dead, c.kids[..b])
  }

  function RightHalf(c: Tree, b: nat): Tree
    requires b >= 2 && |c.live| == 2 * b - 1 && (c.Node? ==> |c.kids| == 2 * b)
  {
    if c.Leaf? then Leaf(c.live[b..], Blanks(b)) else Node(c.live[b..], Blanks(b), c.kids[b..])
  }

  lemma HalvesFacts(c: Tree, b: nat, h: nat)
    requires b >= 2 && WellFormed(c, b, h) && |c.live| == 2 * b - 1
    ensures Kid(LeftHalf(c, b), b, h) && Kid(RightHalf(c, b), b, h)
    ensures InOrder(c) == InOrder(LeftHalf(c, b)) + [c.live[b - 1]] + InOrder(RightHalf(c, b))
  {
    if c.Node? {
      WeaveSplit(c.kids, c.live, b - 1);
    } else {
      assert c.live == c.live[..b - 1] + [c.live[b - 1]] + c.live[b..];
    }
  }

  /** split_child: the middle key of full child i moves up between its halves. */
  function SplitChild(p: Tree, i: nat, b: nat): Tree
    requires b >= 2 && p.Node? && |p.kids| == |p.live| + 1 && i < |p.kids| && p.dead != []
    requires var c := p.kids[i]; |c.live| == 2 * b - 1 && (c.Node? ==> |c.kids| == 2 * b)
  {
    var c := p.kids[i];
    Node(p.live[..i] + [c.live[b - 1]] + p.live[i..], p.dead[1..],
      p.kids[..i] + [LeftHalf(c, b), RightHalf(c, b)] + p.kids[i + 1..])
  }

  lemma SplitFacts(p: Tree, i: nat, b: nat, h: nat)
    requires b >= 2 && p.Node? && WellFormed(p, b, h) && i < |p.kids| && |p.live| < 2 * b - 1
      && |p.kids[i].live| == 2 * b - 1
    ensures Kid(p.kids[i], b, h - 1) && p.dead != [] && (p.kids[i].Node? ==> |p.kids[i].kids| == 2 * b)
    ensures WellFormed(SplitChild(p, i, b), b, h) && InOrder(SplitChild(p, i, b)) == InOrder(p)
  {
    KidAt(p, b, h, i);
    var c := p.kids[i];
    HalvesFacts(c, b, h - 1);
    SplitShape(p, i, b, h);
    SplitOrder(p, i, b);
  }

  lemma SplitShape(p: Tree, i: nat, b: nat, h: nat)
    requires b >= 2 && p.Node? && WellFormed(p, b, h) && i < |p.kids| && |p.live| < 2 * b - 1
    requires |p.kids[i].live| == 2 * b - 1 && (p.kids[i].Node? ==> |p.kids[i].kids| == 2 * b)
    requires Kid(LeftHalf(p.kids[i], b), b, h - 1) && Kid(RightHalf(p.kids[i], b), b, h - 1)
    ensures WellFormed(SplitChild(p, i, b), b, h)
  {
    hide LeftHalf, RightHalf;
    var r := SplitChild(p, i, b);
    forall j | 0 <= j < |r.kids| ensures Kid(r.kids[j], b, h - 1) {
      if j < i { assert r.kids[j] == p.kids[j]; }
      if j > i + 1 { assert r.kids[j] == p.kids[j - 1]; }
    }
  }

  lemma SplitOrder(p: Tree, i: nat, b: nat)
    requires b >= 2 && p.Node? && |p.kids| == |p.live| + 1 && i < |p.kids| && p.dead != []
    requires |p.kids[i].live| == 2 * b - 1 && (p.kids[i].Node? ==> |p.kids[i].kids| == 2 * b)
    requires InOrder(p.kids[i]) == InOrder(LeftHalf(p.kids[i], b)) + [p.kids[i].live[b - 1]]
      + InOrder(RightHalf(p.kids[i], b))
    ensures InOrder(SplitChild(p, i, b)) == InOrder(p)
  {
    hide LeftHalf, RightHalf, Weave, Pairs, Rest;
    var c := p.kids[i];
    var kids := p.kids;
    FocusPair(kids[..i], p.live[..i], LeftHalf(c, b), c.live[b - 1], RightHalf(c, b), kids[i + 1..], p.live[i..]);
    ChildFocus(p.live, kids, i, c);
    assert kids[i := c] == kids;
  }

  /** What insert may enter: a node that is not full. */
  ghost predicate Enterable(t: Tree, b: nat, h: nat) {
    b >= 2 && WellFormed(t, b, h) && |t.live| < 2 * b - 1
  }

  /** The node as insert leaves it before descending: a full child on the way is split. */
  function Prepared(t: Tree, k: int, b: nat, ghost h: nat): Tree
    requires t.Node? && Enterable(t, b, h)
  {
    var i := GetIndex(t.live, k);
    KidAt(t, b, h, i);
    if |t.kids[i].live| >= 2 * b - 1 then SplitFacts(t, i, b, h); SplitChild(t, i, b) else t
  }

  /** The child then entered is not full. */
  lemma PreparedFacts(t: Tree, k: int, b: nat, h: nat)
    requires t.Node? && Enterable(t, b, h)
    ensures var p := Prepared(t, k, b, h);
            && p.Node? && WellFormed(p, b, h) && InOrder(p) == InOrder(t) && h > 0 && |p.live| >= |t.live|
            && Enterable(p.kids[GetIndex(p.live, k)], b, h - 1) && |p.kids[GetIndex(p.live, k)].live| >= b - 1
  {
    hide LeftHalf, RightHalf, InOrder, GetIndex;
    var i := GetIndex(t.live, k);
    KidAt(t, b, h, i);
    if |t.kids[i].live| >= 2 * b - 1 {
      SplitFacts(t, i, b, h);
      SplitIndex(t, i, k, b);
      HalvesFacts(t.kids[i], b, h - 1);
      HalvesSmall(t.kids[i], b);
    }
  }

  lemma HalvesSmall(c: Tree, b: nat)
    requires b >= 2 && |c.live| == 2 * b - 1 && (c.Node? ==> |c.kids| == 2 * b)
    ensures |LeftHalf(c, b).live| == |RightHalf(c, b).live| == b - 1
  {
  }

  /** After a split the search goes to one of the halves. */
  lemma SplitIndex(t: Tree, i: nat, k: int, b: nat)
    requires b >= 2 && t.Node? && |t.kids| == |t.live| + 1 && t.dead != [] && i == GetIndex(t.live, k)
    requires |t.kids[i].live| == 2 * b - 1 && (t.kids[i].Node? ==> |t.kids[i].kids| == 2 * b)
    ensures var p := SplitChild(t, i, b);
            var m := t.kids[i].live[b - 1];
            && GetIndex(p.live, k) == (if m >= k then i else i + 1)
            && p.kids[GetIndex(p.live, k)] == (if m >= k then LeftHalf(t.kids[i], b) else RightHalf(t.kids[i], b))
  {
    hide LeftHalf, RightHalf, GetIndex;
    var p := SplitChild(t, i, b);
    var m := t.kids[i].live[b - 1];
    assert p.live[..i] == t.live[..i];
    assert forall j {:trigger p.live[j]} :: 0 <= j < i ==> p.live[j] == p.live[..i][j];
    assert p.live[i] == m;
    assert i + 1 < |p.live| ==> p.live[i + 1] == t.live[i];
    GetIndexIs(p.live, k, if m >= k then i else i + 1);
  }

  /** BTreeNode::insert: the node afterwards, and whether the key went in. */
  function Insert(t: Tree, k: int, b: nat, ghost h: nat): (Tree, bool)
    requires Enterable(t, b, h)
    decreases h
  {
    var i := GetIndex(t.live, k);
    if t.Leaf? then
      if (t.live + t.dead)[i] == k then (t, false)
      else (Leaf(t.live[..i] + [k] + t.live[i..], t.dead[1..]), true)
    else
      PreparedFacts(t, k, b, h);
      var p := Prepared(t, k, b, h);
      var j := GetIndex(p.live, k);
      var (c, done) := Insert(p.kids[j], k, b, h - 1);
      (p.(kids := p.kids[j := c]), done)
  }

  /** Depth and key counts stay in bounds. */
  lemma {:induction false} InsertShape(t: Tree, k: int, b: nat, h: nat)
    requires Enterable(t, b, h)
    ensures WellFormed(Insert(t, k, b, h).0, b, h) && |Insert(t, k, b, h).0.live| >= |t.live|
    decreases h
  {
    hide Prepared, GetIndex;
    if t.Node? {
      PreparedFacts(t, k, b, h);
      var p := Prepared(t, k, b, h);
      var j := GetIndex(p.live, k);
      InsertShape(p.kids[j], k, b, h - 1);
      KidReplaced(p, j, Insert(p.kids[j], k, b, h - 1).0, b, h);
    }
  }

  lemma KidReplaced(p: Tree, j: nat, c: Tree, b: nat, h: nat)
    requires p.Node? && WellFormed(p, b, h) && h > 0 && j < |p.kids| && Kid(c, b, h - 1)
    ensures WellFormed(p.(kids := p.kids[j := c]), b, h)
  {
    var kids := p.kids[j := c];
    forall i | 0 <= i < |kids| ensures Kid(kids[i], b, h - 1) {
      if i != j { assert Kid(p.kids[i], b, h - 1); }
    }
  }

  /** What surrounds the child that the search for k enters lies on the right side of k. */
  lemma Surroundings(t: Tree, k: int, b: nat, h: nat)
    requires t.Node? && WellFormed(t, b, h) && Sorted(InOrder(t))
    ensures var i := GetIndex(t.live, k);
            && |t.kids| == |t.live| + 1
            && (forall x :: x in Pairs(t.kids[..i], t.live[..i]) ==> x < k)
            && (i == |t.live| ==> Rest(t.kids[i + 1..], t.live[i..]) == [])
            && (i < |t.live| ==>
                  var rest := Rest(t.kids[i + 1..], t.live[i..]);
                  rest != [] && rest[0] == t.live[i] >= k)
            && InOrder(t) == Pairs(t.kids[..i], t.live[..i]) + InOrder(t.kids[i]) + Rest(t.kids[i + 1..], t.live[i..])
  {
    hide InOrder, Weave, GetIndex, Pairs;
    var i := GetIndex(t.live, k);
    NodeOrder(t);
    ChildFocus(t.live, t.kids, i, t.kids[i]);
    assert t.kids[i := t.kids[i]] == t.kids;
    SortedParts(Pairs(t.kids[..i], t.live[..i]), InOrder(t.kids[i]), Rest(t.kids[i + 1..], t.live[i..]));
    if i > 0 {
      PairsEnd(t.kids[..i], t.live[..i]);
      SortedBelowLast(Pairs(t.kids[..i], t.live[..i]), k);
    } else {
      NoPairs();
    }
  }

  lemma NodeOrder(t: Tree)
    requires t.Node?
    ensures InOrder(t) == Weave(t.kids, t.live)
  {
  }

  lemma PairsEnd(kids: seq<Tree>, keys: seq<int>)
    requires |kids| == |keys| > 0
    ensures Pairs(kids, keys) != [] && Pairs(kids, keys)[|Pairs(kids, keys)| - 1] == keys[|keys| - 1]
  {
  }

  lemma SortedBelowLast(s: seq<int>, k: int)
    requires Sorted(s) && s != [] && s[|s| - 1] < k
    ensures forall x :: x in s ==> x < k
  {
  }

  /** A new key that goes in is the in-order sequence's only change. */
  lemma {:induction false} InsertOrder(t: Tree, k: int, b: nat, h: nat)
    requires Enterable(t, b, h) && Sorted(InOrder(t))
    ensures InOrder(Insert(t, k, b, h).0) == if Insert(t, k, b, h).1 then With(InOrder(t), k) else InOrder(t)
    decreases h
  {
    hide Prepared, GetIndex, Weave, Pairs, Rest, With;
    if t.Node? {
      PreparedFacts(t, k, b, h);
      var p := Prepared(t, k, b, h);
      var j := GetIndex(p.live, k);
      Surroundings(p, k, b, h);
      var (a, m, r) := (Pairs(p.kids[..j], p.live[..j]), InOrder(p.kids[j]), Rest(p.kids[j + 1..], p.live[j..]));
      SortedParts(a, m, r);
      InsertOrder(p.kids[j], k, b, h - 1);
      var c := Insert(p.kids[j], k, b, h - 1).0;
      ChildFocus(p.live, p.kids, j, c);
      NodeOrder(p.(kids := p.kids[j := c]));
      WithInside(a, m, r, k);
    } else {
      LeafWith(t, k);
    }
  }

  lemma LeafWith(t: Tree, k: int)
    requires t.Leaf?
    ensures InOrder(t) == t.live
      && With(t.live, k) == t.live[..GetIndex(t.live, k)] + [k] + t.live[GetIndex(t.live, k)..]
  {
  }

  // Which insertions are refused. Only the leaf compares the key with a slot, the one at the
  // key's position; when that position is behind its last key the slot is dead.

  /** The leaf where the search for k ends. */
  function LeafFor(t: Tree, k: int, b: nat, ghost h: nat): (u: Tree)
    requires WellFormed(t, b, h)
    ensures u.Leaf? && |u.live| + |u.dead| == 2 * b - 1
    decreases h
  {
    if t.Leaf? then t else
      KidAt(t, b, h, GetIndex(t.live, k));
      LeafFor(t.kids[GetIndex(t.live, k)], k, b, h - 1)
  }

  /** The slot that k is compared with holds k. A full leaf is split first: its middle key
      leaves it, and both halves have the blank value behind their keys. */
  predicate Refuses(u: Tree, k: int, b: nat)
    requires b >= 2 && u.Leaf? && |u.live| + |u.dead| == 2 * b - 1
  {
    var i := GetIndex(u.live, k);
    if |u.live| < 2 * b - 1 then (u.live + u.dead)[i] == k
    else if i == b - 1 || i == 2 * b - 1 then k == BLANK
    else u.live[i] == k
  }

  /** For a key that is not in the leaf: it belongs behind all keys there and the dead slot
      behind them holds it, or the leaf is full and the key is the blank value. */
  lemma RefusesNew(u: Tree, k: int, b: nat)
    requires b >= 2 && u.Leaf? && |u.live| + |u.dead| == 2 * b - 1 && k !in u.live
    ensures var i := GetIndex(u.live, k);
            Refuses(u, k, b) <==>
              if |u.live| < 2 * b - 1 then i == |u.live| && u.dead[0] == k
              else k == BLANK && (i == b - 1 || i == 2 * b - 1)
  {
    var i := GetIndex(u.live, k);
    assert i < |u.live| ==> u.live[i] in u.live;
  }

  /** For a key of the leaf: it is refused unless the leaf is full and the key its middle one. */
  lemma RefusesPresent(u: Tree, k: int, b: nat)
    requires b >= 2 && u.Leaf? && |u.live| + |u.dead| == 2 * b - 1 && Sorted(u.live) && k in u.live
    ensures Refuses(u, k, b) <==> |u.live| < 2 * b - 1 || k != u.live[b - 1] || k == BLANK
  {
    IndexOfMember(u.live, k);
  }

  lemma {:induction false} LeafForIsLeaf(t: Tree, k: int, b: nat, h: nat)
    requires WellFormed(t, b, h)
    ensures forall x :: x in LeafFor(t, k, b, h).live ==> x in InOrder(t)
    decreases h
  {
    if t.Node? {
      var i := GetIndex(t.live, k);
      KidAt(t, b, h, i);
      LeafForIsLeaf(t.kids[i], k, b, h - 1);
      ChildFocus(t.live, t.kids, i, t.kids[i]);
      assert t.kids[i := t.kids[i]] == t.kids;
    }
  }

  /** The leaf's keys are in order. */
  lemma {:induction false} LeafKeys(t: Tree, k: int, b: nat, h: nat)
    requires WellFormed(t, b, h) && Sorted(InOrder(t))
    ensures Sorted(LeafFor(t, k, b, h).live)
    decreases h
  {
    hide GetIndex, InOrder, Weave, Pairs, Rest;
    if t.Node? {
      KidAt(t, b, h, GetIndex(t.live, k));
      KidKeys(t, k, b, h);
      LeafKeys(t.kids[GetIndex(t.live, k)], k, b, h - 1);
    } else {
      LiveInOrder(t);
    }
  }

  lemma GetIndexPrefix(s: seq<int>, n: nat, k: int)
    requires n < |s| && Sorted(s)
    ensures s[n] >= k ==> GetIndex(s[..n], k) == GetIndex(s, k)
    ensures s[n] < k ==> GetIndex(s[n + 1..], k) == GetIndex(s, k) - (n + 1)
  {
    hide GetIndex;
    var i := GetIndex(s, k);
    if s[n] >= k {
      assert i <= n;
      GetIndexIs(s[..n], k, i);
    } else {
      assert i > n;
      var tail := s[n + 1..];
      assert forall j :: 0 <= j < |tail| ==> tail[j] == s[n + 1 + j];
      GetIndexIs(tail, k, i - (n + 1));
    }
  }

  /** Splitting a full node changes neither the leaf found nor its verdict. */
  lemma HalfRefuses(c: Tree, k: int, b: nat, h: nat)
    requires b >= 2 && WellFormed(c, b, h) && |c.live| == 2 * b - 1 && Sorted(InOrder(c))
    ensures var half := if c.live[b - 1] >= k then LeftHalf(c, b) else RightHalf(c, b);
            WellFormed(half, b, h) && (Refuses(LeafFor(half, k, b, h), k, b) <==> Refuses(LeafFor(c, k, b, h), k, b))
  {
    hide GetIndex, InOrder, Refuses;
    HalvesFacts(c, b, h);
    LiveInOrder(c);
    GetIndexPrefix(c.live, b - 1, k);
    if c.Leaf? {
      assert c.live[b - 1] in c.live;
      HalfLeafRefuses(c, k, b);
    }
  }

  lemma HalfLeafRefuses(c: Tree, k: int, b: nat)
    requires b >= 2 && c.Leaf? && |c.live| == 2 * b - 1 && c.dead == [] && Sorted(c.live)
    ensures var half := if c.live[b - 1] >= k then LeftHalf(c, b) else RightHalf(c, b);
            Refuses(half, k, b) <==> Refuses(c, k, b)
  {
    hide GetIndex;
    GetIndexPrefix(c.live, b - 1, k);
    assert Blanks(b)[0] == BLANK && (Blanks(b - 1) + [c.live[2 * b - 2]])[0] == BLANK;
  }

  lemma LiveInOrder(t: Tree)
    requires Sorted(InOrder(t)) && (t.Node? ==> |t.kids| == |t.live| + 1)
    ensures Sorted(t.live) && forall x :: x in t.live ==> x in InOrder(t)
  {
    if t.Node? {
      var ps := Pairs(t.kids[..|t.live|], t.live);
      PairsKeys(t.kids[..|t.live|], t.live);
      assert ps + [] == ps;
      assert InOrder(t) == ps + [] + InOrder(t.kids[|t.live|]);
      SortedParts(ps, [], InOrder(t.kids[|t.live|]));
    }
  }

  lemma {:induction false} PairsKeys(kids: seq<Tree>, keys: seq<int>)
    requires |kids| == |keys|
    ensures forall x :: x in keys ==> x in Pairs(kids, keys)
    ensures Sorted(Pairs(kids, keys)) ==> Sorted(keys)
  {
    hide InOrder;
    if keys != [] {
      var n := |keys| - 1;
      PairsKeys(kids[..n], keys[..n]);
      assert keys == keys[..n] + [keys[n]];
      if Sorted(Pairs(kids, keys)) {
        SortedParts(Pairs(kids[..n], keys[..n]), InOrder(kids[n]), [keys[n]]);
        assert keys[n] in [keys[n]];
        assert forall j :: 0 <= j < n ==> keys[j] == keys[..n][j] && keys[..n][j] in keys[..n];
      }
    }
  }

  /** A key goes in, present or not, exactly when the leaf found for it does not refuse it. */
  lemma {:induction false} InsertSucceeds(t: Tree, k: int, b: nat, h: nat)
    requires Enterable(t, b, h) && Sorted(InOrder(t))
    ensures Insert(t, k, b, h).1 <==> !Refuses(LeafFor(t, k, b, h), k, b)
    decreases h
  {
    hide GetIndex, InOrder, Weave, Pairs, Rest, Refuses;
    if t.Leaf? {
      LeafVerdict(t, k, b, h);
    } else {
      PreparedFacts(t, k, b, h);
      var i := GetIndex(t.live, k);
      KidAt(t, b, h, i);
      var p := Prepared(t, k, b, h);
      var j := GetIndex(p.live, k);
      KidKeys(t, k, b, h);
      KidKeys(p, k, b, h);
      InsertSucceeds(p.kids[j], k, b, h - 1);
      if |t.kids[i].live| >= 2 * b - 1 {
        SplitFacts(t, i, b, h);
        SplitIndex(t, i, k, b);
        HalfRefuses(t.kids[i], k, b, h - 1);
      }
    }
  }

  /** The child entered is sorted, and a key missing from the node is missing from it. */
  lemma KidKeys(t: Tree, k: int, b: nat, h: nat)
    requires t.Node? && WellFormed(t, b, h) && Sorted(InOrder(t))
    ensures var i := GetIndex(t.live, k);
            i < |t.kids| && Sorted(InOrder(t.kids[i])) && forall x :: x in InOrder(t.kids[i]) ==> x in InOrder(t)
  {
    hide GetIndex, InOrder, Weave, Pairs, Rest;
    var i := GetIndex(t.live, k);
    Surroundings(t, k, b, h);
    SortedParts(Pairs(t.kids[..i], t.live[..i]), InOrder(t.kids[i]), Rest(t.kids[i + 1..], t.live[i..]));
  }

  lemma LeafVerdict(t: Tree, k: int, b: nat, h: nat)
    requires Enterable(t, b, h) && t.Leaf?
    ensures Insert(t, k, b, h).1 <==> !Refuses(LeafFor(t, k, b, h), k, b)
  {
  }
}
