/** Removal from B-trees: borrowing, merging and the descent. */
module BTreeRemoval {
  import opened SortedSequences
  import opened BTrees

  /** Neighbouring siblings of the same kind, as removal meets them. */
  ghost predicate Siblings(p: Tree, i: nat, b: nat, h: nat) {
    b >= 2 && p.Node? && WellFormed(p, b, h) && i < |p.live|
  }

  lemma SiblingFacts(p: Tree, i: nat, b: nat, h: nat)
    requires Siblings(p, i, b, h)
    ensures h > 0 && |p.kids| == |p.live| + 1 && Kid(p.kids[i], b, h - 1) && Kid(p.kids[i + 1], b, h - 1)
    ensures p.kids[i].Leaf? <==> p.kids[i + 1].Leaf?
    ensures p.kids[i].Node? ==>
      |p.kids[i].kids| == |p.kids[i].live| + 1 && |p.kids[i + 1].kids| == |p.kids[i + 1].live| + 1
  {
    KidAt(p, b, h, i);
    KidAt(p, b, h, i + 1);
    KidShows(p.kids[i], b, h - 1);
    KidShows(p.kids[i + 1], b, h - 1);
  }

  lemma KidShows(t: Tree, b: nat, h: nat)
    requires Kid(t, b, h)
    ensures |t.live| + |t.dead| == 2 * b - 1 && |t.live| >= b - 1 && (t.Leaf? <==> h == 0)
    ensures t.Node? ==> |t.kids| == |t.live| + 1
  {
  }

  /** A node of the same kind as t. */
  function Like(t: Tree, live: seq<int>, dead: seq<int>, kids: seq<Tree>): Tree {
    if t.Leaf? then Leaf(live, dead) else Node(live, dead, kids)
  }

  /** borrow_from_right: the separating key moves down, the sibling's first key moves up. */
  function BorrowRight(p: Tree, e: nat, b: nat, ghost h: nat): Tree
    requires Siblings(p, e, b, h) && |p.kids[e].live| < 2 * b - 1 && |p.kids[e + 1].live| > 0
  {
    SiblingFacts(p, e, b, h);
    var (c, s) := (p.kids[e], p.kids[e + 1]);
    var c' := Like(c, c.live + [p.live[e]], c.dead[1..], if c.Leaf? then [] else c.kids + [s.kids[0]]);
    var s' := Like(c, s.live[1..], [s.live[|s.live| - 1]] + s.dead, if c.Leaf? then [] else s.kids[1..]);
    p.(live := p.live[e := s.live[0]], kids := p.kids[e := c'][e + 1 := s'])
  }

  /** borrow_from_left: the left sibling's last key moves up, the separating key moves down. */
  function BorrowLeft(p: Tree, e: nat, b: nat, ghost h: nat): Tree
    requires e > 0 && Siblings(p, e - 1, b, h) && |p.kids[e].live| < 2 * b - 1 && |p.kids[e - 1].live| > 0
  {
    SiblingFacts(p, e - 1, b, h);
    var (s, c) := (p.kids[e - 1], p.kids[e]);
    var n := |s.live| - 1;
    var c' := Like(c, [p.live[e - 1]] + c.live, c.dead[1..], if c.Leaf? then [] else [s.kids[n + 1]] + c.kids);
    var s' := Like(c, s.live[..n], [s.live[n]] + s.dead, if c.Leaf? then [] else s.kids[..n + 1]);
    p.(live := p.live[e - 1 := s.live[n]], kids := p.kids[e - 1 := s'][e := c'])
  }

  /** The two children of merge_children and the key between them as one node. */
  function Merged(c: Tree, k: int, s: Tree): Tree
    requires |c.dead| > |s.live|
  {
    Like(c, c.live + [k] + s.live, c.dead[|s.live| + 1..], if c.Leaf? || s.Leaf? then [] else c.kids + s.kids)
  }

  /** merge_children, for the children i and i + 1. */
  function MergeAt(p: Tree, i: nat, b: nat, ghost h: nat): Tree
    requires Siblings(p, i, b, h) && |p.kids[i].live| + |p.kids[i + 1].live| + 1 <= 2 * b - 1
  {
    SiblingFacts(p, i, b, h);
    Node(p.live[..i] + p.live[i + 1..], [BLANK] + p.dead,
      p.kids[..i] + [Merged(p.kids[i], p.live[i], p.kids[i + 1])] + p.kids[i + 2..])
  }

  // None of these changes the order.

  lemma WeaveOne(c: Tree)
    ensures Weave([c], []) == InOrder(c)
  {
    NoPairs();
    WeaveLast([], [], c);
    assert [] + [c] == [c];
    assert [] + InOrder(c) == InOrder(c);
  }

  /** Two weaves joined by a key. */
  lemma WeaveJoin(a: seq<Tree>, ka: seq<int>, k: int, c: seq<Tree>, kc: seq<int>)
    requires |a| == |ka| + 1 && |c| == |kc| + 1
    ensures Weave(a + c, ka + [k] + kc) == Weave(a, ka) + [k] + Weave(c, kc)
  {
    hide Weave;
    WeaveSplit(a + c, ka + [k] + kc, |ka|);
    assert (a + c)[..|ka| + 1] == a && (a + c)[|ka| + 1..] == c;
    assert (ka + [k] + kc)[..|ka|] == ka && (ka + [k] + kc)[|ka| + 1..] == kc;
  }

  lemma MergedOrder(c: Tree, k: int, s: Tree)
    requires |c.dead| > |s.live| && (c.Leaf? <==> s.Leaf?)
    requires c.Node? ==> |c.kids| == |c.live| + 1 && |s.kids| == |s.live| + 1
    ensures InOrder(Merged(c, k, s)) == InOrder(c) + [k] + InOrder(s)
  {
    hide Weave;
    if c.Node? { WeaveJoin(c.kids, c.live, k, s.kids, s.live); }
  }

  /** Changing two children and the key between them without changing their joint order. */
  lemma PairReplaced(p: Tree, i: nat, l: Tree, m: int, r: Tree)
    requires p.Node? && |p.kids| == |p.live| + 1 && i < |p.live|
    requires InOrder(l) + [m] + InOrder(r) == InOrder(p.kids[i]) + [p.live[i]] + InOrder(p.kids[i + 1])
    ensures InOrder(p.(live := p.live[i := m], kids := p.kids[i := l][i + 1 := r])) == InOrder(p)
  {
    hide InOrder, Weave, Pairs, Rest;
    var kids', live' := p.kids[i := l][i + 1 := r], p.live[i := m];
    PairFocus(p.live, p.kids, i);
    PairFocus(live', kids', i);
    assert kids'[..i] == p.kids[..i] && kids'[i + 2..] == p.kids[i + 2..];
    assert live'[..i] == p.live[..i] && live'[i + 1..] == p.live[i + 1..];
    NodeOrder(p);
    NodeOrder(p.(live := live', kids := kids'));
  }

  lemma BorrowRightOrder(p: Tree, e: nat, b: nat, h: nat)
    requires Siblings(p, e, b, h) && |p.kids[e].live| < 2 * b - 1 && |p.kids[e + 1].live| > 0
    ensures InOrder(BorrowRight(p, e, b, h)) == InOrder(p)
  {
    hide InOrder, Weave;
    SiblingFacts(p, e, b, h);
    var c, s := p.kids[e], p.kids[e + 1];
    var r := BorrowRight(p, e, b, h);
    RightMoved(c, p.live[e], s, r.kids[e], r.kids[e + 1]);
    PairReplaced(p, e, r.kids[e], s.live[0], r.kids[e + 1]);
  }

  /** Two nodes of the same kind, with one child more than keys if they have children. */
  ghost predicate Alike(c: Tree, s: Tree) {
    if c.Leaf? then s.Leaf? else s.Node? && |c.kids| == |c.live| + 1 && |s.kids| == |s.live| + 1
  }

  /** The first child of s, if there are children, has become the last of c. */
  ghost predicate KidMovedLeft(c: Tree, s: Tree, c': Tree, s': Tree)
    requires Alike(c, s)
  {
    if c.Leaf? then c'.Leaf? && s'.Leaf?
    else c'.Node? && s'.Node? && c'.kids == c.kids + [s.kids[0]] && s'.kids == s.kids[1..]
  }

  /** The last child of s, if there are children, has become the first of c. */
  ghost predicate KidMovedRight(s: Tree, c: Tree, s': Tree, c': Tree)
    requires Alike(c, s)
  {
    if c.Leaf? then c'.Leaf? && s'.Leaf?
    else
      var n := |s.live|;
      c'.Node? && s'.Node? && c'.kids == [s.kids[n]] + c.kids && s'.kids == s.kids[..n]
  }

  lemma RightMoved(c: Tree, k: int, s: Tree, c': Tree, s': Tree)
    requires s.live != [] && Alike(c, s) && KidMovedLeft(c, s, c', s')
    requires c'.live == c.live + [k]
    requires s'.live == s.live[1..]
    ensures InOrder(c') + [s.live[0]] + InOrder(s') == InOrder(c) + [k] + InOrder(s)
  {
    hide Weave;
    if c.Node? {
      RightMovedKids(c.kids, c.live, k, s.kids, s.live);
    } else {
      RightMovedKeys(c.live, k, s.live);
    }
  }

  lemma RightMovedKeys(c: seq<int>, k: int, s: seq<int>)
    requires s != []
    ensures c + [k] + [s[0]] + s[1..] == c + [k] + s
  {
  }

  lemma RightMovedKids(ck: seq<Tree>, c: seq<int>, k: int, sk: seq<Tree>, s: seq<int>)
    requires s != [] && |ck| == |c| + 1 && |sk| == |s| + 1
    ensures Weave(ck + [sk[0]], c + [k]) + [s[0]] + Weave(sk[1..], s[1..]) == Weave(ck, c) + [k] + Weave(sk, s)
  {
    hide Weave, InOrder;
    var y, x := sk[0], s[0];
    WeaveOne(y);
    WeaveJoin(ck, c, k, [y], []);
    NothingAdded(c + [k]);
    WeaveJoin([y], [], x, sk[1..], s[1..]);
    FirstAndRest(sk);
    FirstAndRest(s);
    NothingBefore([x]);
    Reassociate(Weave(ck, c), [k], InOrder(y), [x], Weave(sk[1..], s[1..]));
  }

  lemma FirstAndRest<T>(s: seq<T>)
    requires s != []
    ensures [s[0]] + s[1..] == s
  {
  }

  lemma LastAndRest<T>(s: seq<T>)
    requires s != []
    ensures s[..|s| - 1] + [s[|s| - 1]] == s
  {
  }

  lemma NothingBefore<T>(s: seq<T>)
    ensures [] + s == s
  {
  }

  lemma Reassociate(a: seq<int>, b: seq<int>, c: seq<int>, d: seq<int>, e: seq<int>)
    ensures (a + b + c) + d + e == a + b + (c + d + e)
  {
  }

  /** What borrow_from_left changes. */
  lemma BorrowLeftParts(p: Tree, e: nat, b: nat, h: nat)
    requires e > 0 && Siblings(p, e - 1, b, h) && |p.kids[e].live| < 2 * b - 1 && |p.kids[e - 1].live| > 0
    ensures |p.kids| == |p.live| + 1
    ensures var (s, c) := (p.kids[e - 1], p.kids[e]);
            var r := BorrowLeft(p, e, b, h);
            && r.Node? && |r.kids| == |p.kids|
            && r == p.(live := p.live[e - 1 := s.live[|s.live| - 1]],
                       kids := p.kids[e - 1 := r.kids[e - 1]][e := r.kids[e]])
            && Alike(c, s) && KidMovedRight(s, c, r.kids[e - 1], r.kids[e])
            && r.kids[e].live == [p.live[e - 1]] + c.live && r.kids[e - 1].live == s.live[..|s.live| - 1]
  {
    hide WellFormed;
    SiblingFacts(p, e - 1, b, h);
  }

  lemma BorrowLeftOrder(p: Tree, e: nat, b: nat, h: nat)
    requires e > 0 && Siblings(p, e - 1, b, h) && |p.kids[e].live| < 2 * b - 1 && |p.kids[e - 1].live| > 0
    ensures InOrder(BorrowLeft(p, e, b, h)) == InOrder(p)
  {
    hide InOrder, Weave, BorrowLeft, WellFormed;
    SiblingFacts(p, e - 1, b, h);
    BorrowLeftParts(p, e, b, h);
    hide Alike, KidMovedRight;
    var s, c := p.kids[e - 1], p.kids[e];
    var r := BorrowLeft(p, e, b, h);
    LeftMoved(s, p.live[e - 1], c, r.kids[e - 1], r.kids[e]);
    PairReplaced(p, e - 1, r.kids[e - 1], s.live[|s.live| - 1], r.kids[e]);
  }

  lemma LeftMoved(s: Tree, k: int, c: Tree, s': Tree, c': Tree)
    requires s.live != [] && Alike(c, s) && KidMovedRight(s, c, s', c')
    requires c'.live == [k] + c.live
    requires s'.live == s.live[..|s.live| - 1]
    ensures InOrder(s') + [s.live[|s.live| - 1]] + InOrder(c') == InOrder(s) + [k] + InOrder(c)
  {
    hide Weave;
    if c.Node? {
      LeftMovedKids(s.kids, s.live, k, c.kids, c.live);
    } else {
      LeftMovedKeys(s.live, k, c.live);
    }
  }

  lemma LeftMovedKeys(s: seq<int>, k: int, c: seq<int>)
    requires s != []
    ensures s[..|s| - 1] + [s[|s| - 1]] + ([k] + c) == s + [k] + c
  {
  }

  lemma LeftMovedKids(sk: seq<Tree>, s: seq<int>, k: int, ck: seq<Tree>, c: seq<int>)
    requires s != [] && |ck| == |c| + 1 && |sk| == |s| + 1
    ensures var n := |s| - 1;
            Weave(sk[..n + 1], s[..n]) + [s[n]] + Weave([sk[n + 1]] + ck, [k] + c) == Weave(sk, s) + [k] + Weave(ck, c)
  {
    hide Weave, InOrder;
    var n := |s| - 1;
    var y, x := sk[n + 1], s[n];
    WeaveOne(y);
    WeaveJoin([y], [], k, ck, c);
    NothingBefore([k]);
    WeaveJoin(sk[..n + 1], s[..n], x, [y], []);
    LastAndRest(sk);
    LastAndRest(s);
    NothingAdded(s[..n] + [x]);
    Reassociate(Weave(sk[..n + 1], s[..n]), [x], InOrder(y), [k], Weave(ck, c));
  }

  lemma MergeOrder(p: Tree, i: nat, b: nat, h: nat)
    requires Siblings(p, i, b, h) && |p.kids[i].live| + |p.kids[i + 1].live| + 1 <= 2 * b - 1
    ensures InOrder(MergeAt(p, i, b, h)) == InOrder(p)
  {
    hide InOrder, Weave, Pairs, Rest, Merged;
    SiblingFacts(p, i, b, h);
    var c := Merged(p.kids[i], p.live[i], p.kids[i + 1]);
    MergedOrder(p.kids[i], p.live[i], p.kids[i + 1]);
    PairFocus(p.live, p.kids, i);
    Focus(p.kids[..i], p.live[..i], c, p.kids[i + 2..], p.live[i + 1..]);
    NodeOrder(p);
    NodeOrder(MergeAt(p, i, b, h));
  }

  // The shapes they leave.

  /** Kids of a node of height h. */
  ghost predicate Kids(kids: seq<Tree>, b: nat, h: nat) {
    forall i :: 0 <= i < |kids| ==> Kid(kids[i], b, h)
  }

  lemma LikeShape(t: Tree, live: seq<int>, dead: seq<int>, kids: seq<Tree>, b: nat, h: nat)
    requires |live| + |dead| == 2 * b - 1 && (t.Leaf? <==> h == 0)
    requires h > 0 ==> |kids| == |live| + 1 && Kids(kids, b, h - 1)
    ensures WellFormed(Like(t, live, dead, kids), b, h) && (|live| >= b - 1 ==> Kid(Like(t, live, dead, kids), b, h))
  {
  }

  lemma KidKids(t: Tree, b: nat, h: nat)
    requires Kid(t, b, h) && t.Node?
    ensures h > 0 && Kids(t.kids, b, h - 1)
  {
  }

  lemma KidsConcat(a: seq<Tree>, c: seq<Tree>, b: nat, h: nat)
    ensures Kids(a + c, b, h) <==> Kids(a, b, h) && Kids(c, b, h)
  {
    var s := a + c;
    assert forall i :: 0 <= i < |a| ==> s[i] == a[i];
    assert forall i :: 0 <= i < |c| ==> s[|a| + i] == c[i];
  }

  lemma BorrowRightShape(p: Tree, e: nat, b: nat, h: nat)
    requires Siblings(p, e, b, h) && |p.kids[e].live| == b - 1 && |p.kids[e + 1].live| > b - 1
    ensures WellFormed(BorrowRight(p, e, b, h), b, h) && |BorrowRight(p, e, b, h).kids[e].live| == b
  {
    SiblingFacts(p, e, b, h);
    var c, s := p.kids[e], p.kids[e + 1];
    var r := BorrowRight(p, e, b, h);
    if c.Node? {
      KidKids(c, b, h - 1);
      KidKids(s, b, h - 1);
    }
    KidShows(c, b, h - 1);
    KidShows(s, b, h - 1);
    LikeShape(c, c.live + [p.live[e]], c.dead[1..], if c.Leaf? then [] else c.kids + [s.kids[0]], b, h - 1);
    LikeShape(c, s.live[1..], [s.live[|s.live| - 1]] + s.dead, if c.Leaf? then [] else s.kids[1..], b, h - 1);
    PairShape(p, e, b, h, r.kids[e], s.live[0], r.kids[e + 1]);
  }

  lemma PairShape(p: Tree, i: nat, b: nat, h: nat, l: Tree, m: int, r: Tree)
    requires Siblings(p, i, b, h) && h > 0 && Kid(l, b, h - 1) && Kid(r, b, h - 1) && |p.kids| == |p.live| + 1
    ensures WellFormed(p.(live := p.live[i := m], kids := p.kids[i := l][i + 1 := r]), b, h)
  {
    var kids := p.kids[i := l][i + 1 := r];
    forall j | 0 <= j < |kids| ensures Kid(kids[j], b, h - 1) {
      if j != i && j != i + 1 { assert Kid(p.kids[j], b, h - 1); }
    }
  }

  lemma BorrowLeftShape(p: Tree, e: nat, b: nat, h: nat)
    requires e > 0 && Siblings(p, e - 1, b, h) && |p.kids[e].live| == b - 1 && |p.kids[e - 1].live| > b - 1
    ensures WellFormed(BorrowLeft(p, e, b, h), b, h) && |BorrowLeft(p, e, b, h).kids[e].live| == b
  {
    hide Like, Kids, Kid, WellFormed;
    SiblingFacts(p, e - 1, b, h);
    var s, c := p.kids[e - 1], p.kids[e];
    var n := |s.live| - 1;
    var r := BorrowLeft(p, e, b, h);
    if c.Node? {
      KidKids(c, b, h - 1);
      KidKids(s, b, h - 1);
      LastAndRest(s.kids);
      KidsConcat(s.kids[..n + 1], [s.kids[n + 1]], b, h - 2);
      KidsConcat([s.kids[n + 1]], c.kids, b, h - 2);
    }
    KidShows(c, b, h - 1);
    KidShows(s, b, h - 1);
    var (ck, sk) := if c.Leaf? then ([], []) else ([s.kids[n + 1]] + c.kids, s.kids[..n + 1]);
    LikeShape(c, [p.live[e - 1]] + c.live, c.dead[1..], ck, b, h - 1);
    LikeShape(c, s.live[..n], [s.live[n]] + s.dead, sk, b, h - 1);
    LikeLive(c, [p.live[e - 1]] + c.live, c.dead[1..], ck);
    assert r.kids[e] == Like(c, [p.live[e - 1]] + c.live, c.dead[1..], ck);
    assert r.kids[e - 1] == Like(c, s.live[..n], [s.live[n]] + s.dead, sk);
    PairShape(p, e - 1, b, h, r.kids[e - 1], s.live[n], r.kids[e]);
  }

  lemma MergeShape(p: Tree, i: nat, b: nat, h: nat)
    requires Siblings(p, i, b, h) && |p.kids[i].live| == b - 1 == |p.kids[i + 1].live|
    ensures WellFormed(MergeAt(p, i, b, h), b, h) && |MergeAt(p, i, b, h).kids[i].live| == 2 * b - 1
  {
    hide Like;
    SiblingFacts(p, i, b, h);
    var c, s := p.kids[i], p.kids[i + 1];
    var r := MergeAt(p, i, b, h);
    if c.Node? {
      KidKids(c, b, h - 1);
      KidKids(s, b, h - 1);
    }
    KidShows(c, b, h - 1);
    KidShows(s, b, h - 1);
    LikeShape(c, c.live + [p.live[i]] + s.live, c.dead[|s.live| + 1..], if c.Leaf? || s.Leaf? then []
      else c.kids + s.kids, b, h - 1);
    LikeLive(c, c.live + [p.live[i]] + s.live, c.dead[|s.live| + 1..], if c.Leaf? || s.Leaf? then []
      else c.kids + s.kids);
    forall j | 0 <= j < |r.kids| ensures Kid(r.kids[j], b, h - 1) {
      if j < i { assert r.kids[j] == p.kids[j]; }
      if j > i { assert r.kids[j] == p.kids[j + 1]; }
    }
  }

  lemma LikeLive(t: Tree, live: seq<int>, dead: seq<int>, kids: seq<Tree>)
    ensures Like(t, live, dead, kids).live == live
  {
  }

  // The descent.

  ghost predicate MayRelieve(t: Tree, b: nat, h: nat) {
    b >= 2 && t.Node? && WellFormed(t, b, h) && |t.live| >= 1
  }

  /** The node as remove leaves it before descending: a child with only B - 1 keys borrows one
      from a sibling that can spare it, or is merged with one. */
  function Relieved(t: Tree, k: int, b: nat, ghost h: nat): Tree
    requires MayRelieve(t, b, h)
  {
    var e := GetIndex(t.live, k);
    var n := |t.live|;
    SparseFacts(t, e, b, h);
    if |t.kids[e].live| <= b - 1 then
      if e < n && |t.kids[e + 1].live| > b - 1 then BorrowRight(t, e, b, h)
      else if e > 0 && |t.kids[e - 1].live| > b - 1 then BorrowLeft(t, e, b, h)
      else MergeAt(t, if e == n then e - 1 else e, b, h)
    else t
  }

  lemma SparseFacts(t: Tree, e: nat, b: nat, h: nat)
    requires MayRelieve(t, b, h) && e <= |t.live|
    ensures h > 0 && |t.kids| == |t.live| + 1 && |t.kids[e].live| >= b - 1
    ensures e < |t.live| ==> Siblings(t, e, b, h) && |t.kids[e + 1].live| >= b - 1
    ensures e > 0 ==> Siblings(t, e - 1, b, h) && |t.kids[e - 1].live| >= b - 1
  {
    KidAt(t, b, h, e);
    KidShows(t.kids[e], b, h - 1);
    if e < |t.live| { SiblingFacts(t, e, b, h); KidShows(t.kids[e + 1], b, h - 1); }
    if e > 0 { SiblingFacts(t, e - 1, b, h); KidShows(t.kids[e - 1], b, h - 1); }
  }

  ghost predicate AllBelow(s: seq<int>, k: int) { forall x :: x in s ==> x < k }

  ghost predicate AllAbove(s: seq<int>, k: int) { forall x :: x in s ==> k < x }

  /** Keys separate what hangs to their left and right. */
  lemma Separates(t: Tree, i: nat, b: nat, h: nat)
    requires Siblings(t, i, b, h) && Sorted(InOrder(t))
    ensures |t.kids| == |t.live| + 1 && Sorted(t.live)
    ensures AllBelow(t.kids[i].live, t.live[i]) && AllAbove(t.kids[i + 1].live, t.live[i])
  {
    hide InOrder, Weave, Pairs, Rest;
    SiblingFacts(t, i, b, h);
    LiveInOrder(t);
    var l, r := t.kids[i], t.kids[i + 1];
    PairFocus(t.live, t.kids, i);
    NodeOrder(t);
    SortedParts(Pairs(t.kids[..i], t.live[..i]), InOrder(l) + [t.live[i]] + InOrder(r),
      Rest(t.kids[i + 2..], t.live[i + 1..]));
    SortedParts(InOrder(l), [t.live[i]], InOrder(r));
    LiveInOrder(l);
    LiveInOrder(r);
    assert t.live[i] in [t.live[i]];
  }

  lemma UpdatedIndex(s: seq<int>, i: nat, x: int, k: int)
    requires i < |s| && ((GetIndex(s, k) == i && x >= k) || (GetIndex(s, k) == i + 1 && x < k))
    ensures GetIndex(s[i := x], k) == GetIndex(s, k)
  {
    hide GetIndex;
    GetIndexIs(s[i := x], k, GetIndex(s, k));
  }

  lemma CutIndex(s: seq<int>, i: nat, k: int)
    requires i < |s| && Sorted(s) && (GetIndex(s, k) == i || GetIndex(s, k) == i + 1 == |s|)
    ensures GetIndex(s[..i] + s[i + 1..], k) == i
  {
    hide GetIndex;
    var t := s[..i] + s[i + 1..];
    assert forall j :: 0 <= j < i ==> t[j] == s[j];
    assert i < |t| ==> t[i] == s[i + 1];
    GetIndexIs(t, k, i);
  }

  /** p is t rearranged, and the child that the search for k enters can lose a key. */
  ghost predicate Relieves(t: Tree, p: Tree, k: int, b: nat, h: nat) {
    && p.Node? && WellFormed(p, b, h) && h > 0 && InOrder(p) == InOrder(t) && |p.live| >= |t.live| - 1
    && |p.kids| == |p.live| + 1 && |p.kids[GetIndex(p.live, k)].live| >= b
  }

  lemma RightRelieves(t: Tree, k: int, b: nat, h: nat)
    requires MayRelieve(t, b, h) && Sorted(InOrder(t))
    requires var e := GetIndex(t.live, k);
      e < |t.live| && |t.kids| == |t.live| + 1 && |t.kids[e].live| == b - 1 && |t.kids[e + 1].live| > b - 1
    ensures Relieves(t, BorrowRight(t, GetIndex(t.live, k), b, h), k, b, h)
  {
    hide InOrder, GetIndex, Sorted;
    var e := GetIndex(t.live, k);
    SiblingFacts(t, e, b, h);
    BorrowRightOrder(t, e, b, h);
    BorrowRightShape(t, e, b, h);
    Separates(t, e, b, h);
    var x := t.kids[e + 1].live[0];
    assert x in t.kids[e + 1].live;
    UpdatedIndex(t.live, e, x, k);
  }

  lemma BorrowLeftLive(t: Tree, e: nat, b: nat, h: nat)
    requires e > 0 && Siblings(t, e - 1, b, h) && |t.kids[e].live| < 2 * b - 1 && |t.kids[e - 1].live| > 0
    ensures var p := BorrowLeft(t, e, b, h);
            var s := t.kids[e - 1];
            p.Node? && p.live == t.live[e - 1 := s.live[|s.live| - 1]] && |p.kids| == |t.kids|
  {
  }

  lemma LeftRelieves(t: Tree, k: int, b: nat, h: nat)
    requires MayRelieve(t, b, h) && Sorted(InOrder(t))
    requires var e := GetIndex(t.live, k);
      e > 0 && |t.kids| == |t.live| + 1 && |t.kids[e].live| == b - 1 && |t.kids[e - 1].live| > b - 1
    ensures Relieves(t, BorrowLeft(t, GetIndex(t.live, k), b, h), k, b, h)
  {
    hide InOrder, GetIndex, Sorted, BorrowLeft;
    var e := GetIndex(t.live, k);
    SiblingFacts(t, e - 1, b, h);
    BorrowLeftOrder(t, e, b, h);
    BorrowLeftShape(t, e, b, h);
    BorrowLeftLive(t, e, b, h);
    Separates(t, e - 1, b, h);
    var x := t.kids[e - 1].live[|t.kids[e - 1].live| - 1];
    assert x in t.kids[e - 1].live;
    UpdatedIndex(t.live, e - 1, x, k);
  }

  lemma MergeRelieves(t: Tree, i: nat, k: int, b: nat, h: nat)
    requires MayRelieve(t, b, h) && Sorted(InOrder(t))
    requires var e := GetIndex(t.live, k); i == if e == |t.live| then e - 1 else e
    requires |t.kids| == |t.live| + 1 && |t.kids[i].live| == b - 1 == |t.kids[i + 1].live|
    ensures Relieves(t, MergeAt(t, i, b, h), k, b, h)
  {
    hide InOrder, GetIndex, Sorted, Merged;
    SiblingFacts(t, i, b, h);
    MergeOrder(t, i, b, h);
    MergeShape(t, i, b, h);
    Separates(t, i, b, h);
    CutIndex(t.live, i, k);
  }

  /** Relieving keeps the order and the shape, and the child then entered can lose a key. */
  lemma RelievedFacts(t: Tree, k: int, b: nat, h: nat)
    requires MayRelieve(t, b, h) && Sorted(InOrder(t))
    ensures Relieves(t, Relieved(t, k, b, h), k, b, h)
  {
    hide InOrder, GetIndex, BorrowRight, BorrowLeft, MergeAt, Sorted;
    var e := GetIndex(t.live, k);
    var n := |t.live|;
    SparseFacts(t, e, b, h);
    if |t.kids[e].live| <= b - 1 {
      if e < n && |t.kids[e + 1].live| > b - 1 {
        RightRelieves(t, k, b, h);
      } else if e > 0 && |t.kids[e - 1].live| > b - 1 {
        LeftRelieves(t, k, b, h);
      } else {
        MergeRelieves(t, if e == n then e - 1 else e, k, b, h);
      }
    }
  }

  // Removal.

  function RightmostKey(t: Tree, b: nat, ghost h: nat): int
    requires b >= 2 && Kid(t, b, h)
    decreases h
  {
    KidShows(t, b, h);
    if t.Leaf? then t.live[|t.live| - 1]
    else
      KidAt(t, b, h, |t.live|);
      RightmostKey(t.kids[|t.live|], b, h - 1)
  }

  lemma {:induction false} RightmostIsLast(t: Tree, b: nat, h: nat)
    requires b >= 2 && Kid(t, b, h)
    ensures InOrder(t) != [] && InOrder(t)[|InOrder(t)| - 1] == RightmostKey(t, b, h)
    decreases h
  {
    hide Pairs;
    KidShows(t, b, h);
    if t.Node? {
      KidAt(t, b, h, |t.live|);
      RightmostIsLast(t.kids[|t.live|], b, h - 1);
    }
  }

  /** A key to remove is there, and the node can lose one. */
  ghost predicate MayRemove(t: Tree, k: int, b: nat, h: nat) {
    b >= 2 && WellFormed(t, b, h) && Sorted(InOrder(t)) && k in InOrder(t) && |t.live| >= 1
  }

  /** What remove goes on to take out of the child it enters. */
  function Target(p: Tree, k: int, b: nat, ghost h: nat): int
    requires p.Node? && WellFormed(p, b, h) && b >= 2
  {
    var j := GetIndex(p.live, k);
    KidAt(p, b, h, j);
    if j < |p.live| && p.live[j] == k then RightmostKey(p.kids[j], b, h - 1) else k
  }

  lemma EntersKid(t: Tree, k: int, b: nat, h: nat)
    requires MayRemove(t, k, b, h) && t.Node?
    ensures var p := Relieved(t, k, b, h);
            && Relieves(t, p, k, b, h)
            && MayRemove(p.kids[GetIndex(p.live, k)], Target(p, k, b, h), b, h - 1)
  {
    hide InOrder, GetIndex, Relieved, Weave, Pairs, Rest, RightmostKey;
    RelievedFacts(t, k, b, h);
    var p := Relieved(t, k, b, h);
    var j := GetIndex(p.live, k);
    KidAt(p, b, h, j);
    Surroundings(p, k, b, h);
    var (a, m, r) := (Pairs(p.kids[..j], p.live[..j]), InOrder(p.kids[j]), Rest(p.kids[j + 1..], p.live[j..]));
    SortedParts(a, m, r);
    if j < |p.live| && p.live[j] == k {
      RightmostIsLast(p.kids[j], b, h - 1);
    } else {
      InTheMiddle(a, m, r, k);
    }
  }

  lemma InTheMiddle(a: seq<int>, m: seq<int>, r: seq<int>, k: int)
    requires Sorted(a + m + r) && k in a + m + r && (forall x :: x in a ==> x < k) && (r == [] || r[0] > k)
    ensures k in m
  {
    SortedParts(a, m, r);
    assert forall i :: 0 <= i < |r| ==> r[i] > k;
  }

  /** BTreeNode::remove for a key that is present. */
  function Remove(t: Tree, k: int, b: nat, ghost h: nat): Tree
    requires MayRemove(t, k, b, h)
    decreases h
  {
    if t.Leaf? then
      IndexOfMember(t.live, k);
      var i := GetIndex(t.live, k);
      Leaf(t.live[..i] + t.live[i + 1..], [BLANK] + t.dead)
    else
      EntersKid(t, k, b, h);
      var p := Relieved(t, k, b, h);
      var j := GetIndex(p.live, k);
      var x := Target(p, k, b, h);
      var c := Remove(p.kids[j], x, b, h - 1);
      p.(live := if j < |p.live| && p.live[j] == k then p.live[j := x] else p.live, kids := p.kids[j := c])
  }

  lemma {:induction false} RemoveShape(t: Tree, k: int, b: nat, h: nat)
    requires MayRemove(t, k, b, h)
    ensures WellFormed(Remove(t, k, b, h), b, h) && |Remove(t, k, b, h).live| >= |t.live| - 1
    decreases h
  {
    hide Relieved, GetIndex, Target, InOrder, Sorted;
    if t.Node? {
      EntersKid(t, k, b, h);
      var p := Relieved(t, k, b, h);
      var j := GetIndex(p.live, k);
      var x := Target(p, k, b, h);
      RemoveShape(p.kids[j], x, b, h - 1);
      var c := Remove(p.kids[j], x, b, h - 1);
      KidReplaced(p, j, c, b, h);
      if j < |p.live| && p.live[j] == k { KeyReplaced(p.(kids := p.kids[j := c]), j, x, b, h); }
    } else {
      LeafRemoval(t, k, b, h);
    }
  }

  lemma LeafRemoval(t: Tree, k: int, b: nat, h: nat)
    requires MayRemove(t, k, b, h) && t.Leaf?
    ensures WellFormed(Remove(t, k, b, h), b, h) && |Remove(t, k, b, h).live| == |t.live| - 1
    ensures InOrder(Remove(t, k, b, h)) == Without(InOrder(t), k)
  {
  }

  lemma KeyReplaced(p: Tree, j: nat, x: int, b: nat, h: nat)
    requires p.Node? && WellFormed(p, b, h) && j < |p.live|
    ensures WellFormed(p.(live := p.live[j := x]), b, h)
  {
  }

  /** Exactly the given key leaves the in-order sequence. */
  lemma {:induction false} RemoveOrder(t: Tree, k: int, b: nat, h: nat)
    requires MayRemove(t, k, b, h)
    ensures InOrder(Remove(t, k, b, h)) == Without(InOrder(t), k)
    decreases h
  {
    hide Relieved, GetIndex, InOrder, Weave, Pairs, Rest, Without, RightmostKey, Sorted;
    if t.Leaf? {
      LeafRemoval(t, k, b, h);
    } else {
      EntersKid(t, k, b, h);
      var p := Relieved(t, k, b, h);
      var j := GetIndex(p.live, k);
      var x := Target(p, k, b, h);
      KidAt(p, b, h, j);
      RemoveOrder(p.kids[j], x, b, h - 1);
      var c := Remove(p.kids[j], x, b, h - 1);
      if j < |p.live| && p.live[j] == k {
        RightmostIsLast(p.kids[j], b, h - 1);
        PredecessorMovedUp(p, j, k, x, c);
      } else {
        KidLoses(p, k, b, h, c);
      }
    }
  }

  /** A key that leaves the child entered leaves the node. */
  lemma KidLoses(p: Tree, k: int, b: nat, h: nat, c: Tree)
    requires p.Node? && WellFormed(p, b, h) && |p.kids| == |p.live| + 1 && Sorted(InOrder(p))
    requires var m := InOrder(p.kids[GetIndex(p.live, k)]); Sorted(m) && k in m && InOrder(c) == Without(m, k)
    ensures k in InOrder(p) && InOrder(p.(kids := p.kids[GetIndex(p.live, k) := c])) == Without(InOrder(p), k)
  {
    hide GetIndex, InOrder, Weave, Pairs, Rest, Without, Sorted;
    var j := GetIndex(p.live, k);
    Surroundings(p, k, b, h);
    WithoutInside(Pairs(p.kids[..j], p.live[..j]), InOrder(p.kids[j]), Rest(p.kids[j + 1..], p.live[j..]), k);
    ChildFocus(p.live, p.kids, j, c);
    NodeOrder(p.(kids := p.kids[j := c]));
  }

  /** The key gives way to its predecessor, which leaves the child. */
  lemma PredecessorMovedUp(p: Tree, j: nat, k: int, x: int, c: Tree)
    requires p.Node? && |p.kids| == |p.live| + 1 && j < |p.live| && p.live[j] == k && Sorted(InOrder(p))
    requires var m := InOrder(p.kids[j]);
      m != [] && m[|m| - 1] == x && Sorted(m) && x in m && InOrder(c) == Without(m, x)
    ensures k in InOrder(p) && InOrder(p.(live := p.live[j := x], kids := p.kids[j := c])) == Without(InOrder(p), k)
  {
    hide InOrder, Weave, Pairs, Rest;
    var m := InOrder(p.kids[j]);
    var a, r, tail := Pairs(p.kids[..j], p.live[..j]), InOrder(p.kids[j + 1]), Rest(p.kids[j + 2..], p.live[j + 1..]);
    var live', kids' := p.live[j := x], p.kids[j := c];
    PairFocus(p.live, p.kids, j);
    PairFocus(live', kids', j);
    assert live'[..j] == p.live[..j] && live'[j + 1..] == p.live[j + 1..] && kids'[..j] == p.kids[..j]
      && kids'[j + 2..] == p.kids[j + 2..];
    NodeOrder(p);
    NodeOrder(p.(live := live', kids := kids'));
    LastOut(m, x);
    KeyOut(a, m, k, r, tail);
  }

  lemma LastOut(m: seq<int>, x: int)
    requires Sorted(m) && m != [] && m[|m| - 1] == x
    ensures x in m && Without(m, x) + [x] == m
  {
    GetIndexIs(m, x, |m| - 1);
  }

  lemma KeyOut(a: seq<int>, m: seq<int>, k: int, r: seq<int>, tail: seq<int>)
    requires Sorted(a + (m + [k] + r) + tail)
    ensures k in a + (m + [k] + r) + tail && Without(a + (m + [k] + r) + tail, k) == a + (m + r) + tail
  {
    var mid := m + [k] + r;
    KeyIn(m, k, r);
    hide *;
    WithoutInside(a, mid, tail, k);
    KeyOutOfMiddle(m, k, r);
  }

  lemma KeyIn(m: seq<int>, k: int, r: seq<int>)
    ensures k in m + [k] + r
  {
    assert (m + [k] + r)[|m|] == k;
  }

  lemma KeyOutOfMiddle(m: seq<int>, k: int, r: seq<int>)
    requires Sorted(m + [k] + r)
    ensures k in m + [k] + r && Without(m + [k] + r, k) == m + r
  {
    var mid := m + [k] + r;
    KeyIn(m, k, r);
    SortedParts(m, [k], r);
    assert k in [k];
    assert forall i :: 0 <= i < |m| ==> m[i] in m;
    GetIndexIs(mid, k, |m|);
    assert mid[..|m|] == m && mid[|m| + 1..] == r;
  }
}
