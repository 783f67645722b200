/** Spanning trees of an undirected multigraph: connectivity by cuts, and the exchange
    argument behind greedy tree growth. */
module SpanningTrees {
  import opened FiniteSets
  import opened Graphs

  predicate Crosses(e: Edge, cut: set<nat>) {
    (e.src in cut) != (e.dst in cut)
  }

  /** The cut separates two members of s. */
  ghost predicate Splits(cut: set<nat>, s: set<nat>) {
    s * cut != {} && s - cut != {}
  }

  predicate Within(e: Edge, s: set<nat>) {
    e.src in s && e.dst in s
  }

  /** Some edge of t inside s crosses the cut. */
  ghost predicate CrossedIn(t: seq<Edge>, s: set<nat>, cut: set<nat>) {
    exists i :: 0 <= i < |t| && Within(t[i], s) && Crosses(t[i], cut)
  }

  /** The edges of t connect s: every cut of s is crossed inside s. */
  ghost predicate Connects(t: seq<Edge>, s: set<nat>) {
    forall cut :: Splits(cut, s) ==> CrossedIn(t, s, cut)
  }

  /** A walk in t from a to b that stays inside s, each edge taken in either direction. */
  ghost predicate Walk(t: seq<Edge>, s: set<nat>, p: seq<nat>, a: nat, b: nat) {
    && p != [] && p[0] == a && p[|p| - 1] == b
    && (forall k :: 0 <= k < |p| ==> p[k] in s)
    && forall k :: 0 <= k < |p| - 1 ==> Joined(t, p[k], p[k + 1])
  }

  ghost predicate Joined(t: seq<Edge>, x: nat, y: nat) {
    exists i :: 0 <= i < |t| && ((t[i].src == x && t[i].dst == y) || (t[i].src == y && t[i].dst == x))
  }

  /** Cut connectivity is path connectivity. */
  lemma ConnectsMeansWalks(t: seq<Edge>, s: set<nat>)
    ensures Connects(t, s) <==> forall a, b :: a in s && b in s ==> exists p :: Walk(t, s, p, a, b)
  {
    if Connects(t, s) {
      forall a, b | a in s && b in s ensures exists p :: Walk(t, s, p, a, b) {
        ConnectedWalk(t, s, a, b);
      }
    }
    if forall a, b :: a in s && b in s ==> exists p :: Walk(t, s, p, a, b) {
      forall cut | Splits(cut, s) ensures CrossedIn(t, s, cut) {
        var a :| a in s * cut;
        var b :| b in s - cut;
        var p :| Walk(t, s, p, a, b);
        WalkCrosses(t, s, p, a, b, cut);
      }
    }
  }

  lemma ConnectedWalk(t: seq<Edge>, s: set<nat>, a: nat, b: nat)
    requires Connects(t, s) && a in s && b in s
    ensures exists p :: Walk(t, s, p, a, b)
  {
    var reached := set x | x in s && exists p :: Walk(t, s, p, a, x);
    assert Walk(t, s, [a], a, a);
    if b !in reached {
      assert a in s * reached && b in s - reached;
      assert Splits(reached, s);
      var i :| 0 <= i < |t| && Within(t[i], s) && Crosses(t[i], reached);
      var (x, y) := if t[i].src in reached then (t[i].src, t[i].dst) else (t[i].dst, t[i].src);
      var p :| Walk(t, s, p, a, x);
      assert Joined(t, x, y);
      var q := p + [y];
      forall k | 0 <= k < |q| - 1 ensures Joined(t, q[k], q[k + 1]) {
        if k < |p| - 1 { assert Joined(t, p[k], p[k + 1]); }
      }
      assert Walk(t, s, q, a, y);
      assert false;
    }
  }

  lemma {:induction false} WalkCrosses(t: seq<Edge>, s: set<nat>, p: seq<nat>, a: nat, b: nat, cut: set<nat>)
    requires Walk(t, s, p, a, b) && a in cut && b !in cut
    ensures CrossedIn(t, s, cut)
    decreases |p|
  {
    assert |p| > 1;
    assert Joined(t, p[0], p[1]);
    if p[1] in cut {
      var q := p[1..];
      forall k | 0 <= k < |q| - 1 ensures Joined(t, q[k], q[k + 1]) {
        assert Joined(t, p[k + 1], p[k + 2]);
      }
      WalkCrosses(t, s, q, p[1], b, cut);
    } else {
      var i :| 0 <= i < |t| && ((t[i].src == p[0] && t[i].dst == p[1]) || (t[i].src == p[1] && t[i].dst == p[0]));
      assert Within(t[i], s) && Crosses(t[i], cut);
    }
  }

  /** A spanning tree of the undirected graph: n - 1 of its edges that connect every vertex. */
  ghost predicate IsSpanningTree(n: nat, edges: seq<Edge>, t: seq<Edge>) {
    && |t| == n - 1
    && (forall i :: 0 <= i < |t| ==> HasEdge(edges, true, t[i]))
    && Connects(t, UpTo(n))
  }

  lemma ConnectsMono(t: seq<Edge>, t': seq<Edge>, s: set<nat>)
    requires Connects(t, s) && forall e :: e in t ==> e in t'
    ensures Connects(t', s)
  {
    forall cut | Splits(cut, s) ensures CrossedIn(t', s, cut) {
      var i :| 0 <= i < |t| && Within(t[i], s) && Crosses(t[i], cut);
      assert t[i] in t';
      var j :| 0 <= j < |t'| && t'[j] == t[i];
    }
  }

  /** A connected set plus an edge to a new vertex is connected. */
  lemma ConnectsGrow(t: seq<Edge>, s: set<nat>, e: Edge)
    requires Connects(t, s) && e.src in s && e.dst !in s
    ensures Connects(t + [e], s + {e.dst})
  {
    var s' := s + {e.dst};
    var t' := t + [e];
    forall cut | Splits(cut, s') ensures CrossedIn(t', s', cut) {
      if Splits(cut, s) {
        var i :| 0 <= i < |t| && Within(t[i], s) && Crosses(t[i], cut);
        assert t'[i] == t[i] && Within(t'[i], s');
      } else {
        assert t'[|t|] == e && Within(e, s') && Crosses(e, cut);
      }
    }
  }

  /** m is closed under the edges of t that stay inside `room`. */
  ghost predicate ClosedIn(t: seq<Edge>, room: set<nat>, m: set<nat>) {
    forall i :: 0 <= i < |t| && Within(t[i], room) ==> (t[i].src in m <==> t[i].dst in m)
  }

  /** The component of v inside `room`: a smallest closed set around v. */
  ghost predicate IsComponent(t: seq<Edge>, room: set<nat>, v: nat, m: set<nat>) {
    && v in m && m <= room && ClosedIn(t, room, m)
    && forall d :: d < m && v in d ==> !ClosedIn(t, room, d)
  }

  lemma Component(t: seq<Edge>, room: set<nat>, v: nat, start: set<nat>) returns (m: set<nat>)
    requires v in start && start <= room && ClosedIn(t, room, start)
    ensures IsComponent(t, room, v, m)
    decreases |start|
  {
    if d :| d < start && v in d && ClosedIn(t, room, d) {
      ProperSubsetSmaller(d, start);
      m := Component(t, room, v, d);
    } else {
      m := start;
    }
  }

  lemma ProperSubsetSmaller(a: set<nat>, b: set<nat>)
    requires a < b
    ensures |a| < |b|
  {
    assert b == a + (b - a);
    assert |b| == |a| + |b - a|;
  }

  /** The exchange: adding an edge out of s to a connected t lets some other edge that
      leaves s go, provided the first k edges of t already connect s. */
  lemma Exchange(t: seq<Edge>, k: nat, s: set<nat>, all: set<nat>, e: Edge) returns (i: nat)
    requires Connects(t, all) && k <= |t| && s <= all
    requires Connects(t[..k], s) && forall j :: 0 <= j < k ==> Within(t[j], s)
    requires e.src in s && e.dst in all - s
    ensures k <= i < |t| && Within(t[i], all) && Crosses(t[i], s)
    ensures Connects(t[i := e], all)
  {
    var room := all - s;
    var v := e.dst;
    var m := Component(t, room, v, room);
    assert v in all * m && e.src in all - m;
    assert Splits(m, all);
    i :| 0 <= i < |t| && Within(t[i], all) && Crosses(t[i], m);
    var (a, b) := if t[i].src in m then (t[i].src, t[i].dst) else (t[i].dst, t[i].src);
    assert b in s;
    forall cut | Splits(cut, all) ensures CrossedIn(t[i := e], all, cut) {
      ExchangedStillCrossed(t, k, s, all, e, m, i, a, b, cut);
    }
  }

  lemma ExchangedStillCrossed(t: seq<Edge>, k: nat, s: set<nat>, all: set<nat>, e: Edge,
                              m: set<nat>, i: nat, a: nat, b: nat, cut: set<nat>)
    requires Connects(t, all) && k <= |t| && s <= all
    requires Connects(t[..k], s) && forall j :: 0 <= j < k ==> Within(t[j], s)
    requires e.src in s && e.dst in all - s
    requires IsComponent(t, all - s, e.dst, m)
    requires k <= i < |t| && a in m && b in s && t[i] in [Edge(a, b, t[i].w), Edge(b, a, t[i].w)]
    requires Splits(cut, all)
    ensures CrossedIn(t[i := e], all, cut)
  {
    var t' := t[i := e];
    var j :| 0 <= j < |t| && Within(t[j], all) && Crosses(t[j], cut);
    if j != i {
      assert t'[j] == t[j];
    } else if Crosses(e, cut) {
      assert t'[i] == e && Within(e, all);
    } else if Splits(cut, s) {
      var p :| 0 <= p < |t[..k]| && Within(t[..k][p], s) && Crosses(t[..k][p], cut);
      assert t'[p] == t[p] && Within(t[p], all);
    } else {
      var side := set x | x in m && (x in cut) == (e.dst in cut);
      assert forall x, y :: x in s && y in s && x in cut && y !in cut ==> x in s * cut && y in s - cut;
      assert (b in cut) == (e.src in cut) == (e.dst in cut);
      assert a in m && a !in side;
      assert side < m && e.dst in side;
      assert !ClosedIn(t, all - s, side);
      var p :| 0 <= p < |t| && Within(t[p], all - s) && !(t[p].src in side <==> t[p].dst in side);
      assert t[p].src in m <==> t[p].dst in m;
      assert p != i;
      assert t'[p] == t[p] && Within(t[p], all) && Crosses(t[p], cut);
    }
  }
}
