/** Prim's algorithm with a lazily cleaned priority queue. */
module Prim {
  import opened FiniteSets
  import opened Graphs
  import opened Optional
  import opened SpanningTrees

  /** Whatever spanning tree exists, one that begins with the edges `tree` is no heavier. */
  ghost predicate Promising(n: nat, edges: seq<Edge>, tree: seq<Edge>) {
    forall t :: IsSpanningTree(n, edges, t) ==> HasExtension(n, edges, tree, Weight(t))
  }

  ghost predicate HasExtension(n: nat, edges: seq<Edge>, tree: seq<Edge>, bound: real) {
    exists t :: IsSpanningTree(n, edges, t) && tree <= t && Weight(t) <= bound
  }

  ghost predicate IsMinimumSpanningTree(n: nat, edges: seq<Edge>, tree: seq<Edge>) {
    IsSpanningTree(n, edges, tree) && forall t :: IsSpanningTree(n, edges, t) ==> Weight(tree) <= Weight(t)
  }

  /** e is a lightest edge of the graph out of s. */
  ghost predicate LightestOut(edges: seq<Edge>, s: set<nat>, e: Edge) {
    && HasEdge(edges, true, e) && e.src in s && e.dst !in s
    && forall f :: HasEdge(edges, true, f) && f.src in s && f.dst !in s ==> e.w <= f.w
  }

  /** The tree grown so far: it connects s and is still extendable to a minimum. */
  ghost predicate Grown(n: nat, edges: seq<Edge>, tree: seq<Edge>, s: set<nat>) {
    && s <= UpTo(n) && |tree| == |s| - 1
    && (forall i :: 0 <= i < |tree| ==> HasEdge(edges, true, tree[i]) && Within(tree[i], s))
    && Connects(tree, s)
    && Promising(n, edges, tree)
  }

  /** The cut property: growing by a lightest outgoing edge keeps the promise. */
  lemma PromiseKept(n: nat, edges: seq<Edge>, tree: seq<Edge>, s: set<nat>, e: Edge)
    requires InRange(n, edges) && Grown(n, edges, tree, s) && LightestOut(edges, s, e)
    ensures Promising(n, edges, tree + [e])
  {
    hide IsSpanningTree, LightestOut, Connects, Weight;
    forall t | IsSpanningTree(n, edges, t) ensures HasExtension(n, edges, tree + [e], Weight(t)) {
      assert HasExtension(n, edges, tree, Weight(t));
      var t0 :| IsSpanningTree(n, edges, t0) && tree <= t0 && Weight(t0) <= Weight(t);
      var t1 := Swapped(n, edges, tree, s, e, t0);
      assert IsSpanningTree(n, edges, t1) && tree + [e] <= t1 && Weight(t1) <= Weight(t);
    }
  }

  /** t with its element i replaced by e, and e moved to directly behind the prefix `tree`. */
  ghost function Moved(tree: seq<Edge>, e: Edge, t: seq<Edge>, i: nat): (r: seq<Edge>)
    requires tree <= t && |tree| <= i < |t|
    ensures |r| == |t| && tree + [e] <= r
  {
    tree + [e] + (t[|tree|..i] + t[i + 1..])
  }

  /** One spanning tree beginning with `tree`, exchanged into one beginning with `tree + [e]`. */
  lemma Swapped(n: nat, edges: seq<Edge>, tree: seq<Edge>, s: set<nat>, e: Edge, t: seq<Edge>) returns (t': seq<Edge>)
    requires InRange(n, edges) && Grown(n, edges, tree, s) && LightestOut(edges, s, e)
    requires IsSpanningTree(n, edges, t) && tree <= t
    ensures IsSpanningTree(n, edges, t') && tree + [e] <= t' && Weight(t') <= Weight(t)
  {
    hide Connects, Promising, Weight, Moved, UpTo;
    var k, all := |tree|, UpTo(n);
    assert t[..k] == tree;
    assert e.dst in all;
    var i := Exchange(t, k, s, all, e);
    t' := Moved(tree, e, t, i);
    MovedMembers(tree, e, t, i);
    MovedWeight(tree, e, t, i);
    ConnectsMono(t[i := e], t', all);
    LighterThanCrossing(edges, s, e, t[i]);
    forall j | 0 <= j < |t'| ensures HasEdge(edges, true, t'[j]) {
      assert t'[j] in t';
      var p :| 0 <= p < |t| && t[i := e][p] == t'[j];
    }
  }

  lemma LighterThanCrossing(edges: seq<Edge>, s: set<nat>, e: Edge, f: Edge)
    requires LightestOut(edges, s, e) && HasEdge(edges, true, f) && Crosses(f, s)
    ensures e.w <= f.w
  {
    assert Reverse(Reverse(f)) == f;
    var g := if f.src in s then f else Reverse(f);
    assert HasEdge(edges, true, g) && g.src in s && g.dst !in s;
  }

  lemma MovedMembers(tree: seq<Edge>, e: Edge, t: seq<Edge>, i: nat)
    requires tree <= t && |tree| <= i < |t|
    ensures forall x :: x in Moved(tree, e, t, i) <==> x in t[i := e]
  {
    assert t[i := e] == tree + t[|tree|..i] + [e] + t[i + 1..];
  }

  lemma MovedWeight(tree: seq<Edge>, e: Edge, t: seq<Edge>, i: nat)
    requires tree <= t && |tree| <= i < |t|
    ensures Weight(Moved(tree, e, t, i)) == Weight(t) - t[i].w + e.w
  {
    hide Weight;
    var mid, tail := t[|tree|..i], t[i + 1..];
    CutAround(tree, t, i);
    WeightAround(t[..i], t[i], tail);
    WeightAround(tree, e, mid + tail);
    WeightAppend(mid, tail);
    WeightAppend(tree, mid);
  }

  lemma CutAround(tree: seq<Edge>, t: seq<Edge>, i: nat)
    requires tree <= t && |tree| <= i < |t|
    ensures t == t[..i] + [t[i]] + t[i + 1..] && t[..i] == tree + t[|tree|..i]
  {
  }

  lemma WeightAround(a: seq<Edge>, x: Edge, b: seq<Edge>)
    ensures Weight(a + [x] + b) == Weight(a) + x.w + Weight(b)
  {
    WeightAppend(a + [x], b);
    assert (a + [x])[..|a|] == a;
  }

  lemma GrowTree(n: nat, edges: seq<Edge>, tree: seq<Edge>, s: set<nat>, e: Edge)
    requires InRange(n, edges) && Grown(n, edges, tree, s) && LightestOut(edges, s, e)
    ensures Grown(n, edges, tree + [e], s + {e.dst})
  {
    PromiseKept(n, edges, tree, s, e);
    ConnectsGrow(tree, s, e);
  }

  lemma GrowFirst(n: nat, edges: seq<Edge>, src: nat)
    requires src < n
    ensures Grown(n, edges, [], {src})
  {
    forall t | IsSpanningTree(n, edges, t) ensures HasExtension(n, edges, [], Weight(t)) {
      assert [] <= t && Weight(t) <= Weight(t);
    }
    assert forall cut {:trigger Splits(cut, {src})} :: src in cut ==> {src} - cut == {};
  }

  // The loop's bookkeeping, over snapshots of its variables.

  /** A queue entry for an unvisited vertex is an edge of the graph out of s. */
  ghost predicate EntriesOk(edges: seq<Edge>, s: set<nat>, q: seq<Entry>, n: nat) {
    forall x :: x in q ==> x.v < n && (x.v !in s ==> EntryEdge(edges, s, x))
  }

  ghost predicate EntryEdge(edges: seq<Edge>, s: set<nat>, x: Entry) {
    x.from in s && x.to == x.v && x.w == -x.key && HasEdge(edges, true, Edge(x.from, x.to, x.w))
  }

  /** The queue holds the recorded distance of every unvisited vertex that has one. */
  ghost predicate Queued(s: set<nat>, q: seq<Entry>, distance: seq<Dist>) {
    forall v :: 0 <= v < |distance| && v !in s && distance[v].Fin? ==> QueuedAt(q, v, distance[v].d)
  }

  ghost predicate QueuedAt(q: seq<Entry>, v: nat, d: real) {
    exists x :: x in q && x.v == v && x.key == -d
  }

  /** The first `done` arcs of u have been relaxed. */
  ghost predicate RelaxedFrom(adj: Adjacency, s: set<nat>, distance: seq<Dist>, u: nat, done: nat)
    requires u < |adj| == |distance| && Closed(adj)
  {
    forall i :: 0 <= i < done && i < |adj[u]| && adj[u][i].to !in s ==> !Below(adj[u][i].w, distance[adj[u][i].to])
  }

  ghost predicate Relaxed(adj: Adjacency, s: set<nat>, except: set<nat>, distance: seq<Dist>)
    requires |adj| == |distance| && Closed(adj)
  {
    forall u: nat :: u in s && u !in except && u < |adj| ==> RelaxedFrom(adj, s, distance, u, |adj[u]|)
  }

  /** The top entry, when its vertex is unvisited, is a lightest edge out of s. */
  lemma TopIsLightest(adj: Adjacency, n: nat, edges: seq<Edge>, s: set<nat>, q: seq<Entry>, distance: seq<Dist>,
      top: Entry)
    requires Represents(adj, n, edges, true) && Closed(adj) && |distance| == n && s <= UpTo(n)
    requires EntriesOk(edges, s, q, n) && Queued(s, q, distance) && Relaxed(adj, s, {}, distance)
    requires top in q && top.v !in s && forall x :: x in q ==> !TupleLess(top, x)
    ensures LightestOut(edges, s, Edge(top.from, top.to, top.w))
  {
    hide Queued, Relaxed, Represents;
    assert EntryEdge(edges, s, top);
    forall f | HasEdge(edges, true, f) && f.src in s && f.dst !in s ensures top.w <= f.w {
      LeavingArcIsQueued(adj, n, edges, s, distance, q, f);
      var x :| x in q && x.v == f.dst && x.key >= -f.w;
      assert x.v !in s && !TupleLess(top, x);
    }
  }

  /** Once the queue is empty, the tree spans the graph exactly when the graph is connected. */
  lemma NothingLeft(adj: Adjacency, n: nat, edges: seq<Edge>, s: set<nat>, distance: seq<Dist>, tree: seq<Edge>)
    requires Represents(adj, n, edges, true) && Closed(adj) && |distance| == n
    requires s != {} && Grown(n, edges, tree, s)
    requires Queued(s, [], distance) && Relaxed(adj, s, {}, distance)
    ensures |tree| == n - 1 <==> Connects(edges, UpTo(n))
    ensures |tree| == n - 1 ==> IsMinimumSpanningTree(n, edges, tree)
  {
    hide Connects, Promising, Queued, Relaxed, Represents;
    var all := UpTo(n);
    SubsetCount(s, n);
    if |tree| == n - 1 {
      assert s == all;
      TreeInGraphConnects(n, edges, tree);
      CompleteIsMinimal(n, edges, tree);
    }
    if Connects(edges, all) {
      NoCutAroundVisited(adj, n, edges, s, distance);
    }
  }

  lemma CompleteIsMinimal(n: nat, edges: seq<Edge>, tree: seq<Edge>)
    requires IsSpanningTree(n, edges, tree) && Promising(n, edges, tree)
    ensures IsMinimumSpanningTree(n, edges, tree)
  {
    hide Weight, IsSpanningTree;
    forall t | IsSpanningTree(n, edges, t) ensures Weight(tree) <= Weight(t) {
      assert HasExtension(n, edges, tree, Weight(t));
      var t' :| IsSpanningTree(n, edges, t') && tree <= t' && Weight(t') <= Weight(t);
      SameLength(n, edges, tree, t');
      assert t' == tree;
    }
  }

  lemma SameLength(n: nat, edges: seq<Edge>, t: seq<Edge>, t': seq<Edge>)
    requires IsSpanningTree(n, edges, t) && IsSpanningTree(n, edges, t')
    ensures |t| == |t'|
  {
  }

  /** In a connected graph, an empty queue leaves no vertex unvisited. */
  lemma NoCutAroundVisited(adj: Adjacency, n: nat, edges: seq<Edge>, s: set<nat>, distance: seq<Dist>)
    requires Represents(adj, n, edges, true) && Closed(adj) && |distance| == n
    requires s != {} && s <= UpTo(n) && Connects(edges, UpTo(n))
    requires Queued(s, [], distance) && Relaxed(adj, s, {}, distance)
    ensures s == UpTo(n)
  {
    hide Queued, Relaxed, Connects;
    var all := UpTo(n);
    forall i | 0 <= i < |edges| ensures !Crosses(edges[i], s) {
      assert edges[i] in edges && Reverse(Reverse(edges[i])) == edges[i];
      LeavingArcIsQueued(adj, n, edges, s, distance, [], edges[i]);
      LeavingArcIsQueued(adj, n, edges, s, distance, [], Reverse(edges[i]));
    }
    UncrossedIsAll(edges, all, s);
  }

  lemma UncrossedIsAll(t: seq<Edge>, all: set<nat>, s: set<nat>)
    requires Connects(t, all) && s != {} && s <= all
    requires forall i :: 0 <= i < |t| ==> !Crosses(t[i], s)
    ensures s == all
  {
    assert !CrossedIn(t, all, s);
    var v :| v in s;
    assert v in all * s;
    assert forall w :: w in all && w !in s ==> w in all - s;
    assert !Splits(s, all);
  }

  /** The far end of an edge out of s waits in the queue with a key at least as good. */
  lemma LeavingArcIsQueued(adj: Adjacency, n: nat, edges: seq<Edge>, s: set<nat>, distance: seq<Dist>, q: seq<Entry>,
      f: Edge)
    requires Represents(adj, n, edges, true) && Closed(adj) && |distance| == n
    requires Queued(s, q, distance) && Relaxed(adj, s, {}, distance)
    requires HasEdge(edges, true, f)
    ensures f.src in s && f.dst !in s ==> exists x :: x in q && x.v == f.dst && x.key >= -f.w
  {
    if f.src in s && f.dst !in s {
      assert Arc(f.dst, f.w) in adj[f.src] by {
        assert Edge(f.src, Arc(f.dst, f.w).to, Arc(f.dst, f.w).w) == f;
      }
      var i :| 0 <= i < |adj[f.src]| && adj[f.src][i] == Arc(f.dst, f.w);
      assert RelaxedFrom(adj, s, distance, f.src, |adj[f.src]|);
      assert !Below(f.w, distance[f.dst]);
      assert QueuedAt(q, f.dst, distance[f.dst].d);
    }
  }

  lemma TreeInGraphConnects(n: nat, edges: seq<Edge>, tree: seq<Edge>)
    requires Connects(tree, UpTo(n))
    requires forall i :: 0 <= i < |tree| ==> HasEdge(edges, true, tree[i])
    ensures Connects(edges, UpTo(n))
  {
    var all := UpTo(n);
    forall cut | Splits(cut, all) ensures CrossedIn(edges, all, cut) {
      var i :| 0 <= i < |tree| && Within(tree[i], all) && Crosses(tree[i], cut);
      assert HasEdge(edges, true, tree[i]);
      var f := if tree[i] in edges then tree[i] else Reverse(tree[i]);
      var j :| 0 <= j < |edges| && edges[j] == f;
      assert Within(edges[j], all) && Crosses(edges[j], cut);
    }
  }

  /** A popped entry whose vertex is visited was stale. */
  lemma StaleDropped(edges: seq<Edge>, s: set<nat>, q: seq<Entry>, top: Entry, rest: seq<Entry>, n: nat,
      distance: seq<Dist>)
    requires Queued(s, q, distance) && forall x :: x in q ==> x == top || x in rest
    ensures Queued(s + {top.v}, rest, distance)
  {
    forall v: nat | v < |distance| && v !in s + {top.v} && distance[v].Fin? ensures QueuedAt(rest, v, distance[v].d) {
      assert QueuedAt(q, v, distance[v].d);
    }
  }

  /** Visiting v keeps what is known of the queue and leaves only v's own arcs to relax. */
  lemma Visited(adj: Adjacency, edges: seq<Edge>, s: set<nat>, v: nat, q: seq<Entry>, n: nat, distance: seq<Dist>)
    requires |adj| == |distance| == n && Closed(adj)
    requires EntriesOk(edges, s, q, n) && Relaxed(adj, s, {}, distance)
    ensures EntriesOk(edges, s + {v}, q, n) && Relaxed(adj, s + {v}, {v}, distance)
  {
    forall u: nat | u in s + {v} && u !in {v} && u < n ensures RelaxedFrom(adj, s + {v}, distance, u, |adj[u]|) {
      assert RelaxedFrom(adj, s, distance, u, |adj[u]|);
    }
  }

  /** One iteration of the inner loop. */
  lemma ArcRelaxed(adj: Adjacency, edges: seq<Edge>, s: set<nat>, v: nat, i: nat, n: nat, q: seq<Entry>,
      distance: seq<Dist>)
    requires Represents(adj, n, edges, true) && |distance| == n && Closed(adj)
    requires v in s && v < n && i < |adj[v]| && Below(adj[v][i].w, distance[adj[v][i].to])
    requires EntriesOk(edges, s, q, n) && Queued(s, q, distance)
    requires Relaxed(adj, s, {v}, distance) && RelaxedFrom(adj, s, distance, v, i)
    ensures var a := adj[v][i];
            var q' := q + [Entry(-a.w, a.to, v, a.to, a.w)];
            var distance' := distance[a.to := Fin(a.w)];
            && EntriesOk(edges, s, q', n) && Queued(s, q', distance')
            && Relaxed(adj, s, {v}, distance') && RelaxedFrom(adj, s, distance', v, i)
  {
    var a := adj[v][i];
    var x := Entry(-a.w, a.to, v, a.to, a.w);
    var distance' := distance[a.to := Fin(a.w)];
    assert a in adj[v] && HasEdge(edges, true, Edge(v, a.to, a.w));
    forall u: nat | u < n && u !in s && distance'[u].Fin? ensures QueuedAt(q + [x], u, distance'[u].d) {
      if u != a.to { assert QueuedAt(q, u, distance[u].d); }
      assert x in q + [x];
    }
    StillRelaxed(adj, s, distance, distance', v, i);
    forall u: nat | u in s && u !in {v} && u < n ensures RelaxedFrom(adj, s, distance', u, |adj[u]|) {
      assert RelaxedFrom(adj, s, distance, u, |adj[u]|);
      StillRelaxed(adj, s, distance, distance', u, |adj[u]|);
    }
  }

  lemma NoArcsYet(adj: Adjacency, s: set<nat>, distance: seq<Dist>, v: nat)
    requires v < |adj| == |distance| && Closed(adj)
    ensures RelaxedFrom(adj, s, distance, v, 0)
  {
  }

  lemma OneMoreRelaxed(adj: Adjacency, s: set<nat>, distance: seq<Dist>, v: nat, i: nat)
    requires v < |adj| == |distance| && Closed(adj) && RelaxedFrom(adj, s, distance, v, i)
    requires i < |adj[v]| && !Below(adj[v][i].w, distance[adj[v][i].to])
    ensures RelaxedFrom(adj, s, distance, v, i + 1)
  {
  }

  lemma AllRelaxed(adj: Adjacency, s: set<nat>, distance: seq<Dist>, v: nat)
    requires v < |adj| == |distance| && Closed(adj) && Relaxed(adj, s, {v}, distance)
    requires RelaxedFrom(adj, s, distance, v, |adj[v]|)
    ensures Relaxed(adj, s, {}, distance)
  {
  }

  lemma NoEntries(edges: seq<Edge>, s: set<nat>, n: nat)
    ensures EntriesOk(edges, s, [], n)
  {
  }

  lemma RestOk(edges: seq<Edge>, s: set<nat>, q: seq<Entry>, rest: seq<Entry>, n: nat)
    requires EntriesOk(edges, s, q, n) && forall x :: x in rest ==> x in q
    ensures EntriesOk(edges, s, rest, n)
  {
  }

  /** Distances only fall. */
  lemma StillRelaxed(adj: Adjacency, s: set<nat>, distance: seq<Dist>, distance': seq<Dist>, u: nat, done: nat)
    requires u < |adj| == |distance| == |distance'| && Closed(adj) && RelaxedFrom(adj, s, distance, u, done)
    requires forall x :: 0 <= x < |distance| ==>
      distance'[x] == distance[x] || (distance'[x].Fin? && Below(distance'[x].d, distance[x]))
    ensures RelaxedFrom(adj, s, distance', u, done)
  {
  }

  lemma StartState(adj: Adjacency, n: nat, src: nat, distance: seq<Dist>, first: Entry)
    requires |adj| == |distance| == n && Closed(adj) && src < n
    requires forall i :: 0 <= i < n ==> distance[i] == if i == src then Fin(0.0) else Inf
    requires first.v == src && first.key == 0.0
    ensures Queued({}, [first], distance) && Relaxed(adj, {}, {}, distance)
  {
    assert first in [first];
    assert QueuedAt([first], src, 0.0);
  }

  lemma EntryInRange(edges: seq<Edge>, s: set<nat>, q: seq<Entry>, n: nat, top: Entry)
    requires EntriesOk(edges, s, q, n) && top in q
    ensures top.v < n && (top.v !in s ==> top.to == top.v)
  {
  }

  /** The first vertex starts the tree, every later one joins it by the edge its entry carries. */
  lemma Joins(adj: Adjacency, n: nat, edges: seq<Edge>, src: nat, s: set<nat>, q: seq<Entry>, distance: seq<Dist>,
              first: Entry, top: Entry, rest: seq<Entry>, tree: seq<Edge>)
    requires Represents(adj, n, edges, true) && Closed(adj) && |distance| == n && s <= UpTo(n) && src < n
    requires first.v == src && (forall x :: x in rest ==> x in q) && (forall x :: x in q ==> x == top || x in rest)
    requires s == {} ==> q == [first] && rest == [] && tree == []
    requires s != {} ==> src in s && EntriesOk(edges, s, q, n) && Grown(n, edges, tree, s)
    requires Queued(s, q, distance) && Relaxed(adj, s, {}, distance)
    requires top in q && top.v !in s && forall x :: x in q ==> !TupleLess(top, x)
    ensures var tree' := if top.v != src then tree + [Edge(top.from, top.to, top.w)] else tree;
            Grown(n, edges, tree', s + {top.v})
    ensures src in s + {top.v} && EntriesOk(edges, s + {top.v}, rest, n)
    ensures Relaxed(adj, s + {top.v}, {top.v}, distance) && Queued(s + {top.v}, rest, distance)
  {
    RepresentsIsClosed(adj, n, edges, true);
    hide Represents, Grown, Queued, Relaxed, Closed, LightestOut, EntriesOk, RelaxedFrom, InRange;
    if s == {} {
      GrowFirst(n, edges, src);
      assert {top.v} == s + {top.v};
      NoEntries(edges, s, n);
    } else {
      TopIsLightest(adj, n, edges, s, q, distance, top);
      GrowTree(n, edges, tree, s, Edge(top.from, top.to, top.w));
      RestOk(edges, s, q, rest, n);
      EntryInRange(edges, s, q, n, top);
    }
    Visited(adj, edges, s, top.v, rest, n, distance);
    StaleDropped(edges, s, q, top, rest, n, distance);
  }

  /** The inner loop: every improving arc of v lowers a distance and queues an entry. */
  method RelaxArcs(adj: Adjacency, n: nat, ghost edges: seq<Edge>, ghost s: set<nat>, v: nat, distance0: seq<Dist>,
      q0: seq<Entry>)
    returns (distance: seq<Dist>, q: seq<Entry>)
    requires Represents(adj, n, edges, true) && |adj| == |distance0| == n && Closed(adj) && v in s && v < n
    requires EntriesOk(edges, s, q0, n) && Queued(s, q0, distance0) && Relaxed(adj, s, {v}, distance0)
    ensures |distance| == n
    ensures EntriesOk(edges, s, q, n) && Queued(s, q, distance) && Relaxed(adj, s, {}, distance)
  {
    hide Represents, Queued, Relaxed, EntriesOk, RelaxedFrom;
    distance, q := distance0, q0;
    NoArcsYet(adj, s, distance, v);
    for i := 0 to |adj[v]|
      invariant |distance| == n && EntriesOk(edges, s, q, n) && Queued(s, q, distance)
      invariant Relaxed(adj, s, {v}, distance) && RelaxedFrom(adj, s, distance, v, i)
    {
      var a := adj[v][i];
      if Below(a.w, distance[a.to]) {
        ArcRelaxed(adj, edges, s, v, i, n, q, distance);
        distance := distance[a.to := Fin(a.w)];
        q := q + [Entry(-a.w, a.to, v, a.to, a.w)];
      }
      OneMoreRelaxed(adj, s, distance, v, i);
    }
    AllRelaxed(adj, s, distance, v);
  }

  /** prim_minimum_spanning_tree: a minimum spanning tree, or nothing when the graph is not connected. */
  method PrimMinimumSpanningTree(g: Graph, src: nat) returns (r: Option<seq<Edge>>)
    requires g.Valid() && g.undirected && src < g.adjList.Length
    ensures r.Some? <==> Connects(g.edges, UpTo(g.adjList.Length))
    ensures r.Some? ==> IsMinimumSpanningTree(g.adjList.Length, g.edges, r.value)
  {
    hide Marks, Represents, Connects, Grown, Queued, Relaxed, EntriesOk, IsMinimumSpanningTree, RelaxedFrom, UpTo;
    var adj := g.GetAdjList();
    var n := g.adjList.Length;
    ghost var edges := g.edges;
    RepresentsIsClosed(adj, n, edges, true);
    var distance := seq(n, i => if i == src then Fin(0.0) else Inf);
    var visited := seq(n, _ => false);
    NoneMarked(visited);
    var first := Entry(0.0, src, 0, 0, 0.0);
    var q := [first];
    var answer: seq<Edge> := [];
    ghost var s: set<nat> := {};
    StartState(adj, n, src, distance, first);
    while q != []
      invariant |distance| == |visited| == n && s <= UpTo(n) && Marks(visited, s)
      invariant s == {} ==> q == [first] && answer == []
      invariant s != {} ==> src in s && EntriesOk(edges, s, q, n) && Grown(n, edges, answer, s)
      invariant Queued(s, q, distance) && Relaxed(adj, s, {}, distance)
      decreases n - |s|, |q|
    {
      SubsetCount(s, n);
      var top, rest := ExtractTop(q);
      assert top.v < n by {
        if s == {} { assert top == first; } else { EntryInRange(edges, s, q, n, top); }
      }
      MarkOne(visited, s, top.v);
      if visited[top.v] {
        StaleDropped(edges, s, q, top, rest, n, distance);
        assert s + {top.v} == s;
        RestOk(edges, s, q, rest, n);
        q := rest;
        continue;
      }
      Joins(adj, n, edges, src, s, q, distance, first, top, rest, answer);
      if top.v != src {
        answer := answer + [Edge(top.from, top.to, top.w)];
      }
      visited := visited[top.v := true];
      s := s + {top.v};
      q := rest;
      distance, q := RelaxArcs(adj, n, edges, s, top.v, distance, q);
    }
    NothingLeft(adj, n, edges, s, distance, answer);
    if |answer| != n - 1 {
      return None;
    }
    return Some(answer);
  }
}
