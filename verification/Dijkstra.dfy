/** Dijkstra's algorithm with a lazily cleaned priority queue. */
module Dijkstra {
  import opened FiniteSets
  import opened Graphs
  import opened Optional

  /** A predecessor and a distance, or nothing for a vertex not reached. */
  type Answer = map<nat, Option<(nat, real)>>

  /** A chain of arcs of the graph from a to b. */
  ghost predicate Path(edges: seq<Edge>, undirected: bool, p: seq<Edge>, a: nat, b: nat) {
    if p == [] then a == b
    else
      var e := p[|p| - 1];
      HasEdge(edges, undirected, e) && e.dst == b && Path(edges, undirected, p[..|p| - 1], a, e.src)
  }

  ghost predicate Reachable(edges: seq<Edge>, undirected: bool, a: nat, b: nat) {
    exists p :: Path(edges, undirected, p, a, b)
  }

  /** d is the weight of a lightest path. */
  ghost predicate IsDistance(edges: seq<Edge>, undirected: bool, a: nat, b: nat, d: real) {
    && (exists p :: Path(edges, undirected, p, a, b) && Weight(p) == d)
    && forall p :: Path(edges, undirected, p, a, b) ==> d <= Weight(p)
  }

  ghost predicate NonNegative(edges: seq<Edge>) {
    forall e :: e in edges ==> e.w >= 0.0
  }

  predicate Found(answer: Answer, v: nat) { v in answer && answer[v].Some? }

  function DistOf(answer: Answer, v: nat): real { if Found(answer, v) then answer[v].value.1 else 0.0 }

  /** Following the predecessors back from v gives the path p, whose distances add up; the
      source's predecessor is the number n, which names no vertex. */
  ghost predicate Chain(edges: seq<Edge>, undirected: bool, n: nat, src: nat, answer: Answer, p: seq<Edge>, v: nat) {
    Found(answer, v) &&
    if p == [] then v == src && answer[v].value == (n, 0.0)
    else
      var e := p[|p| - 1];
      && v != src && HasEdge(edges, undirected, e) && e.dst == v && e.src == answer[v].value.0
      && answer[v].value.1 == DistOf(answer, e.src) + e.w
      && Chain(edges, undirected, n, src, answer, p[..|p| - 1], e.src)
  }

  ghost predicate Traced(edges: seq<Edge>, undirected: bool, n: nat, src: nat, answer: Answer, v: nat) {
    exists p :: Chain(edges, undirected, n, src, answer, p, v)
  }

  /** The predecessors spell out a path whose weight is the reported distance. */
  lemma {:induction false} ChainIsPath(edges: seq<Edge>, undirected: bool, n: nat, src: nat, answer: Answer,
      p: seq<Edge>, v: nat)
    requires Chain(edges, undirected, n, src, answer, p, v)
    ensures Path(edges, undirected, p, src, v) && Weight(p) == DistOf(answer, v)
    decreases |p|
  {
    if p != [] {
      ChainIsPath(edges, undirected, n, src, answer, p[..|p| - 1], p[|p| - 1].src);
    }
  }

  /** A new answer leaves the chains through other vertices alone. */
  lemma {:induction false} ChainKept(edges: seq<Edge>, undirected: bool, n: nat, src: nat, answer: Answer, p: seq<Edge>,
      u: nat,
                                     v: nat, a: Option<(nat, real)>)
    requires Chain(edges, undirected, n, src, answer, p, u) && !Found(answer, v)
    ensures Chain(edges, undirected, n, src, answer[v := a], p, u)
    decreases |p|
  {
    if p != [] {
      ChainKept(edges, undirected, n, src, answer, p[..|p| - 1], p[|p| - 1].src, v, a);
    }
  }

  /** The visited vertices are the found ones, with true distances and predecessors. */
  ghost predicate Settled(edges: seq<Edge>, undirected: bool, n: nat, src: nat, answer: Answer, s: set<nat>) {
    && (forall v :: v in s <==> Found(answer, v))
    && forall v :: v in s ==>
      IsDistance(edges, undirected, src, v, DistOf(answer, v)) && Traced(edges, undirected, n, src, answer, v)
  }

  /** An entry for an unvisited vertex extends a visited one by an arc. */
  ghost predicate EntriesOk(edges: seq<Edge>, undirected: bool, s: set<nat>, answer: Answer, q: seq<Entry>, n: nat) {
    forall x :: x in q ==>
      && x.v < n
      && (x.v !in s ==> x.from in s && HasEdge(edges, undirected, Edge(x.from, x.v, -x.key - DistOf(answer, x.from))))
  }

  /** The queue holds the recorded distance of every unvisited vertex that has one. */
  ghost predicate Queued(s: set<nat>, q: seq<Entry>, distance: seq<Dist>) {
    forall v :: 0 <= v < |distance| && v !in s && distance[v].Fin? ==> QueuedAt(q, v, distance[v].d)
  }

  ghost predicate QueuedAt(q: seq<Entry>, v: nat, d: real) {
    exists x :: x in q && x.v == v && x.key == -d
  }

  /** The first `done` arcs of u, which is at distance d, have been relaxed. */
  ghost predicate RelaxedFrom(adj: Adjacency, s: set<nat>, distance: seq<Dist>, u: nat, d: real, done: nat)
    requires u < |adj| == |distance| && Closed(adj)
  {
    forall i :: 0 <= i < done && i < |adj[u]| && adj[u][i].to !in s ==> !Below(adj[u][i].w + d, distance[adj[u][i].to])
  }

  ghost predicate Relaxed(adj: Adjacency, s: set<nat>, except: set<nat>, answer: Answer, distance: seq<Dist>)
    requires |adj| == |distance| && Closed(adj)
  {
    forall u: nat :: u in s && u !in except && u < |adj| ==>
      RelaxedFrom(adj, s, distance, u, DistOf(answer, u), |adj[u]|)
  }

  /** The far end of an arc out of s waits in the queue at a distance at least as good. */
  lemma LeavingArcIsQueued(adj: Adjacency, n: nat, edges: seq<Edge>, undirected: bool, s: set<nat>, answer: Answer,
                           distance: seq<Dist>, q: seq<Entry>, f: Edge)
    requires Represents(adj, n, edges, undirected) && Closed(adj) && |distance| == n
    requires Queued(s, q, distance) && Relaxed(adj, s, {}, answer, distance)
    requires HasEdge(edges, undirected, f)
    ensures f.src in s && f.dst !in s ==> exists x :: x in q && x.v == f.dst && -x.key <= DistOf(answer, f.src) + f.w
  {
    if f.src in s && f.dst !in s {
      assert Arc(f.dst, f.w) in adj[f.src] by {
        assert Edge(f.src, Arc(f.dst, f.w).to, Arc(f.dst, f.w).w) == f;
      }
      var i :| 0 <= i < |adj[f.src]| && adj[f.src][i] == Arc(f.dst, f.w);
      assert RelaxedFrom(adj, s, distance, f.src, DistOf(answer, f.src), |adj[f.src]|);
      assert !Below(f.w + DistOf(answer, f.src), distance[f.dst]);
      assert QueuedAt(q, f.dst, distance[f.dst].d);
    }
  }

  /** Every arc out of s ends at `bound` or farther. */
  ghost predicate LeavesAbove(edges: seq<Edge>, undirected: bool, s: set<nat>, answer: Answer, bound: real) {
    forall f :: HasEdge(edges, undirected, f) && f.src in s && f.dst !in s ==> DistOf(answer, f.src) + f.w >= bound
  }

  /** A path that leaves the visited vertices weighs at least what the cheapest way out does. */
  lemma {:induction false} PathOut(edges: seq<Edge>, undirected: bool, n: nat, src: nat, answer: Answer, s: set<nat>,
      bound: real, p: seq<Edge>, v: nat)
    requires NonNegative(edges) && Settled(edges, undirected, n, src, answer, s) && src in s && v !in s
    requires LeavesAbove(edges, undirected, s, answer, bound)
    requires Path(edges, undirected, p, src, v)
    ensures Weight(p) >= bound
    decreases |p|
  {
    var e, before := p[|p| - 1], p[..|p| - 1];
    if e.src in s {
      assert DistOf(answer, e.src) <= Weight(before);
    } else {
      PathOut(edges, undirected, n, src, answer, s, bound, before, e.src);
    }
  }

  /** With no arc out of s, nothing outside s is reachable. */
  lemma {:induction false} NoWayOut(edges: seq<Edge>, undirected: bool, s: set<nat>, src: nat, p: seq<Edge>, v: nat)
    requires src in s && Path(edges, undirected, p, src, v)
    requires forall f :: HasEdge(edges, undirected, f) && f.src in s ==> f.dst in s
    ensures v in s
    decreases |p|
  {
    if p != [] {
      var e := p[|p| - 1];
      NoWayOut(edges, undirected, s, src, p[..|p| - 1], e.src);
    }
  }

  /** The top entry, when its vertex is unvisited, carries that vertex's distance. */
  lemma TopIsNearest(adj: Adjacency, n: nat, edges: seq<Edge>, undirected: bool, src: nat, s: set<nat>, answer: Answer,
                     q: seq<Entry>, distance: seq<Dist>, top: Entry)
    requires Represents(adj, n, edges, undirected) && Closed(adj) && |distance| == n && NonNegative(edges)
    requires Settled(edges, undirected, n, src, answer, s) && src in s
    requires EntriesOk(edges, undirected, s, answer, q, n) && Queued(s, q, distance)
      && Relaxed(adj, s, {}, answer, distance)
    requires top in q && top.v !in s && forall x :: x in q ==> !TupleLess(top, x)
    ensures IsDistance(edges, undirected, src, top.v, -top.key)
  {
    hide Queued, Relaxed, Represents, Weight, Path;
    assert LeavesAbove(edges, undirected, s, answer, -top.key) by {
      forall f | HasEdge(edges, undirected, f) && f.src in s && f.dst !in s
        ensures DistOf(answer, f.src) + f.w >= -top.key {
        LeavingArcIsQueued(adj, n, edges, undirected, s, answer, distance, q, f);
        var x :| x in q && x.v == f.dst && -x.key <= DistOf(answer, f.src) + f.w;
        assert !TupleLess(top, x);
      }
    }
    forall p | Path(edges, undirected, p, src, top.v) ensures -top.key <= Weight(p) {
      PathOut(edges, undirected, n, src, answer, s, -top.key, p, top.v);
    }
    var e := Edge(top.from, top.v, -top.key - DistOf(answer, top.from));
    var p :| Path(edges, undirected, p, src, top.from) && Weight(p) == DistOf(answer, top.from);
    PathStep(edges, undirected, src, p, e);
  }

  lemma PathStep(edges: seq<Edge>, undirected: bool, src: nat, p: seq<Edge>, e: Edge)
    requires Path(edges, undirected, p, src, e.src) && HasEdge(edges, undirected, e)
    ensures Path(edges, undirected, p + [e], src, e.dst) && Weight(p + [e]) == Weight(p) + e.w
  {
    assert (p + [e])[..|p|] == p;
  }

  /** What the caller gets. */
  ghost predicate ShortestPaths(n: nat, edges: seq<Edge>, undirected: bool, src: nat, answer: Answer) {
    && answer.Keys == UpTo(n)
    && forall v :: v in answer ==>
      if answer[v].None? then !Reachable(edges, undirected, src, v)
      else IsDistance(edges, undirected, src, v, answer[v].value.1) && Traced(edges, undirected, n, src, answer, v)
  }

  lemma NothingLeft(adj: Adjacency, n: nat, edges: seq<Edge>, undirected: bool, src: nat, s: set<nat>, answer: Answer,
      distance: seq<Dist>)
    requires Represents(adj, n, edges, undirected) && Closed(adj) && |distance| == n
    requires Settled(edges, undirected, n, src, answer, s) && src in s && answer.Keys == UpTo(n)
    requires Queued(s, [], distance) && Relaxed(adj, s, {}, answer, distance)
    ensures ShortestPaths(n, edges, undirected, src, answer)
  {
    hide Queued, Relaxed, Represents, Weight, Path, IsDistance, Traced, UpTo;
    forall f | HasEdge(edges, undirected, f) && f.src in s ensures f.dst in s {
      LeavingArcIsQueued(adj, n, edges, undirected, s, answer, distance, [], f);
    }
    forall v, p | Path(edges, undirected, p, src, v) ensures v in s {
      NoWayOut(edges, undirected, s, src, p, v);
    }
    forall v | v in answer && v !in s ensures answer[v].None? && !Reachable(edges, undirected, src, v) {
    }
  }

  /** Settling a vertex leaves the earlier ones settled. */
  lemma Settle(edges: seq<Edge>, undirected: bool, n: nat, src: nat, answer: Answer, s: set<nat>, v: nat, parent: nat,
      d: real)
    requires Settled(edges, undirected, n, src, answer, s) && v !in s && v in answer
    requires IsDistance(edges, undirected, src, v, d)
    requires if v == src then parent == n && d == 0.0
             else parent in s && HasEdge(edges, undirected, Edge(parent, v, d - DistOf(answer, parent)))
    ensures Settled(edges, undirected, n, src, answer[v := Some((parent, d))], s + {v})
  {
    hide IsDistance, HasEdge;
    var answer' := answer[v := Some((parent, d))];
    forall u | u in s + {v}
      ensures IsDistance(edges, undirected, src, u, DistOf(answer', u)) && Traced(edges, undirected, n, src, answer', u)
    {
      var w := if u == v && v != src then parent else u;
      if w in s {
        assert Traced(edges, undirected, n, src, answer, w);
        var p :| Chain(edges, undirected, n, src, answer, p, w);
        ChainKept(edges, undirected, n, src, answer, p, w, v, Some((parent, d)));
        if u == v {
          var e := Edge(parent, v, d - DistOf(answer, parent));
          assert (p + [e])[..|p|] == p;
          assert Chain(edges, undirected, n, src, answer', p + [e], v);
        }
      } else {
        assert Chain(edges, undirected, n, src, answer', [], v);
      }
    }
  }

  lemma SourceDistance(edges: seq<Edge>, undirected: bool, src: nat)
    requires NonNegative(edges)
    ensures IsDistance(edges, undirected, src, src, 0.0)
  {
    assert Path(edges, undirected, [], src, src) && Weight([]) == 0.0;
    forall p | Path(edges, undirected, p, src, src) ensures 0.0 <= Weight(p) {
      PathWeight(edges, undirected, p, src, src);
    }
  }

  lemma {:induction false} PathWeight(edges: seq<Edge>, undirected: bool, p: seq<Edge>, a: nat, b: nat)
    requires NonNegative(edges) && Path(edges, undirected, p, a, b)
    ensures Weight(p) >= 0.0
    decreases |p|
  {
    if p != [] {
      PathWeight(edges, undirected, p[..|p| - 1], a, p[|p| - 1].src);
    }
  }

  // How one step of the loop keeps the bookkeeping.

  /** A popped entry is either stale or about to be used. */
  lemma StaleDropped(s: set<nat>, q: seq<Entry>, top: Entry, rest: seq<Entry>, distance: seq<Dist>)
    requires Queued(s, q, distance) && TopTaken(q, top, rest)
    ensures Queued(s + {top.v}, rest, distance)
  {
    forall v: nat | v < |distance| && v !in s + {top.v} && distance[v].Fin? ensures QueuedAt(rest, v, distance[v].d) {
      assert QueuedAt(q, v, distance[v].d);
    }
  }

  /** Visiting v keeps what is known of the queue and leaves only v's own arcs to relax. */
  lemma Visited(adj: Adjacency, edges: seq<Edge>, undirected: bool, s: set<nat>, v: nat, a: Option<(nat, real)>,
                answer: Answer, q: seq<Entry>, n: nat, distance: seq<Dist>)
    requires |adj| == |distance| == n && Closed(adj) && v !in s
    requires EntriesOk(edges, undirected, s, answer, q, n) && Relaxed(adj, s, {}, answer, distance)
    ensures EntriesOk(edges, undirected, s + {v}, answer[v := a], q, n)
    ensures Relaxed(adj, s + {v}, {v}, answer[v := a], distance)
  {
    forall u: nat | u in s + {v} && u !in {v} && u < n
      ensures RelaxedFrom(adj, s + {v}, distance, u, DistOf(answer[v := a], u), |adj[u]|)
    {
      assert RelaxedFrom(adj, s, distance, u, DistOf(answer, u), |adj[u]|);
    }
  }

  /** One improving arc of the inner loop. */
  lemma ArcRelaxed(adj: Adjacency, edges: seq<Edge>, undirected: bool, s: set<nat>, answer: Answer, v: nat, i: nat,
      n: nat,
                   q: seq<Entry>, distance: seq<Dist>, q': seq<Entry>, distance': seq<Dist>)
    requires Represents(adj, n, edges, undirected) && |distance| == n && Closed(adj)
    requires v in s && v < n && i < |adj[v]| && Below(adj[v][i].w + DistOf(answer, v), distance[adj[v][i].to])
    requires EntriesOk(edges, undirected, s, answer, q, n) && Queued(s, q, distance)
    requires Relaxed(adj, s, {v}, answer, distance) && RelaxedFrom(adj, s, distance, v, DistOf(answer, v), i)
    requires q' == q + [Entry(-(adj[v][i].w + DistOf(answer, v)), adj[v][i].to, v, 0, 0.0)]
    requires distance' == distance[adj[v][i].to := Fin(adj[v][i].w + DistOf(answer, v))]
    ensures EntriesOk(edges, undirected, s, answer, q', n) && Queued(s, q', distance')
    ensures Relaxed(adj, s, {v}, answer, distance') && RelaxedFrom(adj, s, distance', v, DistOf(answer, v), i)
  {
    var a := adj[v][i];
    var x := q'[|q|];
    assert a in adj[v] && HasEdge(edges, undirected, Edge(v, a.to, a.w));
    assert -x.key - DistOf(answer, v) == a.w;
    forall u: nat | u < n && u !in s && distance'[u].Fin? ensures QueuedAt(q', u, distance'[u].d) {
      if u != a.to { assert QueuedAt(q, u, distance[u].d); }
      assert x in q';
    }
    StillRelaxed(adj, s, distance, distance', v, DistOf(answer, v), i);
    forall u: nat | u in s && u !in {v} && u < n
      ensures RelaxedFrom(adj, s, distance', u, DistOf(answer, u), |adj[u]|) {
      assert RelaxedFrom(adj, s, distance, u, DistOf(answer, u), |adj[u]|);
      StillRelaxed(adj, s, distance, distance', u, DistOf(answer, u), |adj[u]|);
    }
  }

  /** Distances only fall. */
  lemma StillRelaxed(adj: Adjacency, s: set<nat>, distance: seq<Dist>, distance': seq<Dist>, u: nat, d: real, done: nat)
    requires u < |adj| == |distance| == |distance'| && Closed(adj) && RelaxedFrom(adj, s, distance, u, d, done)
    requires forall x :: 0 <= x < |distance| ==>
      distance'[x] == distance[x] || (distance'[x].Fin? && Below(distance'[x].d, distance[x]))
    ensures RelaxedFrom(adj, s, distance', u, d, done)
  {
  }

  lemma NoArcsYet(adj: Adjacency, s: set<nat>, distance: seq<Dist>, v: nat, d: real)
    requires v < |adj| == |distance| && Closed(adj)
    ensures RelaxedFrom(adj, s, distance, v, d, 0)
  {
  }

  lemma OneMoreRelaxed(adj: Adjacency, s: set<nat>, distance: seq<Dist>, v: nat, d: real, i: nat)
    requires v < |adj| == |distance| && Closed(adj) && RelaxedFrom(adj, s, distance, v, d, i)
    requires i < |adj[v]| && !Below(adj[v][i].w + d, distance[adj[v][i].to])
    ensures RelaxedFrom(adj, s, distance, v, d, i + 1)
  {
  }

  lemma AllRelaxed(adj: Adjacency, s: set<nat>, distance: seq<Dist>, answer: Answer, v: nat)
    requires v < |adj| == |distance| && Closed(adj) && Relaxed(adj, s, {v}, answer, distance)
    requires RelaxedFrom(adj, s, distance, v, DistOf(answer, v), |adj[v]|)
    ensures Relaxed(adj, s, {}, answer, distance)
  {
  }

  lemma StartState(adj: Adjacency, n: nat, edges: seq<Edge>, undirected: bool, src: nat, distance: seq<Dist>,
      first: Entry, answer: Answer)
    requires |adj| == |distance| == n && Closed(adj) && src < n
    requires forall i :: 0 <= i < n ==> distance[i] == if i == src then Fin(0.0) else Inf
    requires first.v == src && first.key == 0.0 && forall v :: v in answer ==> answer[v].None?
    ensures Queued({}, [first], distance) && Relaxed(adj, {}, {}, answer, distance)
    ensures Settled(edges, undirected, n, src, answer, {})
  {
    assert first in [first];
    assert QueuedAt([first], src, 0.0);
  }

  /** The answer for a popped entry: its predecessor and its distance. */
  function Answered(answer: Answer, top: Entry): (answer': Answer)
    ensures answer'.Keys == answer.Keys + {top.v}
  {
    answer[top.v := Some((top.from, -top.key))]
  }

  /** The popped unvisited vertex is settled at the distance its entry carries. */
  lemma Pop(adj: Adjacency, n: nat, edges: seq<Edge>, undirected: bool, src: nat, s: set<nat>, answer: Answer,
            answer': Answer, q: seq<Entry>, rest: seq<Entry>, distance: seq<Dist>, first: Entry, top: Entry)
    requires Represents(adj, n, edges, undirected) && |adj| == n && Closed(adj) && |distance| == n
      && NonNegative(edges) && src < n
    requires first == Entry(0.0, src, n, 0, 0.0) && Settled(edges, undirected, n, src, answer, s)
    requires if s == {} then q == [first] && rest == [] else src in s && EntriesOk(edges, undirected, s, answer, q, n)
    requires Queued(s, q, distance) && Relaxed(adj, s, {}, answer, distance)
    requires TopTaken(q, top, rest) && top.v !in s && top.v in answer
    requires answer' == Answered(answer, top)
    ensures Settled(edges, undirected, n, src, answer', s + {top.v}) && DistOf(answer', top.v) == -top.key
    ensures EntriesOk(edges, undirected, s + {top.v}, answer', rest, n)
    ensures Relaxed(adj, s + {top.v}, {top.v}, answer', distance)
    ensures src in s + {top.v} && Queued(s + {top.v}, rest, distance)
  {
    hide Represents, Settled, Queued, Relaxed, Closed, IsDistance, RelaxedFrom, NonNegative;
    if s == {} {
      SourceDistance(edges, undirected, src);
    } else {
      TopIsNearest(adj, n, edges, undirected, src, s, answer, q, distance, top);
    }
    RestOk(edges, undirected, s, answer, q, top, rest, n);
    Settle(edges, undirected, n, src, answer, s, top.v, top.from, -top.key);
    Visited(adj, edges, undirected, s, top.v, Some((top.from, -top.key)), answer, rest, n, distance);
    StaleDropped(s, q, top, rest, distance);
  }

  lemma RestOk(edges: seq<Edge>, undirected: bool, s: set<nat>, answer: Answer, q: seq<Entry>, top: Entry,
      rest: seq<Entry>, n: nat)
    requires rest == [] || EntriesOk(edges, undirected, s, answer, q, n)
    requires TopTaken(q, top, rest)
    ensures EntriesOk(edges, undirected, s, answer, rest, n)
  {
  }

  /** The inner loop: every improving arc of v lowers a distance and queues an entry. */
  method RelaxArcs(adj: Adjacency, n: nat, ghost edges: seq<Edge>, ghost undirected: bool, ghost s: set<nat>,
      ghost answer: Answer,
                   v: nat, d: real, distance0: seq<Dist>, q0: seq<Entry>)
    returns (distance: seq<Dist>, q: seq<Entry>)
    requires Represents(adj, n, edges, undirected) && |adj| == |distance0| == n && Closed(adj) && v in s && v < n
      && d == DistOf(answer, v)
    requires EntriesOk(edges, undirected, s, answer, q0, n) && Queued(s, q0, distance0)
      && Relaxed(adj, s, {v}, answer, distance0)
    ensures |distance| == n
    ensures EntriesOk(edges, undirected, s, answer, q, n) && Queued(s, q, distance)
      && Relaxed(adj, s, {}, answer, distance)
  {
    hide Represents, Queued, Relaxed, EntriesOk, RelaxedFrom, DistOf;
    distance, q := distance0, q0;
    NoArcsYet(adj, s, distance, v, d);
    for i := 0 to |adj[v]|
      invariant |distance| == n && EntriesOk(edges, undirected, s, answer, q, n) && Queued(s, q, distance)
      invariant Relaxed(adj, s, {v}, answer, distance) && RelaxedFrom(adj, s, distance, v, d, i)
    {
      var a := adj[v][i];
      if Below(a.w + d, distance[a.to]) {
        ghost var before, beforeQ := distance, q;
        distance := distance[a.to := Fin(a.w + d)];
        q := q + [Entry(-(a.w + d), a.to, v, 0, 0.0)];
        ArcRelaxed(adj, edges, undirected, s, answer, v, i, n, beforeQ, before, q, distance);
      }
      OneMoreRelaxed(adj, s, distance, v, d, i);
    }
    AllRelaxed(adj, s, distance, answer, v);
  }

  /** Every vertex starts without an answer. */
  method NoAnswers(n: nat) returns (answer: Answer)
    ensures answer.Keys == UpTo(n) && forall v :: v in answer ==> answer[v].None?
  {
    answer := map[];
    for i := 0 to n
      invariant forall v: nat :: v in answer <==> v < i
      invariant forall v :: v in answer ==> answer[v].None?
    {
      answer := answer[i := None];
    }
  }

  /** dijkstra_shortest_path: the true distance and a predecessor for every reachable vertex,
      nothing for the others. The tuples have three components here; the last two of Entry
      stay constant and do not affect their order. */
  method DijkstraShortestPath(g: Graph, src: nat) returns (answer: Answer)
    requires g.Valid() && src < g.adjList.Length && NonNegative(g.edges)
    ensures ShortestPaths(g.adjList.Length, g.edges, g.undirected, src, answer)
  {
    hide Marks, Represents, Settled, Queued, Relaxed, EntriesOk, RelaxedFrom, UpTo, NonNegative, ShortestPaths, DistOf,
      TopTaken, Closed, Answered;
    var adj := g.GetAdjList();
    var n := g.adjList.Length;
    ghost var edges, undirected := g.edges, g.undirected;
    RepresentsIsClosed(adj, n, edges, undirected);
    var distance := seq(n, i => if i == src then Fin(0.0) else Inf);
    var visited := seq(n, _ => false);
    NoneMarked(visited);
    answer := NoAnswers(n);
    var first := Entry(0.0, src, n, 0, 0.0);
    var q := [first];
    ghost var s: set<nat> := {};
    StartState(adj, n, edges, undirected, src, distance, first, answer);
    while q != []
      invariant |distance| == |visited| == n && s <= UpTo(n) && Marks(visited, s)
      invariant answer.Keys == UpTo(n) && Settled(edges, undirected, n, src, answer, s)
      invariant if s == {} then q == [first] else src in s && EntriesOk(edges, undirected, s, answer, q, n)
      invariant Queued(s, q, distance) && Relaxed(adj, s, {}, answer, distance)
      decreases n - |s|, |q|
    {
      SubsetCount(s, n);
      var top, rest := ExtractTop(q);
      assert top.v < n && (s == {} ==> rest == []) by {
        if s == {} { OnlyTop(first, top, rest); } else { EntryInRange(edges, undirected, s, answer, q, n, top, rest); }
      }
      var d := -top.key;
      MarkOne(visited, s, top.v);
      if visited[top.v] {
        StaleDropped(s, q, top, rest, distance);
        assert s + {top.v} == s;
        RestOk(edges, undirected, s, answer, q, top, rest, n);
        q := rest;
        continue;
      }
      assert top.v in answer.Keys;
      ghost var before := answer;
      answer := Answered(answer, top);
      Pop(adj, n, edges, undirected, src, s, before, answer, q, rest, distance, first, top);
      visited := visited[top.v := true];
      s := s + {top.v};
      distance, q := RelaxArcs(adj, n, edges, undirected, s, answer, top.v, d, distance, rest);
    }
    NothingLeft(adj, n, edges, undirected, src, s, answer, distance);
  }

  lemma EntryInRange(edges: seq<Edge>, undirected: bool, s: set<nat>, answer: Answer, q: seq<Entry>, n: nat, top: Entry,
      rest: seq<Entry>)
    requires EntriesOk(edges, undirected, s, answer, q, n) && TopTaken(q, top, rest)
    ensures top.v < n
  {
  }

  lemma OnlyTop(first: Entry, top: Entry, rest: seq<Entry>)
    requires TopTaken([first], top, rest)
    ensures top == first
  {
  }
}
