/** Weighted multigraphs as the graph algorithms receive them, and their priority queue. */
module Graphs {

  /** edge_t: source, destination, weight. */
  datatype Edge = Edge(src: nat, dst: nat, w: real)

  /** An adjacency list element. */
  datatype Arc = Arc(to: nat, w: real)

  type Adjacency = seq<seq<Arc>>

  /** Every endpoint names one of the n vertices. */
  ghost predicate InRange(n: nat, edges: seq<Edge>) {
    forall e :: e in edges ==> e.src < n && e.dst < n
  }

  function Reverse(e: Edge): Edge { Edge(e.dst, e.src, e.w) }

  /** The arcs that an edge list stands for: an undirected edge gives one each way. */
  ghost predicate HasEdge(edges: seq<Edge>, undirected: bool, e: Edge) {
    e in edges || (undirected && Reverse(e) in edges)
  }

  /** The adjacency list has exactly the arcs of the edge list. */
  ghost predicate Represents(adj: Adjacency, n: nat, edges: seq<Edge>, undirected: bool) {
    && |adj| == n && InRange(n, edges)
    && forall u, a {:trigger a in adj[u]} :: 0 <= u < n ==>
      (a in adj[u] <==> HasEdge(edges, undirected, Edge(u, a.to, a.w)))
  }

  /** Arcs lead to vertices. */
  ghost predicate Closed(adj: Adjacency) {
    forall u, i {:trigger adj[u][i]} :: 0 <= u < |adj| && 0 <= i < |adj[u]| ==> adj[u][i].to < |adj|
  }

  lemma RepresentsIsClosed(adj: Adjacency, n: nat, edges: seq<Edge>, undirected: bool)
    requires Represents(adj, n, edges, undirected)
    ensures |adj| == n && Closed(adj) && InRange(n, edges)
  {
    forall u, i | 0 <= u < n && 0 <= i < |adj[u]| ensures adj[u][i].to < n {
      assert adj[u][i] in adj[u];
    }
  }

  /** The pushes onto the list of v, in the order of the edges. */
  ghost function Pushed(edges: seq<Edge>, undirected: bool, v: nat): seq<Arc> {
    if edges == [] then [] else
      var e := edges[|edges| - 1];
      Pushed(edges[..|edges| - 1], undirected, v)
      + (if e.src == v then [Arc(e.dst, e.w)] else [])
      + (if undirected && e.dst == v then [Arc(e.src, e.w)] else [])
  }

  /** Every arc of an edge list is in its source's list as often as the edges call for. */
  lemma {:induction false} PushedCount(edges: seq<Edge>, undirected: bool, v: nat, a: Arc)
    ensures multiset(Pushed(edges, undirected, v))[a] ==
      multiset(edges)[Edge(v, a.to, a.w)] + if undirected then multiset(edges)[Edge(a.to, v, a.w)] else 0
  {
    if edges != [] {
      var init, e := edges[..|edges| - 1], edges[|edges| - 1];
      assert edges == init + [e];
      PushedCount(init, undirected, v, a);
    }
  }

  class Graph {
    const adjList: array<seq<Arc>>
    const undirected: bool
    ghost const edges: seq<Edge>

    /** The adjacency list is that of the edges. */
    ghost predicate Valid()
      reads adjList
    {
      Represents(adjList[..], adjList.Length, edges, undirected)
    }

    /** The Graph constructor: one push per edge, two for an undirected one. */
    constructor (n: nat, edgeList: seq<Edge>, isUndirected: bool)
      requires InRange(n, edgeList)
      ensures Valid() && fresh(adjList) && edges == edgeList && undirected == isUndirected
      ensures adjList.Length == n && forall v :: 0 <= v < n ==> adjList[v] == Pushed(edgeList, isUndirected, v)
    {
      adjList := new seq<Arc>[n](_ => []);
      undirected, edges := isUndirected, edgeList;
      new;
      for k := 0 to |edgeList|
        invariant fresh(adjList) && adjList.Length == n
        invariant Represents(adjList[..], n, edges[..k], undirected)
        invariant forall v :: 0 <= v < n ==> adjList[v] == Pushed(edges[..k], undirected, v)
      {
        var e := edgeList[k];
        assert e in edges;
        ghost var before := adjList[..];
        adjList[e.src] := adjList[e.src] + [Arc(e.dst, e.w)];
        ghost var middle := adjList[..];
        assert middle == before[e.src := before[e.src] + [Arc(e.dst, e.w)]];
        if undirected {
          adjList[e.dst] := adjList[e.dst] + [Arc(e.src, e.w)];
          assert adjList[..] == middle[e.dst := middle[e.dst] + [Arc(e.src, e.w)]];
        }
        PushedEdge(before, middle, adjList[..], n, edges[..k], e, undirected);
        assert edges[..k + 1] == edges[..k] + [e] && edges[..k + 1][..k] == edges[..k];
      }
      assert edges[..|edges|] == edges;
    }

    /** get_adj_list: a copy of the adjacency list. */
    method GetAdjList() returns (adj: Adjacency)
      ensures adj == adjList[..]
    {
      adj := adjList[..];
    }
  }

  lemma PushedEdge(before: Adjacency, middle: Adjacency, after: Adjacency, n: nat, edges: seq<Edge>, e: Edge,
      undirected: bool)
    requires Represents(before, n, edges, undirected) && e.src < n && e.dst < n
    requires middle == before[e.src := before[e.src] + [Arc(e.dst, e.w)]]
    requires after == if undirected then middle[e.dst := middle[e.dst] + [Arc(e.src, e.w)]] else middle
    ensures Represents(after, n, edges + [e], undirected)
  {
    forall u, a | 0 <= u < n
      ensures a in after[u] <==> HasEdge(edges + [e], undirected, Edge(u, a.to, a.w))
    {
      var f := Edge(u, a.to, a.w);
      assert a in before[u] <==> HasEdge(edges, undirected, f);
      assert a in middle[u] <==> a in before[u] || (u == e.src && a == Arc(e.dst, e.w));
      assert a in after[u] <==> a in middle[u] || (undirected && u == e.dst && a == Arc(e.src, e.w));
    }
  }

  /** A double that may be infinite. */
  datatype Dist = Inf | Fin(d: real)

  predicate Below(w: real, d: Dist) { d.Inf? || w < d.d }

  /** A queue tuple: key first, then vertex, then the rest of the tuple in order. */
  datatype Entry = Entry(key: real, v: nat, from: nat, to: nat, w: real)

  /** The order of std::tuple. */
  predicate TupleLess(a: Entry, b: Entry) {
    a.key < b.key || (a.key == b.key &&
    (a.v < b.v || (a.v == b.v &&
    (a.from < b.from || (a.from == b.from &&
    (a.to < b.to || (a.to == b.to && a.w < b.w)))))))
  }

  /** A greatest tuple leaves the queue, and no other one. */
  ghost predicate TopTaken(q: seq<Entry>, top: Entry, rest: seq<Entry>) {
    && top in q && (forall x :: x in q ==> !TupleLess(top, x))
    && (forall x :: x in q ==> x == top || x in rest) && (forall x :: x in rest ==> x in q)
    && multiset(rest) == multiset(q) - multiset{top}
  }

  /** top() and pop() of std::priority_queue: the greatest tuple leaves. */
  method ExtractTop(q: seq<Entry>) returns (top: Entry, rest: seq<Entry>)
    requires q != []
    ensures TopTaken(q, top, rest) && |rest| == |q| - 1
  {
    var best := 0;
    for i := 1 to |q|
      invariant 0 <= best < |q|
      invariant forall j :: 0 <= j < i ==> !TupleLess(q[best], q[j])
    {
      if TupleLess(q[best], q[i]) {
        best := i;
      }
    }
    top, rest := q[best], q[..best] + q[best + 1..];
    assert q == q[..best] + [top] + q[best + 1..];
    forall x | x in q ensures x == top || x in rest {
      var j :| 0 <= j < |q| && q[j] == x;
      if j != best {
        assert x == if j < best then rest[j] else rest[j - 1];
      }
    }
  }

  /** Total weight of an edge sequence. */
  function Weight(t: seq<Edge>): real {
    if t == [] then 0.0 else Weight(t[..|t| - 1]) + t[|t| - 1].w
  }

  lemma {:induction false} WeightAppend(a: seq<Edge>, b: seq<Edge>)
    ensures Weight(a + b) == Weight(a) + Weight(b)
  {
    if b == [] {
      assert a + b == a;
    } else {
      WeightAppend(a, b[..|b| - 1]);
      assert (a + b)[..|a + b| - 1] == a + b[..|b| - 1];
    }
  }

  /** The flags set are those of the members of s. */
  ghost predicate Marks(visited: seq<bool>, s: set<nat>) {
    forall v :: v in s <==> 0 <= v < |visited| && visited[v]
  }

  lemma MarkOne(visited: seq<bool>, s: set<nat>, v: nat)
    requires Marks(visited, s) && v < |visited|
    ensures visited[v] <==> v in s
    ensures Marks(visited[v := true], s + {v})
  {
  }

  lemma NoneMarked(visited: seq<bool>)
    requires forall i :: 0 <= i < |visited| ==> !visited[i]
    ensures Marks(visited, {})
  {
  }
}
