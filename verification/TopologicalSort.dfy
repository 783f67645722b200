/** Topological sorting by repeatedly removing vertices without incoming arcs. */
module TopologicalSorting {
  import opened FiniteSets
  import opened Graphs

  ghost predicate HasArc(adj: Adjacency, u: nat, v: nat) {
    u < |adj| && exists i :: 0 <= i < |adj[u]| && adj[u][i].to == v
  }

  /** A walk along the arcs, given by its vertices. */
  ghost predicate Walk(adj: Adjacency, p: seq<nat>) {
    && p != []
    && (forall k :: 0 <= k < |p| ==> p[k] < |adj|)
    && forall k :: 0 < k < |p| ==> HasArc(adj, p[k - 1], p[k])
  }

  ghost predicate WalkBetween(adj: Adjacency, p: seq<nat>, a: nat, b: nat) {
    Walk(adj, p) && p[0] == a && p[|p| - 1] == b
  }

  ghost predicate Reaches(adj: Adjacency, a: nat, b: nat) {
    exists p :: WalkBetween(adj, p, a, b)
  }

  ghost predicate OnCycle(adj: Adjacency, c: nat) {
    exists p :: WalkBetween(adj, p, c, c) && |p| > 1
  }

  /** v can be reached from a cycle. */
  ghost predicate FromCycle(adj: Adjacency, v: nat) {
    exists c :: OnCycle(adj, c) && Reaches(adj, c, v)
  }

  ghost predicate Acyclic(adj: Adjacency) {
    forall c :: !OnCycle(adj, c)
  }

  /** Every vertex listed comes after all its predecessors. */
  ghost predicate PredecessorsFirst(adj: Adjacency, answer: seq<nat>) {
    forall j, u :: 0 <= j < |answer| && HasArc(adj, u, answer[j]) ==> u in answer[..j]
  }

  /** How many of the arcs lead to v. */
  ghost function CountTo(arcs: seq<Arc>, v: nat): nat {
    if arcs == [] then 0 else (if arcs[0].to == v then 1 else 0) + CountTo(arcs[1..], v)
  }

  /** How many arcs lead to v from the first k vertices, those in `done` left out. */
  ghost function Pending(adj: Adjacency, done: set<nat>, k: nat, v: nat): nat
    requires k <= |adj|
  {
    if k == 0 then 0 else Pending(adj, done, k - 1, v) + if k - 1 in done then 0 else CountTo(adj[k - 1], v)
  }

  lemma {:induction false} CountZero(arcs: seq<Arc>, v: nat)
    ensures CountTo(arcs, v) == 0 <==> forall i :: 0 <= i < |arcs| ==> arcs[i].to != v
  {
    if arcs != [] {
      CountZero(arcs[1..], v);
      assert forall i :: 0 < i < |arcs| ==> arcs[i] == arcs[1..][i - 1];
    }
  }

  /** No arc is pending exactly when every predecessor is done. */
  lemma {:induction false} PendingZero(adj: Adjacency, done: set<nat>, k: nat, v: nat)
    requires k <= |adj|
    ensures Pending(adj, done, k, v) == 0 <==> forall u: nat :: u < k && HasArc(adj, u, v) ==> u in done
  {
    if k > 0 {
      PendingZero(adj, done, k - 1, v);
      CountZero(adj[k - 1], v);
    }
  }

  /** Finishing w takes its arcs out of the count. */
  lemma {:induction false} PendingLess(adj: Adjacency, done: set<nat>, k: nat, v: nat, w: nat)
    requires k <= |adj| && w !in done
    ensures Pending(adj, done, k, v) == Pending(adj, done + {w}, k, v) + if w < k then CountTo(adj[w], v) else 0
  {
    if k > 0 {
      PendingLess(adj, done, k - 1, v, w);
    }
  }

  // Cycles and the answer.

  ghost predicate Blocked(adj: Adjacency, done: set<nat>) {
    forall v: nat :: v < |adj| && v !in done ==> HasBlockedPredecessor(adj, done, v)
  }

  ghost predicate HasBlockedPredecessor(adj: Adjacency, done: set<nat>, v: nat) {
    exists u: nat :: u !in done && HasArc(adj, u, v)
  }

  /** Among blocked vertices one can walk backwards for ever. */
  lemma {:induction false} BackWalk(adj: Adjacency, done: set<nat>, v: nat, m: nat) returns (p: seq<nat>)
    requires Blocked(adj, done) && v < |adj| && v !in done
    ensures Walk(adj, p) && |p| == m + 1 && p[m] == v && p[0] !in done
    decreases m
  {
    hide Walk, HasArc, Blocked;
    if m == 0 {
      p := [v];
      WalkAlone(adj, v);
    } else {
      PredecessorOf(adj, done, v);
      var u: nat :| u !in done && HasArc(adj, u, v);
      var q := BackWalk(adj, done, u, m - 1);
      p := q + [v];
      WalkOn(adj, q, v);
    }
  }

  lemma PredecessorOf(adj: Adjacency, done: set<nat>, v: nat)
    requires Blocked(adj, done) && v < |adj| && v !in done
    ensures HasBlockedPredecessor(adj, done, v)
    ensures forall u: nat :: HasArc(adj, u, v) ==> u < |adj|
  {
  }

  lemma WalkAlone(adj: Adjacency, v: nat)
    requires v < |adj|
    ensures Walk(adj, [v])
  {
  }

  lemma WalkOn(adj: Adjacency, p: seq<nat>, v: nat)
    requires Walk(adj, p) && HasArc(adj, p[|p| - 1], v) && v < |adj|
    ensures Walk(adj, p + [v])
  {
    var q := p + [v];
    forall k | 0 < k < |q| ensures HasArc(adj, q[k - 1], q[k]) {
      if k < |p| { assert HasArc(adj, p[k - 1], p[k]); }
    }
  }

  lemma WalkPart(adj: Adjacency, p: seq<nat>, i: nat, j: nat)
    requires Walk(adj, p) && i < j <= |p|
    ensures WalkBetween(adj, p[i..j], p[i], p[j - 1])
  {
    var q := p[i..j];
    forall k | 0 < k < |q| ensures HasArc(adj, q[k - 1], q[k]) {
      assert HasArc(adj, p[i + k - 1], p[i + k]);
    }
  }

  lemma BlockedFromCycle(adj: Adjacency, done: set<nat>, v: nat)
    requires Blocked(adj, done) && v < |adj| && v !in done
    ensures FromCycle(adj, v)
  {
    hide HasArc, WalkBetween;
    var p := BackWalk(adj, done, v, |adj|);
    var i, j := Repeats(p, |adj|);
    WalkPart(adj, p, i, j + 1);
    WalkPart(adj, p, i, |p|);
    assert OnCycle(adj, p[i]) && Reaches(adj, p[i], v);
  }

  /** Walking to a listed vertex, one stays in the list and moves forward in it. */
  lemma {:induction false} WalkBefore(adj: Adjacency, answer: seq<nat>, p: seq<nat>, j: nat) returns (i: nat)
    requires PredecessorsFirst(adj, answer) && Walk(adj, p) && j < |answer| && p[|p| - 1] == answer[j]
    ensures i <= j && answer[i] == p[0] && (|p| > 1 ==> i < j)
    decreases |p|
  {
    if |p| == 1 {
      i := j;
    } else {
      var q := p[..|p| - 1];
      assert HasArc(adj, q[|q| - 1], answer[j]);
      var k :| 0 <= k < j && answer[k] == q[|q| - 1];
      i := WalkBefore(adj, answer, q, k);
    }
  }

  lemma ListedNotFromCycle(adj: Adjacency, answer: seq<nat>, v: nat)
    requires PredecessorsFirst(adj, answer) && NoDuplicates(answer) && v in answer
    ensures !FromCycle(adj, v)
  {
    if FromCycle(adj, v) {
      var c :| OnCycle(adj, c) && Reaches(adj, c, v);
      var p :| WalkBetween(adj, p, c, v);
      var q :| WalkBetween(adj, q, c, c) && |q| > 1;
      var j :| 0 <= j < |answer| && answer[j] == v;
      var i := WalkBefore(adj, answer, p, j);
      var k := WalkBefore(adj, answer, q, i);
      assert false;
    }
  }

  /** What the caller gets: exactly the vertices no cycle reaches, in topological order. */
  ghost predicate IsSorted(adj: Adjacency, answer: seq<nat>) {
    && NoDuplicates(answer) && PredecessorsFirst(adj, answer)
    && forall v: nat :: v in answer <==> v < |adj| && !FromCycle(adj, v)
  }

  lemma CycleReachesItself(adj: Adjacency, c: nat)
    ensures OnCycle(adj, c) ==> c < |adj| && FromCycle(adj, c)
  {
    if OnCycle(adj, c) {
      assert Reaches(adj, c, c);
    }
  }

  /** All n vertices are listed exactly when the graph has no cycle. */
  lemma CompleteIffAcyclic(adj: Adjacency, answer: seq<nat>)
    requires IsSorted(adj, answer)
    ensures |answer| == |adj| <==> Acyclic(adj)
  {
    hide OnCycle, FromCycle, PredecessorsFirst, Reaches;
    MembersCount(answer);
    SubsetCount(Members(answer), |adj|);
    if |answer| == |adj| {
      forall c: nat ensures !OnCycle(adj, c) {
        CycleReachesItself(adj, c);
        assert c < |adj| ==> c in Members(answer);
      }
    }
    if Acyclic(adj) {
      forall v: nat ensures !FromCycle(adj, v) {
        AcyclicNotFromCycle(adj, v);
      }
      assert Members(answer) == UpTo(|adj|);
    }
  }

  lemma AcyclicNotFromCycle(adj: Adjacency, v: nat)
    requires Acyclic(adj)
    ensures !FromCycle(adj, v)
  {
  }

  // The loops' bookkeeping.

  /** The counters hold the arcs that come from unfinished vertices. */
  ghost predicate Degrees(adj: Adjacency, indegree: seq<nat>, done: set<nat>) {
    |indegree| == |adj| && forall x: nat :: x < |adj| ==> indegree[x] == Pending(adj, done, |adj|, x)
  }

  /** The same while w's arcs from the i-th on are still counted. */
  ghost predicate DegreesFrom(adj: Adjacency, indegree: seq<nat>, done: set<nat>, w: nat, i: nat)
    requires w < |adj| && i <= |adj[w]|
  {
    |indegree| == |adj| && forall x: nat :: x < |adj| ==>
      indegree[x] == Pending(adj, done, |adj|, x) + CountTo(adj[w][i..], x)
  }

  /** The vertices listed or waiting are those whose counter is zero, once each. */
  ghost predicate Ready(indegree: seq<nat>, line: seq<nat>) {
    && NoDuplicates(line)
    && forall x: nat :: x in line <==> x < |indegree| && indegree[x] == 0
  }

  lemma StartVertex(adj: Adjacency, indegree: seq<nat>, done: set<nat>, v: nat)
    requires Degrees(adj, indegree, done) && v < |adj| && v !in done
    ensures |indegree| == |adj| && DegreesFrom(adj, indegree, done + {v}, v, 0)
  {
    forall x: nat | x < |adj| ensures indegree[x] == Pending(adj, done + {v}, |adj|, x) + CountTo(adj[v][0..], x) {
      PendingLess(adj, done, |adj|, x, v);
      assert adj[v][0..] == adj[v];
    }
  }

  lemma NextArc(arcs: seq<Arc>, i: nat, x: nat)
    requires i < |arcs|
    ensures CountTo(arcs[i..], x) == (if arcs[i].to == x then 1 else 0) + CountTo(arcs[i + 1..], x)
  {
    assert arcs[i..][1..] == arcs[i + 1..];
  }

  /** A finished arc comes off its target's counter, which it had kept above zero. */
  lemma ArcDone(adj: Adjacency, indegree: seq<nat>, done: set<nat>, w: nat, i: nat)
    requires w < |adj| && i < |adj[w]| && Closed(adj) && DegreesFrom(adj, indegree, done, w, i)
    ensures |indegree| == |adj| && indegree[adj[w][i].to] > 0
    ensures DegreesFrom(adj, indegree[adj[w][i].to := indegree[adj[w][i].to] - 1], done, w, i + 1)
  {
    forall x: nat | x < |adj|
      ensures CountTo(adj[w][i..], x) == (if adj[w][i].to == x then 1 else 0) + CountTo(adj[w][i + 1..], x) {
      NextArc(adj[w], i, x);
    }
  }

  lemma FinishVertex(adj: Adjacency, indegree: seq<nat>, done: set<nat>, w: nat)
    requires w < |adj| && DegreesFrom(adj, indegree, done, w, |adj[w]|)
    ensures Degrees(adj, indegree, done)
  {
  }

  /** The front of the queue has all its predecessors listed. */
  lemma FrontIsNext(adj: Adjacency, indegree: seq<nat>, answer: seq<nat>, v: nat, q: seq<nat>)
    requires Degrees(adj, indegree, Members(answer)) && Ready(indegree, answer + [v] + q)
    requires PredecessorsFirst(adj, answer)
    ensures v < |adj| && v !in answer && v !in Members(answer) && PredecessorsFirst(adj, answer + [v])
    ensures Members(answer + [v]) == Members(answer) + {v}
    ensures |answer| < |adj|
  {
    var line := answer + [v] + q;
    assert line[|answer|] == v;
    assert v in line;
    PendingZero(adj, Members(answer), |adj|, v);
    forall j, u | 0 <= j < |answer + [v]| && HasArc(adj, u, (answer + [v])[j]) ensures u in (answer + [v])[..j] {
      if j < |answer| {
        assert u in answer[..j];
        assert (answer + [v])[..j] == answer[..j];
      } else {
        assert u in Members(answer);
        assert (answer + [v])[..j] == answer;
      }
    }
    ReadyFits(indegree, line);
    assert forall j :: 0 <= j < |answer| ==> line[j] == answer[j];
  }

  lemma ReadyFits(indegree: seq<nat>, line: seq<nat>)
    requires Ready(indegree, line)
    ensures |line| <= |indegree|
  {
    MembersCount(line);
    SubsetCount(Members(line), |indegree|);
  }

  /** An empty queue leaves only blocked vertices. */
  lemma NothingReady(adj: Adjacency, indegree: seq<nat>, answer: seq<nat>)
    requires Degrees(adj, indegree, Members(answer)) && Ready(indegree, answer) && PredecessorsFirst(adj, answer)
    ensures IsSorted(adj, answer)
  {
    forall v: nat | v < |adj| && v !in Members(answer) ensures HasBlockedPredecessor(adj, Members(answer), v) {
      PendingZero(adj, Members(answer), |adj|, v);
    }
    assert Blocked(adj, Members(answer));
    forall v: nat ensures v in answer <==> v < |adj| && !FromCycle(adj, v) {
      if v in answer {
        ListedNotFromCycle(adj, answer, v);
      } else if v < |adj| {
        BlockedFromCycle(adj, Members(answer), v);
      }
    }
  }

  /** A counter that drops to zero puts its vertex in line, once. */
  lemma BecomesReady(indegree: seq<nat>, indegree': seq<nat>, v: nat, answer: seq<nat>, q: seq<nat>)
    requires v < |indegree| && indegree[v] > 0 && indegree' == indegree[v := indegree[v] - 1]
    requires Ready(indegree, answer + q)
    ensures Ready(indegree', if indegree'[v] == 0 then answer + (q + [v]) else answer + q)
  {
    var line := answer + q;
    assert answer + (q + [v]) == line + [v];
    assert v !in line;
  }

  lemma EmptyAnswer(adj: Adjacency)
    ensures Members<nat>([]) == {} && PredecessorsFirst(adj, [])
  {
  }

  /** The counting loops: one increment per arc. */
  method CountIncoming(adj: Adjacency, n: nat) returns (indegree: seq<nat>)
    requires |adj| == n && Closed(adj)
    ensures Degrees(adj, indegree, {})
  {
    indegree := seq(n, _ => 0);
    for i := 0 to n
      invariant |indegree| == n && forall x: nat :: x < n ==> indegree[x] == Pending(adj, {}, i, x)
    {
      assert adj[i][0..] == adj[i];
      for j := 0 to |adj[i]|
        invariant |indegree| == n && forall x: nat :: x < n ==>
          indegree[x] + CountTo(adj[i][j..], x) == Pending(adj, {}, i + 1, x)
      {
        var dest := adj[i][j].to;
        assert CountTo(adj[i][j..], dest) > 0;
        forall x: nat | x < n
          ensures CountTo(adj[i][j..], x) == (if dest == x then 1 else 0) + CountTo(adj[i][j + 1..], x) {
          NextArc(adj[i], j, x);
        }
        indegree := indegree[dest := indegree[dest] + 1];
      }
    }
  }

  /** The vertices that nothing leads to, in index order. */
  method FirstReady(indegree: seq<nat>) returns (q: seq<nat>)
    ensures Ready(indegree, q)
  {
    q := [];
    for i := 0 to |indegree|
      invariant NoDuplicates(q) && forall x: nat :: x in q <==> x < i && indegree[x] == 0
    {
      if indegree[i] == 0 {
        q := q + [i];
      }
    }
  }

  /** topological_sort. */
  method TopologicalSort(g: Graph) returns (answer: seq<nat>)
    requires g.Valid()
    ensures IsSorted(g.adjList[..], answer)
    ensures |answer| == g.adjList.Length <==> Acyclic(g.adjList[..])
  {
    hide PredecessorsFirst, IsSorted, Degrees, DegreesFrom, Ready, Acyclic, Members;
    var adj := g.GetAdjList();
    var n := g.adjList.Length;
    RepresentsIsClosed(adj, n, g.edges, g.undirected);
    var indegree := CountIncoming(adj, n);
    var q := FirstReady(indegree);
    answer := [];
    EmptyAnswer(adj);
    assert answer + q == q;
    while q != []
      invariant Degrees(adj, indegree, Members(answer)) && Ready(indegree, answer + q)
      invariant PredecessorsFirst(adj, answer)
      decreases n - |answer|
    {
      var v := q[0];
      assert answer + q == answer + [v] + q[1..];
      FrontIsNext(adj, indegree, answer, v, q[1..]);
      ghost var done := Members(answer) + {v};
      StartVertex(adj, indegree, Members(answer), v);
      answer := answer + [v];
      q := q[1..];
      for i := 0 to |adj[v]|
        invariant |indegree| == n && DegreesFrom(adj, indegree, done, v, i) && Ready(indegree, answer + q)
      {
        var dest := adj[v][i].to;
        ArcDone(adj, indegree, done, v, i);
        ghost var before := indegree;
        indegree := indegree[dest := indegree[dest] - 1];
        BecomesReady(before, indegree, dest, answer, q);
        if indegree[dest] == 0 {
          q := q + [dest];
        }
      }
      FinishVertex(adj, indegree, done, v);
    }
    assert answer + [] == answer;
    NothingReady(adj, indegree, answer);
    CompleteIffAcyclic(adj, answer);
  }
}
