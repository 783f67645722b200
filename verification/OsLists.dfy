/** The circular doubly linked lists that the kernel keeps tasks in. */
module OsLists {

  datatype TaskState = Ready | Running | Waiting

  /** eos_tcb_t, as far as scheduling needs it. */
  class Tcb {
    var state: TaskState
    var priority: nat

    constructor ()
    {
      state, priority := Waiting, 0;
    }
  }

  /** _os_node_t; priority and task are set when the node is made. */
  class OsNode {
    var previous: OsNode?
    var next: OsNode?
    const priority: nat
    const data: Tcb

    constructor (p: nat, task: Tcb)
      ensures previous == null && next == null && priority == p && data == task
    {
      previous, next, priority, data := null, null, p, task;
    }
  }

  ghost predicate Distinct(ns: seq<OsNode>) {
    forall i, j :: 0 <= i < j < |ns| ==> ns[i] != ns[j]
  }

  ghost predicate Joined(a: OsNode, b: OsNode)
    reads a`next, b`previous
  {
    a.next == b && b.previous == a
  }

  /** The nodes form one ring in this order; the list head points to the first. */
  ghost predicate Linked(ns: seq<OsNode>)
    reads ns`next, ns`previous
  {
    && Distinct(ns)
    && (forall i :: 0 <= i < |ns| - 1 ==> Joined(ns[i], ns[i + 1]))
    && (ns != [] ==> Joined(ns[|ns| - 1], ns[0]))
  }

  ghost function Head(ns: seq<OsNode>): OsNode? {
    if ns == [] then null else ns[0]
  }

  /** Puts the node before position i of the ring, or at its end when i is its length. */
  method LinkAt(node: OsNode, at: OsNode, ghost ns: seq<OsNode>, ghost i: nat)
    requires Linked(ns) && ns != [] && node !in ns && i <= |ns| && at == ns[if i == |ns| then 0 else i]
    requires at.previous != null
    modifies node`next, node`previous, at`previous, at.previous`next
    ensures Linked(ns[..i] + [node] + ns[i..])
  {
    ghost var r := ns[..i] + [node] + ns[i..];
    ghost var last := |ns| - 1;
    assert forall k :: 0 <= k < last ==> Joined(ns[k], ns[k + 1]);
    assert at.previous == ns[if i == 0 || i == |ns| then last else i - 1];
    node.previous := at.previous;
    node.previous.next := node;
    node.next := at;
    node.next.previous := node;
    Spread(ns, i, node);
    forall k | 0 <= k < |r| - 1 ensures Joined(r[k], r[k + 1]) {
      assert k + 1 < i ==> r[k] == ns[k] && r[k + 1] == ns[k + 1];
      assert k > i ==> r[k] == ns[k - 1] && r[k + 1] == ns[k];
    }
  }

  lemma Spread(ns: seq<OsNode>, i: nat, node: OsNode)
    requires Distinct(ns) && node !in ns && i <= |ns|
    ensures var r := ns[..i] + [node] + ns[i..];
            Distinct(r) && forall k :: 0 <= k < |r| ==>
              r[k] == if k < i then ns[k] else if k == i then node else ns[k - 1]
  {
  }

  /** _os_add_node_tail. */
  method AddNodeTail(head: OsNode?, node: OsNode, ghost ns: seq<OsNode>) returns (head': OsNode)
    requires Linked(ns) && head == Head(ns) && node !in ns
    modifies node`next, node`previous, ns`next, ns`previous
    ensures Linked(ns + [node]) && head' == Head(ns + [node])
  {
    if head != null {
      head' := head;
      assert Joined(ns[|ns| - 1], ns[0]);
      LinkAt(node, head, ns, |ns|);
      assert ns[..|ns|] + [node] + ns[|ns|..] == ns + [node];
    } else {
      head' := node;
      node.previous := node;
      node.next := node;
      assert ns + [node] == [node];
    }
  }

  /** _os_add_node_priority: the node goes behind every node before the first one of a greater
      priority number. */
  method AddNodePriority(head: OsNode?, node: OsNode, ghost ns: seq<OsNode>) returns (head': OsNode, ghost i: nat)
    requires Linked(ns) && head == Head(ns) && node !in ns
    modifies node`next, node`previous, ns`next, ns`previous
    ensures i <= |ns| && (forall k :: 0 <= k < i ==> ns[k].priority <= node.priority)
    ensures i < |ns| ==> ns[i].priority > node.priority
    ensures Linked(ns[..i] + [node] + ns[i..]) && head' == Head(ns[..i] + [node] + ns[i..])
  {
    i := 0;
    if head != null {
      var at: OsNode := head;
      head' := head;
      assert Joined(ns[|ns| - 1], ns[0]);
      if at.priority > node.priority {
        head' := node;
      } else {
        assert |ns| > 1 ==> Joined(ns[0], ns[1]);
        at := at.next;
        i := 1;
        while at.priority <= node.priority && at != head
          invariant 1 <= i <= |ns| && at == ns[if i == |ns| then 0 else i] && Linked(ns)
          invariant forall k :: 0 <= k < i ==> ns[k].priority <= node.priority
          decreases |ns| - i
        {
          assert i < |ns| - 1 ==> Joined(ns[i], ns[i + 1]);
          at := at.next;
          i := i + 1;
        }
      }
      assert i != 0 && i != |ns| ==> Joined(ns[i - 1], ns[i]);
      LinkAt(node, at, ns, i);
    } else {
      head' := node;
      node.previous := node;
      node.next := node;
      assert ns[..0] + [node] + ns[0..] == [node];
    }
  }

  /** Priority numbers ascend along the list. */
  ghost predicate Ascending(ns: seq<OsNode>) {
    forall j, k :: 0 <= j < k < |ns| ==> ns[j].priority <= ns[k].priority
  }

  /** Inserting by priority keeps the list ascending, and a node stands behind its equals. */
  lemma PriorityOrder(ns: seq<OsNode>, node: OsNode, i: nat)
    requires Ascending(ns) && i <= |ns| && forall k :: 0 <= k < i ==> ns[k].priority <= node.priority
    requires i < |ns| ==> ns[i].priority > node.priority
    ensures Ascending(ns[..i] + [node] + ns[i..])
    ensures forall k :: i <= k < |ns| ==> ns[k].priority > node.priority
  {
    var r := ns[..i] + [node] + ns[i..];
    assert forall k :: 0 <= k < |r| ==> r[k] == if k < i then ns[k] else if k == i then node else ns[k - 1];
  }

  /** _os_remove_node, for node i of the list or, when i is its length, for a detached node. */
  method RemoveNode(head: OsNode?, node: OsNode, ghost ns: seq<OsNode>, ghost i: nat)
      returns (head': OsNode?, removed: bool)
    requires Linked(ns) && head == Head(ns) && i <= |ns|
    requires if i < |ns| then ns[i] == node else node.next == null || node.previous == null
    modifies ns`next, ns`previous
    ensures removed <==> i < |ns|
    ensures removed ==> Linked(ns[..i] + ns[i + 1..]) && head' == Head(ns[..i] + ns[i + 1..])
    ensures !removed ==> Linked(ns) && head' == Head(ns)
    ensures removed ==> node.next == null && node.previous == null
  {
    if i < |ns| { Neighbours(ns, i); }
    if node.next == null || node.previous == null {
      return head, false;
    }
    head' := TakeOut(head, node, ns, i);
    removed := true;
  }

  /** The relinking of _os_remove_node. */
  method TakeOut(head: OsNode?, node: OsNode, ghost ns: seq<OsNode>, ghost i: nat) returns (head': OsNode?)
    requires Linked(ns) && head == Head(ns) && i < |ns| && ns[i] == node
    modifies ns`next, ns`previous
    ensures Linked(ns[..i] + ns[i + 1..]) && head' == Head(ns[..i] + ns[i + 1..])
    ensures node.next == null && node.previous == null
  {
    Neighbours(ns, i);
    ghost var r := ns[..i] + ns[i + 1..];
    head' := head;
    if node.next == node {
      SoleNode(ns, i);
      head' := null;
    } else {
      Unlink(node, ns, i);
      if node == head {
        head' := node.next;
      }
    }
    assert node !in r;
    node.next := null;
    node.previous := null;
  }

  lemma Neighbours(ns: seq<OsNode>, i: nat)
    requires Linked(ns) && i < |ns|
    ensures ns[i].next == ns[if i + 1 == |ns| then 0 else i + 1]
    ensures ns[i].previous == ns[if i == 0 then |ns| - 1 else i - 1]
  {
    assert i + 1 < |ns| ==> Joined(ns[i], ns[i + 1]);
    assert i > 0 ==> Joined(ns[i - 1], ns[i]);
  }

  lemma SoleNode(ns: seq<OsNode>, i: nat)
    requires Linked(ns) && i < |ns| && ns[i].next == ns[i]
    ensures |ns| == 1
  {
    Neighbours(ns, i);
  }

  /** The neighbours of the node are joined to each other. */
  method Unlink(node: OsNode, ghost ns: seq<OsNode>, ghost i: nat)
    requires Linked(ns) && i < |ns| && |ns| > 1 && ns[i] == node
    modifies ns`next, ns`previous
    ensures Linked(ns[..i] + ns[i + 1..]) && node.next == old(node.next) && node.previous == old(node.previous)
  {
    Neighbours(ns, i);
    ghost var r := ns[..i] + ns[i + 1..];
    assert forall k :: 0 <= k < |ns| - 1 ==> Joined(ns[k], ns[k + 1]);
    node.previous.next := node.next;
    node.next.previous := node.previous;
    Cut(ns, i);
    forall k | 0 <= k < |r| - 1 ensures Joined(r[k], r[k + 1]) {
      assert k + 1 < i ==> r[k] == ns[k] && r[k + 1] == ns[k + 1];
      assert k >= i ==> r[k] == ns[k + 1] && r[k + 1] == ns[k + 2];
    }
  }

  lemma Cut(ns: seq<OsNode>, i: nat)
    requires Distinct(ns) && i < |ns|
    ensures var r := ns[..i] + ns[i + 1..];
      Distinct(r) && forall k :: 0 <= k < |r| ==> r[k] == ns[if k < i then k else k + 1]
  {
  }
}
