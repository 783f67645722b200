/** The bitmap scheduler: ready queues by priority, dispatched through two levels of bitmaps. */
module Schedulers {
  import opened OsLists
  import opened ReadyBits

  const LEVELS := 64 // LOWEST_PRIORITY + 1

  /** The tasks of a list, in order. */
  ghost function TasksOf(ns: seq<OsNode>): seq<Tcb> {
    seq(|ns|, i requires 0 <= i < |ns| => ns[i].data)
  }

  // What scheduling means, on the queues as sequences of tasks.

  /** The smallest priority number that has a task ready, or the number of queues. */
  ghost function FirstReady(qs: seq<seq<Tcb>>): (p: nat)
    ensures p <= |qs| && (forall q :: 0 <= q < p ==> qs[q] == []) && (p < |qs| ==> qs[p] != [])
  {
    if qs == [] || qs[0] != [] then 0 else 1 + FirstReady(qs[1..])
  }

  ghost function Enqueued(qs: seq<seq<Tcb>>, p: nat, task: Tcb): seq<seq<Tcb>>
    requires p < |qs|
  {
    qs[p := qs[p] + [task]]
  }

  // The bitmaps agree with the queues.

  /** The bit of priority p says whether its queue has a task. */
  ghost predicate BitFits(table: seq<bv8>, rings: seq<seq<OsNode>>, p: nat)
    requires |table| == 8 && |rings| == LEVELS && p < LEVELS
  {
    Bit(table[p / 8], p % 8) <==> rings[p] != []
  }

  ghost predicate BitsAgree(group: bv8, table: seq<bv8>, rings: seq<seq<OsNode>>) {
    && |table| == 8 && |rings| == LEVELS
    && (forall p {:trigger BitFits(table, rings, p)} :: 0 <= p < LEVELS ==> BitFits(table, rings, p))
    && forall y {:trigger Bit(group, y)} :: 0 <= y < 8 ==> (Bit(group, y) <==> table[y] != 0)
  }

  /** _os_get_highest_priority. */
  function HighestPriority(group: bv8, table: seq<bv8>): (p: nat)
    requires |table| == 8
    ensures p < LEVELS
  {
    Unmap(group) * 8 + Unmap(table[Unmap(group)])
  }

  lemma Halves(y: nat, x: nat)
    requires y < 8 && x < 8
    ensures y * 8 + x < LEVELS && (y * 8 + x) / 8 == y && (y * 8 + x) % 8 == x
  {
  }

  /** A byte with a set bit. */
  lemma SetBitShows(g: bv8, i: nat)
    requires i < 8 && Bit(g, i)
    ensures g != 0
  {
    NoBits(g);
  }

  lemma LowestBitShows(g: bv8, rings: seq<seq<OsNode>>, table: seq<bv8>, y: nat, q: nat)
    requires |table| == 8 && |rings| == LEVELS && y < 8 && table[y] == g != 0
    requires forall p {:trigger BitFits(table, rings, p)} :: 0 <= p < LEVELS ==> BitFits(table, rings, p)
    ensures rings[y * 8 + Unmap(g)] != []
    ensures y * 8 <= q < y * 8 + Unmap(g) ==> rings[q] == []
  {
    hide Bit, Unmap;
    UnmapIsLowestBit(g);
    Halves(y, Unmap(g));
    assert BitFits(table, rings, y * 8 + Unmap(g));
    if y * 8 <= q < y * 8 + Unmap(g) {
      Halves(y, q - y * 8);
      assert BitFits(table, rings, q);
    }
  }

  /** The bitmaps lead to the first non-empty queue. */
  lemma HighestIsFirst(group: bv8, table: seq<bv8>, rings: seq<seq<OsNode>>, q: nat)
    requires BitsAgree(group, table, rings) && q < LEVELS && rings[q] != []
    ensures var p := HighestPriority(group, table);
            rings[p] != [] && forall r :: 0 <= r < p ==> rings[r] == []
  {
    hide Bit, Unmap;
    assert BitFits(table, rings, q);
    SetBitShows(table[q / 8], q % 8);
    SetBitShows(group, q / 8);
    UnmapIsLowestBit(group);
    var y := Unmap(group);
    forall r: nat | r < y * 8 + Unmap(table[y]) ensures rings[r] == [] {
      if r < y * 8 {
        EmptyGroup(group, table, rings, r);
      } else {
        LowestBitShows(table[y], rings, table, y, r);
      }
    }
    LowestBitShows(table[y], rings, table, y, 0);
  }

  lemma EmptyGroup(group: bv8, table: seq<bv8>, rings: seq<seq<OsNode>>, r: nat)
    requires BitsAgree(group, table, rings) && r < LEVELS && !Bit(group, r / 8)
    ensures rings[r] == []
  {
    hide Bit;
    assert BitFits(table, rings, r);
    NoBits(table[r / 8]);
  }

  /** _os_set_ready, together with a task arriving. */
  lemma SetReadyAgrees(group: bv8, table: seq<bv8>, rings: seq<seq<OsNode>>, p: nat, ns: seq<OsNode>)
    requires BitsAgree(group, table, rings) && p < LEVELS && ns != []
    ensures BitsAgree(SetBit(group, p / 8), table[p / 8 := SetBit(table[p / 8], p % 8)], rings[p := ns])
  {
    hide Bit, SetBit, ClearBit;
    var table' := table[p / 8 := SetBit(table[p / 8], p % 8)];
    var rings' := rings[p := ns];
    forall q | 0 <= q < LEVELS ensures BitFits(table', rings', q) {
      assert BitFits(table, rings, q);
      BitSet(table[p / 8], p % 8, q % 8);
    }
    forall y | 0 <= y < 8 ensures Bit(SetBit(group, p / 8), y) <==> table'[y] != 0 {
      BitSet(group, p / 8, y);
      BitSet(table[p / 8], p % 8, p % 8);
      if y == p / 8 { SetBitShows(table'[y], p % 8); }
    }
  }

  /** _os_unset_ready, together with the last task of a queue leaving. */
  lemma UnsetReadyAgrees(group: bv8, table: seq<bv8>, rings: seq<seq<OsNode>>, p: nat)
    requires BitsAgree(group, table, rings) && p < LEVELS
    ensures var entry := ClearBit(table[p / 8], p % 8);
            BitsAgree(if entry == 0 then ClearBit(group, p / 8) else group, table[p / 8 := entry], rings[p := []])
  {
    hide Bit, SetBit, ClearBit;
    var entry := ClearBit(table[p / 8], p % 8);
    TableUnset(table, rings, p, entry);
    GroupUnset(group, table, p / 8, p % 8, entry);
  }

  lemma TableUnset(table: seq<bv8>, rings: seq<seq<OsNode>>, p: nat, entry: bv8)
    requires |table| == 8 && |rings| == LEVELS && p < LEVELS && entry == ClearBit(table[p / 8], p % 8)
    requires forall q {:trigger BitFits(table, rings, q)} :: 0 <= q < LEVELS ==> BitFits(table, rings, q)
    ensures forall q {:trigger BitFits(table[p / 8 := entry], rings[p := []], q)} ::
              0 <= q < LEVELS ==> BitFits(table[p / 8 := entry], rings[p := []], q)
  {
    hide Bit, SetBit, ClearBit;
    var table', rings' := table[p / 8 := entry], rings[p := []];
    forall q | 0 <= q < LEVELS ensures BitFits(table', rings', q) {
      assert BitFits(table, rings, q);
      BitCleared(table[p / 8], p % 8, q % 8);
    }
  }

  lemma GroupUnset(group: bv8, table: seq<bv8>, row: nat, i: nat, entry: bv8)
    requires |table| == 8 && row < 8 && i < 8 && entry == ClearBit(table[row], i)
    requires forall y {:trigger Bit(group, y)} :: 0 <= y < 8 ==> (Bit(group, y) <==> table[y] != 0)
    ensures var group' := if entry == 0 then ClearBit(group, row) else group;
            forall y {:trigger Bit(group', y)} :: 0 <= y < 8 ==> (Bit(group', y) <==> table[row := entry][y] != 0)
  {
    hide Bit, SetBit, ClearBit;
    var group' := if entry == 0 then ClearBit(group, row) else group;
    forall y | 0 <= y < 8 ensures Bit(group', y) <==> table[row := entry][y] != 0 {
      assert Bit(group, y) <==> table[y] != 0;
      if entry == 0 { BitCleared(group, row, y); } else { StillSet(table[row], i); }
    }
  }

  lemma StillSet(g: bv8, i: nat)
    requires i < 8 && ClearBit(g, i) != 0
    ensures g != 0
  {
  }

  /** The lists of the ready queues share no node. */
  ghost predicate Apart(rings: seq<seq<OsNode>>) {
    forall p, q, n {:trigger n in rings[p], n in rings[q]} :: 0 <= p < q < |rings| && n in rings[p] ==> n !in rings[q]
  }

  ghost function QueuesOf(rings: seq<seq<OsNode>>): seq<seq<Tcb>> {
    seq(|rings|, p requires 0 <= p < |rings| => TasksOf(rings[p]))
  }

  ghost function AllNodes(rings: seq<seq<OsNode>>): set<OsNode> {
    set p, n | 0 <= p < |rings| && n in rings[p] :: n
  }

  lemma RingsInAll(rings: seq<seq<OsNode>>)
    ensures forall p, n {:trigger n in rings[p]} :: 0 <= p < |rings| && n in rings[p] ==> n in AllNodes(rings)
    ensures forall p, i {:trigger rings[p][i]} :: 0 <= p < |rings| && 0 <= i < |rings[p]| ==>
      rings[p][i] in AllNodes(rings)
    ensures allocated(AllNodes(rings))
  {
    forall p, i | 0 <= p < |rings| && 0 <= i < |rings[p]| ensures rings[p][i] in AllNodes(rings) {
      assert rings[p][i] in rings[p];
    }
  }

  /** Every queue is a sound list of its own, headed by its pointer. */
  ghost predicate ListsOk(heads: seq<OsNode?>, rings: seq<seq<OsNode>>)
    reads AllNodes(rings)
  {
    RingsInAll(rings);
    && |heads| == LEVELS == |rings| && Apart(rings)
    && forall p :: 0 <= p < LEVELS ==> Linked(rings[p]) && heads[p] == Head(rings[p])
  }

  class Scheduler {
    var readyGroup: bv8
    const readyTable: array<bv8>
    const readyQueue: array<OsNode?>
    var current: Tcb?
    ghost var rings: seq<seq<OsNode>>

    /** The lists are sound and the bitmaps agree with them. */
    ghost predicate Valid()
      reads this, readyTable, readyQueue, AllNodes(rings)
    {
      BitsAgree(readyGroup, readyTable[..], rings) && ListsOk(readyQueue[..], rings) && TwoArrays()
    }

    /** The bitmap and the queue heads are different arrays. */
    ghost predicate TwoArrays() {
      var table: object := readyTable;
      var heads: object := readyQueue;
      table != heads
    }

    ghost function Queues(): seq<seq<Tcb>>
      reads this
    {
      QueuesOf(rings)
    }

    /** The running task, if there is one. */
    ghost function RunningTask(): set<Tcb>
      reads this, Current()
    {
      if current != null && current.state == Running then {current} else {}
    }

    ghost function Current(): set<Tcb>
      reads this
    {
      if current == null then {} else {current}
    }

    /** The queues once a running task is back at the end of its own. */
    ghost function Requeued(qs: seq<seq<Tcb>>): seq<seq<Tcb>>
      requires forall t :: t in RunningTask() ==> t.priority < |qs|
      reads this, Current()
    {
      if current != null && current.state == Running then Enqueued(qs, current.priority, current) else qs
    }

    /** The first task of the smallest priority number in qs runs, and the others still wait. */
    ghost predicate RunsFirstOf(qs: seq<seq<Tcb>>)
      reads this, Current()
    {
      var p := FirstReady(qs);
      && p < |qs| && current == qs[p][0] && current.priority == p && current.state == Running
      && Queues() == qs[p := qs[p][1..]]
    }

    /** Sound lists of ready tasks, and no running task among them. */
    ghost predicate Ok()
      reads this, readyTable, readyQueue, AllNodes(rings), AllTasks(rings), Current()
    {
      Valid() && TasksOk(rings, current) && forall t :: t in RunningTask() ==> t.priority < LEVELS
    }

    /** _os_init_scheduler and _os_init_task. */
    constructor ()
      ensures Ok() && current == null && AllNodes(rings) == {} && AllTasks(rings) == {}
      ensures fresh(readyTable) && fresh(readyQueue)
      ensures forall p :: 0 <= p < |Queues()| ==> Queues()[p] == []
    {
      readyGroup, current := 0, null;
      readyTable := new bv8[8](_ => 0);
      readyQueue := new OsNode?[LEVELS](_ => null);
      rings := seq(LEVELS, _ => []);
      new;
      forall p | 0 <= p < LEVELS ensures BitFits(readyTable[..], rings, p) {
        NoBits(0);
      }
      forall y | 0 <= y < 8 ensures Bit(readyGroup, y) <==> readyTable[y] != 0 {
        NoBits(0);
      }
    }

    /** _os_set_ready, for the list ns that the queue of the priority is about to become. */
    method SetReady(priority: nat, ghost ns: seq<OsNode>)
      requires BitsAgree(readyGroup, readyTable[..], rings) && TwoArrays() && priority < LEVELS && ns != []
      modifies this`readyGroup, readyTable
      ensures BitsAgree(readyGroup, readyTable[..], rings[priority := ns])
    {
      hide BitsAgree, SetBit, ClearBit;
      ghost var table := readyTable[..];
      Rows(readyGroup, table, rings);
      SetReadyAgrees(readyGroup, table, rings, priority, ns);
      readyGroup := SetBit(readyGroup, priority / 8);
      readyTable[priority / 8] := SetBit(readyTable[priority / 8], priority % 8);
      assert readyTable[..] == table[priority / 8 := SetBit(table[priority / 8], priority % 8)];
    }

    /** _os_unset_ready, for a queue that is about to become empty. */
    method UnsetReady(priority: nat, ghost before: seq<seq<OsNode>>)
      requires BitsAgree(readyGroup, readyTable[..], before) && TwoArrays() && priority < LEVELS
      modifies this`readyGroup, readyTable
      ensures BitsAgree(readyGroup, readyTable[..], before[priority := []])
    {
      hide BitsAgree, SetBit, ClearBit;
      ghost var table := readyTable[..];
      Rows(readyGroup, table, before);
      UnsetReadyAgrees(readyGroup, table, before, priority);
      var entry := ClearBit(readyTable[priority / 8], priority % 8);
      readyTable[priority / 8] := entry;
      if entry == 0 {
        readyGroup := ClearBit(readyGroup, priority / 8);
      }
      assert readyTable[..] == table[priority / 8 := entry];
    }

    /** The three statements with which a task becomes ready: its bit, a node, the list's tail. */
    method Enqueue(task: Tcb)
      requires Valid() && task.priority < LEVELS
      modifies this`readyGroup, this`rings, readyTable, readyQueue, AllNodes(rings)
      ensures Valid() && Queues() == Enqueued(old(Queues()), task.priority, task)
      ensures forall n :: n in AllNodes(rings) && n !in old(AllNodes(rings)) ==> fresh(n)
      ensures |rings| == |old(rings)| && task.priority < |rings| && exists node ::
        node in rings[task.priority] && rings == old(rings)[task.priority := old(rings[task.priority]) + [node]]
        && node.data == task
    {
      hide BitsAgree, ListsOk;
      var p := task.priority;
      RingsInAll(rings);
      ghost var heads := readyQueue[..];
      Sizes(heads, rings);
      var node := new OsNode(p, task);
      GrownQueues(rings, p, node);
      SetReady(p, rings[p] + [node]);
      assert readyQueue[..] == heads;
      ghost var table := readyTable[..];
      Append(p, node);
      assert readyTable[..] == table;
      assert rings[p][|rings[p]| - 1] == node;
    }

    /** The first half of eos_schedule: a running task goes back to the end of its queue. */
    method Requeue()
      requires Ok()
      modifies this, readyTable, readyQueue, AllNodes(rings), Current()`state
      ensures Valid() && TasksOk(rings, null) && current == null
      ensures Queues() == old(Requeued(Queues()))
      ensures forall n :: n in AllNodes(rings) && n !in old(AllNodes(rings)) ==> fresh(n)
      ensures AllTasks(rings) == old(AllTasks(rings) + RunningTask())
    {
      hide BitsAgree, ListsOk, Apart, TasksOk, QueuesOf, AllTasks, AllNodes;
      TasksInAll(rings);
      if current != null {
        NoCurrent(rings, current);
        if current.state == Running {
          CurrentOutside(rings, current);
          ghost var before, p := rings, current.priority;
          current.state := Ready;
          Enqueue(current);
          TasksGrown(before, p, rings, current, null);
        }
        TasksInAll(rings);
        assert TasksOk(rings, null);
        current := null;
      }
    }

    /** eos_schedule: a running task goes back to the end of its queue; then the first task of
        the smallest ready priority number leaves its queue and runs. Without an idle task the
        caller must know that some task is ready. No task is lost or added. */
    method Schedule()
      requires Ok() && AllTasks(rings) + RunningTask() != {}
      modifies this, readyTable, readyQueue, AllNodes(rings), Current()`state, AllTasks(rings)`state
      ensures Ok() && RunsFirstOf(old(Requeued(Queues())))
      ensures forall n :: n in AllNodes(rings) && n !in old(AllNodes(rings)) ==> fresh(n)
      ensures current !in AllTasks(rings) && AllTasks(rings) + {current} == old(AllTasks(rings) + RunningTask())
    {
      hide BitsAgree, ListsOk, Apart, FirstReady, TasksOk, HighestPriority, QueuesOf, AllTasks, AllNodes, Enqueued;
      Requeue();
      Sizes(readyQueue[..], rings);
      Rows(readyGroup, readyTable[..], rings);
      ghost var q := SomeQueue(rings);
      HighestIsFirst(readyGroup, readyTable[..], rings, q);
      var priority := HighestPriority(readyGroup, readyTable[..]);
      FirstIn(rings, priority);
      ShrunkQueues(rings, priority);
      Dispatch(priority);
    }

    /** eos_create_task: the new task is READY at the end of its queue. */
    method CreateTask(task: Tcb, priority: nat)
      requires Ok() && task !in AllTasks(rings) && task != current && priority < LEVELS
      modifies this`readyGroup, this`rings, readyTable, readyQueue, AllNodes(rings), task`priority, task`state
      ensures Ok() && task.priority == priority && task.state == Ready
      ensures Queues() == Enqueued(old(Queues()), priority, task) && current == old(current)
      ensures forall n :: n in AllNodes(rings) && n !in old(AllNodes(rings)) ==> fresh(n)
      ensures AllTasks(rings) == old(AllTasks(rings)) + {task}
    {
      hide BitsAgree, ListsOk, Apart, TasksOk, AllTasks, QueuesOf;
      TasksInAll(rings);
      ghost var before := rings;
      task.priority := priority;
      task.state := Ready;
      Enqueue(task);
      TasksGrown(before, priority, rings, task, current);
    }

    /** _os_wakeup_sleeping_task: the woken task queues up behind its equals, then the scheduler
        chooses again. */
    method WakeUp(task: Tcb)
      requires Ok() && task !in AllTasks(rings) && task != current && task.priority < LEVELS
      modifies this, readyTable, readyQueue, AllNodes(rings), Current()`state, AllTasks(rings)`state, task`state
      ensures Ok() && RunsFirstOf(old(Requeued(Enqueued(Queues(), task.priority, task))))
      ensures forall n :: n in AllNodes(rings) && n !in old(AllNodes(rings)) ==> fresh(n)
      ensures current !in AllTasks(rings)
      ensures AllTasks(rings) + {current} == old(AllTasks(rings) + RunningTask()) + {task}
    {
      hide BitsAgree, ListsOk, Apart, FirstReady, TasksOk, QueuesOf, AllTasks;
      TasksInAll(rings);
      ghost var before, p := rings, task.priority;
      task.state := Ready;
      Enqueue(task);
      TasksGrown(before, p, rings, task, current);
      Schedule();
    }

    /** The first task of the queue leaves it and runs. */
    method Dispatch(priority: nat)
      requires Valid() && priority < LEVELS && rings[priority] != [] && TasksOk(rings, null)
      modifies this, readyTable, readyQueue, AllNodes(rings), AllTasks(rings)`state
      ensures Valid() && rings == old(rings)[priority := old(rings[priority])[1..]]
      ensures current == old(rings[priority])[0].data && current.state == Running && TasksOk(rings, current)
      ensures AllNodes(rings) <= old(AllNodes(rings)) && current.priority == priority
      ensures current !in AllTasks(rings) && AllTasks(rings) + {current} == old(AllTasks(rings))
    {
      hide BitsAgree, ListsOk, Apart, TasksOk, AllTasks, Linked;
      ghost var before := rings;
      Sizes(readyQueue[..], before);
      Rows(readyGroup, readyTable[..], before);
      TasksShrunk(before, priority);
      var nextNode := TakeFirst(priority);
      ClearIfEmpty(priority, before);
      current := nextNode.data;
      current.state := Running;
    }

    /** After the last task of a queue has left, its bit goes too. */
    method ClearIfEmpty(priority: nat, ghost before: seq<seq<OsNode>>)
      requires BitsAgree(readyGroup, readyTable[..], before) && priority < LEVELS == |before| == readyQueue.Length
        && TwoArrays()
      requires before[priority] != [] && rings == before[priority := before[priority][1..]]
        && readyQueue[priority] == Head(rings[priority])
      modifies this`readyGroup, readyTable
      ensures BitsAgree(readyGroup, readyTable[..], rings)
    {
      hide BitsAgree;
      if readyQueue[priority] == null {
        UnsetReady(priority, before);
      } else {
        StillAgrees(readyGroup, readyTable[..], before, priority, rings[priority]);
      }
    }

    /** _os_remove_node on the first node of a ready queue. */
    method TakeFirst(p: nat) returns (node: OsNode)
      requires ListsOk(readyQueue[..], rings) && TwoArrays() && p < LEVELS && |rings| == LEVELS && rings[p] != []
      modifies this`rings, readyQueue, AllNodes(rings)
      ensures rings == old(rings)[p := old(rings[p])[1..]] && ListsOk(readyQueue[..], rings)
      ensures node == old(rings[p])[0] && AllNodes(rings) <= old(AllNodes(rings))
      ensures readyQueue[p] == Head(rings[p])
    {
      hide Linked, Head, Apart, ListsOk;
      ghost var before, heads := rings, readyQueue[..];
      Sizes(heads, before);
      Isolate(heads, before, p);
      HeadIsFirst(before[p]);
      node := readyQueue[p];
      var head, removed := RemoveNode(readyQueue[p], node, before[p], 0);
      readyQueue[p] := head;
      assert before[p][..0] + before[p][0 + 1..] == before[p][1..];
      rings := rings[p := rings[p][1..]];
      ShrunkApart(before, p);
      Rejoin(heads, before, p, before[p][1..], head);
      assert readyQueue[..] == heads[p := head];
    }

    /** _os_add_node_tail on a ready queue. */
    method Append(p: nat, node: OsNode)
      requires ListsOk(readyQueue[..], rings) && TwoArrays() && p < LEVELS && node !in AllNodes(rings)
      modifies this`rings, readyQueue, AllNodes(rings), node
      ensures rings == old(rings)[p := old(rings[p]) + [node]] && ListsOk(readyQueue[..], rings)
      ensures AllNodes(rings) == old(AllNodes(rings)) + {node}
    {
      hide Linked, Head, Apart, ListsOk;
      ghost var before, heads := rings, readyQueue[..];
      Sizes(heads, before);
      Isolate(heads, before, p);
      GrownApart(before, p, node);
      var head := AddNodeTail(readyQueue[p], node, rings[p]);
      readyQueue[p] := head;
      rings := rings[p := rings[p] + [node]];
      Rejoin(heads, before, p, before[p] + [node], head);
      assert readyQueue[..] == heads[p := head];
    }
  }

  /** The first task leaves its queue. */
  lemma ShrunkQueues(rings: seq<seq<OsNode>>, p: nat)
    requires p < |rings| && rings[p] != []
    ensures QueuesOf(rings[p := rings[p][1..]]) == QueuesOf(rings)[p := QueuesOf(rings)[p][1..]]
    ensures QueuesOf(rings)[p] != [] && QueuesOf(rings)[p][0] == rings[p][0].data
  {
    assert TasksOf(rings[p][1..]) == TasksOf(rings[p])[1..];
  }

  lemma ShrunkApart(rings: seq<seq<OsNode>>, p: nat)
    requires Apart(rings) && p < |rings| && rings[p] != []
    ensures Apart(rings[p := rings[p][1..]]) && AllNodes(rings[p := rings[p][1..]]) <= AllNodes(rings)
  {
    RingsInAll(rings);
    var r := rings[p := rings[p][1..]];
    assert forall q, n {:trigger n in r[q]} :: 0 <= q < |r| && n in r[q] ==> n in rings[q];
  }

  /** Where queues are empty and where not, in both views. */
  lemma FirstIn(rings: seq<seq<OsNode>>, p: nat)
    requires p < |rings| && rings[p] != [] && forall r :: 0 <= r < p ==> rings[r] == []
    ensures FirstReady(QueuesOf(rings)) == p < |QueuesOf(rings)|
  {
    var qs := QueuesOf(rings);
    assert forall q :: 0 <= q < |rings| ==> (qs[q] == [] <==> rings[q] == []);
  }

  lemma HeadIsFirst(ns: seq<OsNode>)
    requires ns != []
    ensures Head(ns) == ns[0]
  {
  }

  /** Queued tasks are READY, stand in the queue of their priority, once, and none of them is
      the current one. */
  ghost predicate TasksOk(rings: seq<seq<OsNode>>, current: Tcb?)
    reads AllTasks(rings)
  {
    TasksInAll(rings);
    && (forall p, i {:trigger rings[p][i]} :: 0 <= p < |rings| && 0 <= i < |rings[p]| ==>
          var t := rings[p][i].data; t.state == Ready && t.priority == p && t != current)
    && forall p, i, q, j {:trigger rings[p][i], rings[q][j]} ::
         (0 <= p < |rings| && 0 <= i < |rings[p]| && 0 <= q < |rings| && 0 <= j < |rings[q]|
           && rings[p][i].data == rings[q][j].data)
         ==> p == q && i == j
  }

  lemma TasksInAll(rings: seq<seq<OsNode>>)
    ensures forall p, i {:trigger rings[p][i]} :: 0 <= p < |rings| && 0 <= i < |rings[p]| ==>
      rings[p][i].data in AllTasks(rings)
    ensures allocated(AllTasks(rings))
  {
    forall p, i | 0 <= p < |rings| && 0 <= i < |rings[p]| ensures rings[p][i].data in AllTasks(rings) {
      assert rings[p][i] in rings[p];
    }
  }

  lemma CurrentOutside(rings: seq<seq<OsNode>>, current: Tcb)
    requires TasksOk(rings, current)
    ensures current !in AllTasks(rings) && allocated(AllTasks(rings))
  {
    TasksInAll(rings);
    forall p, n: OsNode | 0 <= p < |rings| && n in rings[p] ensures n.data != current {
      var i :| 0 <= i < |rings[p]| && rings[p][i] == n;
    }
  }

  /** Where there is a task, there is a queue with one. */
  lemma SomeQueue(rings: seq<seq<OsNode>>) returns (q: nat)
    requires AllTasks(rings) != {}
    ensures q < |rings| && rings[q] != []
  {
    var t :| t in AllTasks(rings);
    var p: nat, n: OsNode :| 0 <= p < |rings| && n in rings[p] && n.data == t;
    q := p;
  }

  /** A task that has become READY joins its queue. */
  lemma TasksGrown(rings: seq<seq<OsNode>>, p: nat, rings': seq<seq<OsNode>>, task: Tcb, current: Tcb?)
    requires TasksOk(rings, current) && task !in AllTasks(rings) && task != current && p < |rings| == |rings'|
      && task.state == Ready && task.priority == p
    requires exists node :: node in rings'[p] && rings' == rings[p := rings[p] + [node]] && node.data == task
    ensures TasksOk(rings', current) && AllTasks(rings') == AllTasks(rings) + {task}
  {
    var node :| node in rings'[p] && rings' == rings[p := rings[p] + [node]] && node.data == task;
    TasksInAll(rings);
    TasksInAll(rings');
    OneMore(rings, p, node);
    hide AllTasks;
    assert forall q, i {:trigger rings'[q][i]} :: 0 <= q < |rings| && 0 <= i < |rings[q]| ==>
      rings'[q][i] == rings[q][i];
    assert rings'[p][|rings[p]|] == node;
  }

  lemma OneMore(rings: seq<seq<OsNode>>, p: nat, node: OsNode)
    requires p < |rings|
    ensures AllTasks(rings[p := rings[p] + [node]]) == AllTasks(rings) + {node.data}
  {
    var rings' := rings[p := rings[p] + [node]];
    assert node in rings'[p];
    forall t | t in AllTasks(rings) ensures t in AllTasks(rings') {
      var q: nat, n: OsNode :| 0 <= q < |rings| && n in rings[q] && n.data == t;
      assert n in rings'[q];
    }
  }

  /** A task that has left its queue may run. */
  lemma TasksShrunk(rings: seq<seq<OsNode>>, p: nat)
    requires TasksOk(rings, null) && p < |rings| && rings[p] != []
    ensures var rings' := rings[p := rings[p][1..]];
            && rings[p][0].data !in AllTasks(rings') && AllTasks(rings') <= AllTasks(rings)
            && TasksOk(rings', rings[p][0].data) && AllTasks(rings') + {rings[p][0].data} == AllTasks(rings)
            && rings[p][0].data.priority == p
    ensures allocated(AllTasks(rings)) && allocated(AllTasks(rings[p := rings[p][1..]]))
  {
    var rings' := rings[p := rings[p][1..]];
    TasksInAll(rings);
    TasksInAll(rings');
    FirstAlone(rings, p);
    hide AllTasks;
    assert forall q, i {:trigger rings'[q][i]} :: 0 <= q < |rings'| && 0 <= i < |rings'[q]| ==>
      rings'[q][i] == rings[q][if q == p then i + 1 else i];
  }

  /** The first task of a queue, and the others. */
  lemma FirstAlone(rings: seq<seq<OsNode>>, p: nat)
    requires TasksOk(rings, null) && p < |rings| && rings[p] != []
    ensures var rings' := rings[p := rings[p][1..]];
            rings[p][0].data !in AllTasks(rings') && AllTasks(rings') + {rings[p][0].data} == AllTasks(rings)
  {
    var rings' := rings[p := rings[p][1..]];
    TasksInAll(rings);
    forall t | t in AllTasks(rings') ensures t in AllTasks(rings) && t != rings[p][0].data {
      var q: nat, n: OsNode :| 0 <= q < |rings'| && n in rings'[q] && n.data == t;
      var i :| 0 <= i < |rings'[q]| && rings'[q][i] == n;
      assert rings[q][if q == p then i + 1 else i] == n;
      assert rings[p][0].data == t ==> q == p && i + 1 == 0;
    }
    forall t | t in AllTasks(rings) ensures t in AllTasks(rings') || t == rings[p][0].data {
      var q: nat, n: OsNode :| 0 <= q < |rings| && n in rings[q] && n.data == t;
      assert n in rings'[q] || (q == p && n == rings[p][0]);
    }
  }

  lemma NoCurrent(rings: seq<seq<OsNode>>, current: Tcb)
    requires TasksOk(rings, current)
    ensures TasksOk(rings, null)
  {
  }

  ghost function AllTasks(rings: seq<seq<OsNode>>): set<Tcb> {
    set p, n | 0 <= p < |rings| && n in rings[p] :: n.data
  }

  /** One of the lists, and the others without it. */
  lemma Isolate(heads: seq<OsNode?>, rings: seq<seq<OsNode>>, p: nat)
    requires ListsOk(heads, rings) && p < LEVELS
    ensures |heads| == LEVELS == |rings| && Linked(rings[p]) && heads[p] == Head(rings[p]) && Apart(rings)
    ensures ListsOk(heads[p := null], rings[p := []])
    ensures forall n :: n in rings[p] ==> n in AllNodes(rings) && n !in AllNodes(rings[p := []])
    ensures AllNodes(rings[p := []]) <= AllNodes(rings) && allocated(AllNodes(rings))
      && allocated(AllNodes(rings[p := []]))
  {
    hide Linked, Apart, Head, AllNodes;
    Emptied(rings, p);
    NoList();
    RingsInAll(rings);
    var heads', rings' := heads[p := null], rings[p := []];
    forall q | 0 <= q < LEVELS ensures Linked(rings'[q]) && heads'[q] == Head(rings'[q]) {
      if q != p { assert rings'[q] == rings[q] && heads'[q] == heads[q]; }
    }
  }

  lemma NoList()
    ensures Linked([]) && Head([]) == null
  {
  }

  lemma Emptied(rings: seq<seq<OsNode>>, p: nat)
    requires Apart(rings) && p < |rings|
    ensures Apart(rings[p := []]) && AllNodes(rings[p := []]) <= AllNodes(rings)
    ensures forall n :: n in rings[p] ==> n !in AllNodes(rings[p := []])
    ensures allocated(AllNodes(rings[p := []]))
  {
    var others := rings[p := []];
    RingsInAll(rings);
    RingsInAll(others);
    forall n | n in AllNodes(others) ensures n in AllNodes(rings) && n !in rings[p] {
      var q :| 0 <= q < |others| && n in others[q];
      assert n in rings[q] && q != p;
    }
  }

  lemma Rejoin(heads: seq<OsNode?>, rings: seq<seq<OsNode>>, p: nat, ns: seq<OsNode>, head: OsNode?)
    requires |heads| == LEVELS == |rings| && p < LEVELS && ListsOk(heads[p := null], rings[p := []])
    requires Linked(ns) && head == Head(ns) && Apart(rings[p := ns])
    ensures ListsOk(heads[p := head], rings[p := ns])
  {
    hide Linked, Head, Apart;
    var heads', rings' := heads[p := head], rings[p := ns];
    forall q | 0 <= q < LEVELS ensures Linked(rings'[q]) && heads'[q] == Head(rings'[q]) {
      if q != p { assert rings[p := []][q] == rings'[q] && heads[p := null][q] == heads'[q]; }
    }
  }

  lemma Sizes(heads: seq<OsNode?>, rings: seq<seq<OsNode>>)
    requires ListsOk(heads, rings)
    ensures |heads| == LEVELS == |rings|
  {
  }

  /** A queue that stays non-empty needs no change of bits. */
  lemma StillAgrees(group: bv8, table: seq<bv8>, rings: seq<seq<OsNode>>, p: nat, ns: seq<OsNode>)
    requires BitsAgree(group, table, rings) && p < LEVELS && rings[p] != [] && ns != []
    ensures BitsAgree(group, table, rings[p := ns])
  {
    hide Bit;
    var rings' := rings[p := ns];
    forall q | 0 <= q < LEVELS ensures BitFits(table, rings', q) {
      assert BitFits(table, rings, q);
    }
  }

  lemma Rows(group: bv8, table: seq<bv8>, rings: seq<seq<OsNode>>)
    requires BitsAgree(group, table, rings)
    ensures |table| == 8 && |rings| == LEVELS
  {
  }

  lemma GrownApart(rings: seq<seq<OsNode>>, p: nat, node: OsNode)
    requires Apart(rings) && p < |rings| && node !in AllNodes(rings)
    ensures Apart(rings[p := rings[p] + [node]])
    ensures AllNodes(rings[p := rings[p] + [node]]) == AllNodes(rings) + {node}
  {
    RingsInAll(rings);
    var r := rings[p := rings[p] + [node]];
    assert node in r[p];
    forall n | n in AllNodes(rings) ensures n in AllNodes(r) {
      var q :| 0 <= q < |rings| && n in rings[q];
      assert n in r[q];
    }
  }

  lemma GrownQueues(rings: seq<seq<OsNode>>, p: nat, node: OsNode)
    requires p < |rings|
    ensures QueuesOf(rings[p := rings[p] + [node]]) == Enqueued(QueuesOf(rings), p, node.data)
  {
    assert TasksOf(rings[p] + [node]) == TasksOf(rings[p]) + [node.data];
  }
}
