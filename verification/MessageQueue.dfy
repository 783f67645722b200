/** The message queue as an interleaving of one sender's and one receiver's atomic steps: the
    semaphore operations with their waiting and waking, the copying of single bytes and the
    index updates. */
module MessageQueues {
  import opened Division

  /** How far a caller has come that found the count at zero. Its node is in the wait queue
      while it is still running (Listed) and when it is suspended (Asleep). A release takes the
      node out, also between the two (Called); a woken caller tests the count again. */
  datatype Stage = Listed | Called | Asleep | Woken

  predicate InQueue(stage: Stage) { stage.Listed? || stage.Asleep? }

  /** A release takes the node out of the wait queue and makes the task ready. */
  function Wake(stage: Stage): Stage {
    match stage case Listed => Called case Asleep => Woken case _ => stage
  }

  /** eos_suspend_task and eos_schedule: a called task is ready and comes back at once. */
  function Suspend(stage: Stage): Stage {
    match stage case Listed => Asleep case Called => Woken case _ => stage
  }

  /** Where eos_send_message stands; the message is fixed when the call begins. */
  datatype Sender =
    | Outside
    | Waiting(stage: Stage, pending: seq<int>)
    | Copying(message: seq<int>, k: nat)
    | Advancing
    | Releasing

  /** Where eos_receive_message stands; `got` is what has been copied out so far. */
  datatype Receiver = Away | Blocked(stage: Stage) | Reading(got: seq<int>) | Moving | GivingBack

  /** The sender has passed putsem, and the receiver getsem. */
  predicate Sends(s: Sender) { s.Copying? || s.Advancing? || s.Releasing? }

  predicate Receives(r: Receiver) { r.Reading? || r.Moving? || r.GivingBack? }

  datatype Queue = Queue(
    size: nat,            // queue_size
    msgSize: nat,         // msg_size
    store: seq<int>,      // the bytes at queue_start
    front: nat,
    rear: nat,
    putsem: nat,          // count of the semaphore for free slots
    getsem: nat,          // count of the semaphore for filled slots
    sender: Sender,
    receiver: Receiver,
    sent: seq<seq<int>>,      // messages whose sender has passed putsem, in order
    received: seq<seq<int>>   // messages copied out completely, in order
  )

  /** eos_init_mqueue, over a store that is large enough. */
  function Init(size: nat, msgSize: nat, store: seq<int>): Queue {
    Queue(size, msgSize, store, 0, 0, size, 0, Outside, Away, [], [])
  }

  datatype Step =
    | TrySend(message: seq<int>, wait: bool)  // eos_acquire_semaphore(putsem), with or without waiting
    | SuspendSender                           // eos_suspend_task and eos_schedule, interrupts enabled again
    | RetrySend                               // its test after having been woken
    | CopyIn                      // one byte of memcpy into the slot at rear
    | AdvanceRear
    | ReleaseGet                  // eos_release_semaphore(getsem)
    | TryReceive(wait: bool)      // eos_acquire_semaphore(getsem)
    | SuspendReceiver
    | RetryReceive
    | CopyOut                     // one byte of memcpy from the slot at front
    | AdvanceFront
    | ReleasePut                  // eos_release_semaphore(putsem)

  /** The index after a slot: back to 0 behind the last one. */
  function Following(i: nat, size: nat): nat {
    if i + 1 < size then i + 1 else 0
  }

  predicate SenderWoken(q: Queue) { q.sender.Waiting? && q.sender.stage.Woken? }

  predicate ReceiverWoken(q: Queue) { q.receiver.Blocked? && q.receiver.stage.Woken? }

  /** A step that its side is not ready for does nothing. */
  function Take(q: Queue, step: Step): Queue {
    match step
    case TrySend(message, wait) =>
      if !q.sender.Outside? || |message| != q.msgSize then q else AcquirePut(q, message, wait)
    case SuspendSender =>
      if q.sender.Waiting? then q.(sender := Waiting(Suspend(q.sender.stage), q.sender.pending)) else q
    case RetrySend =>
      if SenderWoken(q) then AcquirePut(q, q.sender.pending, true) else q
    case CopyIn =>
      if !q.sender.Copying? then q
      else if q.sender.k >= q.msgSize then q.(sender := Advancing)
      else if q.rear * q.msgSize + q.sender.k >= |q.store| || q.sender.k >= |q.sender.message| then q
      else q.(store := q.store[q.rear * q.msgSize + q.sender.k := q.sender.message[q.sender.k]],
              sender := Copying(q.sender.message, q.sender.k + 1))
    case AdvanceRear =>
      if q.sender.Advancing? then q.(rear := Following(q.rear, q.size), sender := Releasing) else q
    case ReleaseGet =>
      if q.sender.Releasing?
      then q.(getsem := q.getsem + 1, sender := Outside,
              receiver := if q.receiver.Blocked? then Blocked(Wake(q.receiver.stage)) else q.receiver)
      else q
    case TryReceive(wait) =>
      if q.receiver.Away? then AcquireGet(q, wait) else q
    case SuspendReceiver =>
      if q.receiver.Blocked? then q.(receiver := Blocked(Suspend(q.receiver.stage))) else q
    case RetryReceive =>
      if ReceiverWoken(q) then AcquireGet(q, true) else q
    case CopyOut =>
      if !q.receiver.Reading? then q
      else if |q.receiver.got| >= q.msgSize then q.(receiver := Moving, received := q.received + [q.receiver.got])
      else if q.front * q.msgSize + |q.receiver.got| >= |q.store| then q
      else q.(receiver := Reading(q.receiver.got + [q.store[q.front * q.msgSize + |q.receiver.got|]]))
    case AdvanceFront =>
      if q.receiver.Moving? then q.(front := Following(q.front, q.size), receiver := GivingBack) else q
    case ReleasePut =>
      if q.receiver.GivingBack?
      then q.(putsem := q.putsem + 1, receiver := Away,
              sender := if q.sender.Waiting? then Waiting(Wake(q.sender.stage), q.sender.pending) else q.sender)
      else q
  }

  /** The test of putsem with interrupts disabled: a slot is taken, or the sender joins the
      wait queue, or the call fails at once. */
  function AcquirePut(q: Queue, message: seq<int>, wait: bool): Queue {
    if q.putsem > 0 then q.(putsem := q.putsem - 1, sender := Copying(message, 0), sent := q.sent + [message])
    else if wait then q.(sender := Waiting(Listed, message))
    else q
  }

  function AcquireGet(q: Queue, wait: bool): Queue {
    if q.getsem > 0 then q.(getsem := q.getsem - 1, receiver := Reading([]))
    else if wait then q.(receiver := Blocked(Listed))
    else q
  }

  function Run(q: Queue, steps: seq<Step>): Queue {
    if steps == [] then q else Take(Run(q, steps[..|steps| - 1]), steps[|steps| - 1])
  }

  // The invariant.

  function Busy(b: bool): nat { if b then 1 else 0 }

  /** Messages whose bytes are all in the store. */
  function Written(q: Queue): int { |q.sent| - Busy(q.sender.Copying?) }

  /** Messages behind which rear has moved, and in front of which front has moved. */
  function Passed(q: Queue): int { |q.sent| - Busy(q.sender.Copying? || q.sender.Advancing?) }

  function Taken(q: Queue): int { |q.received| - Busy(q.receiver.Moving?) }

  /** Byte k of the slot that message j occupies. */
  function Cell(q: Queue, j: nat, k: nat): nat
    requires q.size > 0
  {
    (j % q.size) * q.msgSize + k
  }

  ghost predicate Fits(q: Queue) {
    q.size > 0 && |q.store| == q.size * q.msgSize && forall j :: 0 <= j < |q.sent| ==> |q.sent[j]| == q.msgSize
  }

  /** Every slot is free, filled or held by one of the two sides. */
  ghost predicate SlotsConserved(q: Queue) {
    q.putsem + q.getsem + Busy(Sends(q.sender)) + Busy(Receives(q.receiver)) == q.size
  }

  ghost predicate Counted(q: Queue) {
    && SlotsConserved(q)
    && q.getsem == |q.sent| - Busy(Sends(q.sender)) - |q.received| - Busy(q.receiver.Reading?)
  }

  ghost predicate Placed(q: Queue)
    requires q.size > 0
  {
    Passed(q) >= 0 && Taken(q) >= 0 && q.rear == Passed(q) % q.size && q.front == Taken(q) % q.size
  }

  /** Message j, not yet received, stands complete in its slot. */
  ghost predicate Stands(q: Queue, j: nat)
    requires Fits(q) && j < |q.sent|
  {
    CellsFit(q, j);
    forall k :: 0 <= k < q.msgSize ==> q.store[Cell(q, j, k)] == q.sent[j][k]
  }

  lemma CellsFit(q: Queue, j: nat)
    requires Fits(q)
    ensures forall k :: 0 <= k < q.msgSize ==> Cell(q, j, k) < |q.store|
  {
    forall k | 0 <= k < q.msgSize ensures Cell(q, j, k) < |q.store| {
      SlotEnds(j % q.size, q.size, q.msgSize);
    }
  }

  lemma SlotEnds(slot: nat, size: nat, m: nat)
    requires slot < size
    ensures slot * m + m <= size * m
  {
    Grows(m, size - slot - 1);
    InParts(slot, size - slot - 1, m);
  }

  lemma InParts(a: nat, b: nat, m: nat)
    ensures (a + 1 + b) * m == a * m + m + m * b
  {
  }

  /** Every written and not yet received message stands untouched. */
  ghost predicate Intact(q: Queue)
    requires Fits(q)
  {
    Written(q) >= 0 && forall j: nat :: |q.received| <= j < Written(q) ==> Stands(q, j)
  }

  /** The sender has copied a prefix of the message it is sending. */
  ghost predicate Sending(q: Queue)
    requires Fits(q)
  {
    q.sender.Copying? ==>
      && q.sent != [] && q.sender.message == q.sent[|q.sent| - 1] && q.sender.k <= q.msgSize
      && (CellsFit(q, |q.sent| - 1);
          forall k :: 0 <= k < q.sender.k ==> q.store[Cell(q, |q.sent| - 1, k)] == q.sender.message[k])
  }

  /** The receiver has copied a prefix of the oldest message not yet received. */
  ghost predicate Receiving(q: Queue) {
    q.receiver.Reading? ==> |q.received| < |q.sent| && q.receiver.got <= q.sent[|q.received|]
  }

  /** A side is in the wait queue exactly while there is nothing for it to take. */
  ghost predicate NoLostWakeUp(q: Queue) {
    && (q.sender.Waiting? ==> (InQueue(q.sender.stage) <==> q.putsem == 0) && |q.sender.pending| == q.msgSize)
    && (q.receiver.Blocked? ==> (InQueue(q.receiver.stage) <==> q.getsem == 0))
  }

  ghost predicate Inv(q: Queue) {
    && Fits(q) && Counted(q) && Placed(q) && Intact(q) && Sending(q) && Receiving(q)
    && q.received <= q.sent && NoLostWakeUp(q)
  }

  lemma InitInv(size: nat, msgSize: nat, store: seq<int>)
    requires size > 0 && |store| == size * msgSize
    ensures Inv(Init(size, msgSize, store))
  {
  }

  // Slots and cells.

  lemma NextSlot(i: nat, size: nat)
    requires size > 0
    ensures Following(i % size, size) == (i + 1) % size
  {
    var q, r := i / size, i % size;
    assert i == size * q + r;
    if r + 1 < size {
      Quotient(i + 1, size, q, r + 1);
    } else {
      Distribute(size, q, 1);
      Quotient(i + 1, size, q + 1, 0);
    }
  }

  /** Fewer than size messages apart, two messages have different slots. */
  lemma SlotsDiffer(i: nat, j: nat, size: nat)
    requires i < j < i + size
    ensures i % size != j % size
  {
    var a, b := i / size, j / size;
    Spread(size, b, a);
    Product(size, b - a);
  }

  lemma CellsDiffer(q: Queue, i: nat, k: nat, j: nat, k': nat)
    requires q.size > 0 && i < j < i + q.size && k < q.msgSize && k' < q.msgSize
    ensures Cell(q, i, k) != Cell(q, j, k')
  {
    SlotsDiffer(i, j, q.size);
    var a, b := i % q.size, j % q.size;
    if a < b { SlotEnds(a, b, q.msgSize); } else { SlotEnds(b, a, q.msgSize); }
  }

  // Every step keeps the invariant.

  /** The sender passes putsem exactly when a slot is free, and waits only when none is. */
  lemma AcquirePutInv(q: Queue, message: seq<int>, wait: bool)
    requires Inv(q) && (q.sender.Outside? || (SenderWoken(q) && wait)) && |message| == q.msgSize
    ensures Inv(AcquirePut(q, message, wait))
    ensures var q' := AcquirePut(q, message, wait);
            && (q'.sender == Copying(message, 0) <==> q.putsem > 0)
            && (q'.sender == Waiting(Listed, message) <==> q.putsem == 0 && wait)
            && q'.sent == if q.putsem > 0 then q.sent + [message] else q.sent
  {
    var q' := AcquirePut(q, message, wait);
    assert forall i :: 0 <= i < |q.sent| ==> q'.sent[i] == q.sent[i];
    forall j: nat | |q'.received| <= j < Written(q') ensures Stands(q', j) {
      assert q != q' ==> Stands(q, j);
    }
  }

  lemma TrySendInv(q: Queue, message: seq<int>, wait: bool)
    requires Inv(q)
    ensures Inv(Take(q, TrySend(message, wait))) && Inv(Take(q, RetrySend))
  {
    hide Inv, AcquirePut;
    InvShows(q);
    if q.sender.Outside? && |message| == q.msgSize { AcquirePutInv(q, message, wait); }
    if SenderWoken(q) { AcquirePutInv(q, q.sender.pending, true); }
  }

  /** Suspending loses no wake-up, also when the release came before it. */
  lemma SuspendSenderInv(q: Queue)
    requires Inv(q)
    ensures Inv(Take(q, SuspendSender))
    ensures q.sender.Waiting? && q.sender.stage.Called? ==> SenderWoken(Take(q, SuspendSender))
  {
    hide Cell, Stands;
    var q' := Take(q, SuspendSender);
    forall j: nat | |q.received| <= j < Written(q) ensures Stands(q', j) {
      assert Stands(q, j);
      StandsAsBefore(q, q', j);
    }
  }

  lemma SuspendReceiverInv(q: Queue)
    requires Inv(q)
    ensures Inv(Take(q, SuspendReceiver))
    ensures q.receiver.Blocked? && q.receiver.stage.Called? ==> ReceiverWoken(Take(q, SuspendReceiver))
  {
    hide Cell, Stands, Sending;
    var q' := Take(q, SuspendReceiver);
    forall j: nat | |q.received| <= j < Written(q) ensures Stands(q', j) {
      assert Stands(q, j);
      StandsAsBefore(q, q', j);
    }
    SendingAsBefore(q, q');
  }

  lemma CopyInInv(q: Queue)
    requires Inv(q)
    ensures Inv(Take(q, CopyIn))
  {
    if q.sender.Copying? {
      var last := |q.sent| - 1;
      var k := q.sender.k;
      CellsFit(q, last);
      if k >= q.msgSize {
        assert Stands(q, last);
        var q' := Take(q, CopyIn);
        forall j: nat | |q'.received| <= j < Written(q') ensures Stands(q', j) {
          assert Stands(q, j);
        }
      } else {
        CopyByteInv(q, last, k);
      }
    }
  }

  lemma CopyByteInv(q: Queue, last: nat, k: nat)
    requires Inv(q) && q.sender.Copying? && q.sender.k == k < q.msgSize && last == |q.sent| - 1
    ensures Inv(Take(q, CopyIn))
  {
    hide Cell, Intact, Sending;
    CellsFit(q, last);
    CellAtRear(q, last, k);
    InvShows(q);
    ByteKeepsIntact(q, Take(q, CopyIn), last, k);
    ByteExtends(q, Take(q, CopyIn), last, k);
  }

  /** q' is q with byte k of message `last` copied in. */
  ghost predicate ByteCopied(q: Queue, q': Queue, last: nat, k: nat) {
    && Fits(q) && q.sender.Copying? && q.sender.k == k < q.msgSize && last == |q.sent| - 1
    && Cell(q, last, k) < |q.store| && k < |q.sender.message|
    && q' == q.(store := q.store[Cell(q, last, k) := q.sender.message[k]], sender := Copying(q.sender.message, k + 1))
  }

  lemma ByteKeepsIntact(q: Queue, q': Queue, last: nat, k: nat)
    requires ByteCopied(q, q', last, k) && Intact(q) && |q.sent| - |q.received| <= q.size
    ensures Intact(q')
  {
    hide Cell, Stands;
    forall j: nat | |q'.received| <= j < Written(q') ensures Stands(q', j) {
      assert Stands(q, j);
      StillStands(q, q', j, last, k);
    }
  }

  lemma ByteExtends(q: Queue, q': Queue, last: nat, k: nat)
    requires ByteCopied(q, q', last, k) && Sending(q)
    ensures Sending(q')
  {
    hide Cell;
    CellsFit(q, last);
    CellsFit(q', last);
    forall k': nat | k' < k + 1 ensures q'.store[Cell(q', last, k')] == q'.sender.message[k'] {
      SameCell(q, q', last, k');
      CellsApart(q, last, k', k);
    }
  }

  /** Writing a byte of message `last` leaves an older message in its slot alone. */
  lemma StillStands(q: Queue, q': Queue, j: nat, last: nat, k: nat)
    requires ByteCopied(q, q', last, k) && j < last < j + q.size && Stands(q, j)
    ensures Stands(q', j)
  {
    hide Cell;
    CellsFit(q, j);
    CellsFit(q', j);
    forall k': nat | k' < q.msgSize ensures q'.store[Cell(q', j, k')] == q'.sent[j][k'] {
      CellsDiffer(q, j, k', last, k);
      SameCell(q, q', j, k');
    }
  }

  lemma SameCell(q: Queue, q': Queue, j: nat, k: nat)
    requires q.size == q'.size > 0 && q.msgSize == q'.msgSize
    ensures Cell(q, j, k) == Cell(q', j, k)
  {
  }

  lemma CellsApart(q: Queue, j: nat, k: nat, k': nat)
    requires q.size > 0
    ensures Cell(q, j, k) == Cell(q, j, k') <==> k == k'
  {
  }

  lemma CellAtRear(q: Queue, last: nat, k: nat)
    requires Inv(q) && q.sender.Copying? && last == |q.sent| - 1
    ensures Cell(q, last, k) == q.rear * q.msgSize + k && |q.sender.message| == q.msgSize
  {
  }

  lemma AdvanceRearInv(q: Queue)
    requires Inv(q)
    ensures Inv(Take(q, AdvanceRear))
  {
    hide Following;
    var q' := Take(q, AdvanceRear);
    if q.sender.Advancing? { NextSlot(Passed(q), q.size); }
    forall j: nat | |q'.received| <= j < Written(q') ensures Stands(q', j) { assert Stands(q, j); }
  }

  /** A release hands one more filled slot on, and a waiting receiver leaves the wait queue. */
  lemma ReleaseGetInv(q: Queue)
    requires Inv(q)
    ensures Inv(Take(q, ReleaseGet))
    ensures q.sender.Releasing? ==>
              var q' := Take(q, ReleaseGet);
              && q'.getsem == q.getsem + 1 && q'.sender.Outside?
              && (q.receiver.Blocked? ==> q'.receiver.Blocked? && !InQueue(q'.receiver.stage))
              && (!q.receiver.Blocked? ==> q'.receiver == q.receiver)
  {
    var q' := Take(q, ReleaseGet);
    forall j: nat | |q'.received| <= j < Written(q') ensures Stands(q', j) { assert Stands(q, j); }
  }

  lemma AcquireGetInv(q: Queue, wait: bool)
    requires Inv(q) && (q.receiver.Away? || (ReceiverWoken(q) && wait))
    ensures Inv(AcquireGet(q, wait))
    ensures var q' := AcquireGet(q, wait);
            && (q'.receiver == Reading([]) <==> q.getsem > 0)
            && (q'.receiver == Blocked(Listed) <==> q.getsem == 0 && wait)
  {
    hide Cell, Stands, Sending;
    var q' := AcquireGet(q, wait);
    SendingAsBefore(q, q');
    forall j: nat | |q'.received| <= j < Written(q') ensures Stands(q', j) {
      assert Stands(q, j);
      StandsAsBefore(q, q', j);
    }
  }

  lemma TryReceiveInv(q: Queue, wait: bool)
    requires Inv(q)
    ensures Inv(Take(q, TryReceive(wait))) && Inv(Take(q, RetryReceive))
  {
    hide Inv, AcquireGet;
    if q.receiver.Away? { AcquireGetInv(q, wait); }
    if ReceiverWoken(q) { AcquireGetInv(q, true); }
  }

  lemma CopyOutInv(q: Queue)
    requires Inv(q)
    ensures Inv(Take(q, CopyOut))
  {
    hide Cell, Stands, Sending;
    var q' := Take(q, CopyOut);
    if q.receiver.Reading? {
      var r, k := |q.received|, |q.receiver.got|;
      NextByte(q);
      if k >= q.msgSize {
        assert q.receiver.got == q.sent[r];
        assert q'.received == q.sent[..r + 1];
      } else {
        assert q'.receiver.got == q.sent[r][..k + 1];
      }
    }
    SendingAsBefore(q, q');
    forall j: nat | |q'.received| <= j < Written(q') ensures Stands(q', j) {
      assert Stands(q, j);
      StandsAsBefore(q, q', j);
    }
  }

  /** The byte the receiver reads next is the next byte of the oldest message not received. */
  lemma NextByte(q: Queue)
    requires Inv(q) && q.receiver.Reading?
    ensures var (r, k) := (|q.received|, |q.receiver.got|);
            && r < Written(q) && k <= q.msgSize
            && (k < q.msgSize ==>
                  && q.front * q.msgSize + k < |q.store|
                  && q.store[q.front * q.msgSize + k] == q.sent[r][k])
  {
    var r, k := |q.received|, |q.receiver.got|;
    CellsFit(q, r);
    assert Stands(q, r);
    assert Cell(q, r, k) == q.front * q.msgSize + k;
  }

  lemma SendingAsBefore(q: Queue, q': Queue)
    requires Fits(q) && Sending(q) && q'.sender == q.sender
    requires q'.store == q.store && q'.size == q.size && q'.msgSize == q.msgSize && q'.sent == q.sent
    ensures Fits(q') && Sending(q')
  {
  }

  lemma StandsAsBefore(q: Queue, q': Queue, j: nat)
    requires Fits(q) && j < |q.sent| && Stands(q, j)
    requires q'.store == q.store && q'.size == q.size && q'.msgSize == q.msgSize && q'.sent == q.sent
    ensures Fits(q') && Stands(q', j)
  {
  }

  lemma AdvanceFrontInv(q: Queue)
    requires Inv(q)
    ensures Inv(Take(q, AdvanceFront))
  {
    hide Following;
    var q' := Take(q, AdvanceFront);
    if q.receiver.Moving? { NextSlot(Taken(q), q.size); }
    forall j: nat | |q'.received| <= j < Written(q') ensures Stands(q', j) { assert Stands(q, j); }
  }

  /** A release gives one slot back, and a waiting sender leaves the wait queue. */
  lemma ReleasePutInv(q: Queue)
    requires Inv(q)
    ensures Inv(Take(q, ReleasePut))
    ensures q.receiver.GivingBack? ==>
              var q' := Take(q, ReleasePut);
              && q'.putsem == q.putsem + 1 && q'.receiver.Away?
              && (q.sender.Waiting? ==>
                    q'.sender.Waiting? && !InQueue(q'.sender.stage) && q'.sender.pending == q.sender.pending)
              && (!q.sender.Waiting? ==> q'.sender == q.sender)
  {
    var q' := Take(q, ReleasePut);
    forall j: nat | |q'.received| <= j < Written(q') ensures Stands(q', j) { assert Stands(q, j); }
  }

  lemma StepInv(q: Queue, step: Step)
    requires Inv(q)
    ensures Inv(Take(q, step))
  {
    hide Inv, Take;
    match step
    case TrySend(message, wait) => TrySendInv(q, message, wait);
    case SuspendSender => SuspendSenderInv(q);
    case RetrySend => TrySendInv(q, [], false);
    case CopyIn => CopyInInv(q);
    case AdvanceRear => AdvanceRearInv(q);
    case ReleaseGet => ReleaseGetInv(q);
    case TryReceive(wait) => TryReceiveInv(q, wait);
    case SuspendReceiver => SuspendReceiverInv(q);
    case RetryReceive => TryReceiveInv(q, false);
    case CopyOut => CopyOutInv(q);
    case AdvanceFront => AdvanceFrontInv(q);
    case ReleasePut => ReleasePutInv(q);
  }

  lemma {:induction false} RunInv(q: Queue, steps: seq<Step>)
    requires Inv(q)
    ensures Inv(Run(q, steps))
  {
    hide Inv, Take;
    if steps != [] {
      RunInv(q, steps[..|steps| - 1]);
      StepInv(Run(q, steps[..|steps| - 1]), steps[|steps| - 1]);
    }
  }

  // The messages that were sent, from the steps.

  /** A call of eos_send_message that starts with this step. */
  predicate Calls(q: Queue, step: Step) {
    step.TrySend? && q.sender.Outside? && |step.message| == q.msgSize
  }

  /** The step on which a call gets past putsem, at once or after having been woken. */
  predicate GetsThrough(q: Queue, step: Step) {
    q.putsem > 0 && (Calls(q, step) || (step.RetrySend? && SenderWoken(q)))
  }

  /** The message of the last call in a run. */
  function LastCalled(q: Queue, steps: seq<Step>): seq<int> {
    if steps == [] then []
    else
      var (init, step) := (steps[..|steps| - 1], steps[|steps| - 1]);
      if Calls(Run(q, init), step) then step.message else LastCalled(q, init)
  }

  /** The messages of the calls that got through, in order. */
  function Accepted(q: Queue, steps: seq<Step>): seq<seq<int>> {
    if steps == [] then []
    else
      var (init, step) := (steps[..|steps| - 1], steps[|steps| - 1]);
      Accepted(q, init) + if GetsThrough(Run(q, init), step) then [LastCalled(q, steps)] else []
  }

  /** A call takes its own message through the semaphore or into the wait queue, or fails. */
  lemma SendExactly(q: Queue, message: seq<int>, wait: bool)
    ensures var q' := Take(q, TrySend(message, wait));
            if !Calls(q, TrySend(message, wait)) then q' == q
            else if q.putsem > 0 then
              q' == q.(putsem := q.putsem - 1, sender := Copying(message, 0), sent := q.sent + [message])
            else if wait then q' == q.(sender := Waiting(Listed, message))
            else q' == q
    ensures SenderWoken(q) ==>
              var q' := Take(q, RetrySend);
              if q.putsem > 0 then
                q' == q.(putsem := q.putsem - 1, sender := Copying(q.sender.pending, 0),
                         sent := q.sent + [q.sender.pending])
              else q' == q.(sender := Waiting(Listed, q.sender.pending))
  {
  }

  /** No other step touches what was sent or what waits to be sent. */
  lemma OthersSendNothing(q: Queue, step: Step)
    requires !GetsThrough(q, step)
    ensures Take(q, step).sent == q.sent
    ensures var s := Take(q, step).sender;
            s.Waiting? ==> if Calls(q, step) then s.pending == step.message
                           else q.sender.Waiting? && s.pending == q.sender.pending
  {
  }

  /** What was sent is what the calls that got through were given, and a waiting sender holds
      the message of its call. */
  lemma {:induction false} SentIsAccepted(q: Queue, steps: seq<Step>)
    requires q.sender.Outside?
    ensures Run(q, steps).sent == q.sent + Accepted(q, steps)
    ensures Run(q, steps).sender.Waiting? ==> Run(q, steps).sender.pending == LastCalled(q, steps)
  {
    hide Take, Calls;
    if steps != [] {
      var init, step := steps[..|steps| - 1], steps[|steps| - 1];
      SentIsAccepted(q, init);
      var before := Run(q, init);
      if GetsThrough(before, step) { ThroughSends(q, init, step); } else { OthersSendNothing(before, step); }
    }
  }

  lemma ThroughSends(q: Queue, init: seq<Step>, step: Step)
    requires GetsThrough(Run(q, init), step)
    requires Run(q, init).sender.Waiting? ==> Run(q, init).sender.pending == LastCalled(q, init)
    ensures var q' := Take(Run(q, init), step);
            q'.sent == Run(q, init).sent + [LastCalled(q, init + [step])] && !q'.sender.Waiting?
  {
    hide Run;
    assert (init + [step])[..|init|] == init;
  }

  /** The step on which a receiving call gets past getsem. */
  predicate GetsMessage(q: Queue, step: Step) {
    q.getsem > 0 && ((step.TryReceive? && q.receiver.Away?) || (step.RetryReceive? && ReceiverWoken(q)))
  }

  /** How many receiving calls got through. */
  function Admitted(q: Queue, steps: seq<Step>): nat {
    if steps == [] then 0
    else
      var (init, step) := (steps[..|steps| - 1], steps[|steps| - 1]);
      Admitted(q, init) + Busy(GetsMessage(Run(q, init), step))
  }

  /** A receiving call goes through the semaphore or into the wait queue, or fails. */
  lemma ReceiveExactly(q: Queue, wait: bool)
    ensures var q' := Take(q, TryReceive(wait));
            if !q.receiver.Away? then q' == q
            else if q.getsem > 0 then q' == q.(getsem := q.getsem - 1, receiver := Reading([]))
            else if wait then q' == q.(receiver := Blocked(Listed))
            else q' == q
    ensures ReceiverWoken(q) ==>
              var q' := Take(q, RetryReceive);
              if q.getsem > 0 then q' == q.(getsem := q.getsem - 1, receiver := Reading([]))
              else q' == q.(receiver := Blocked(Listed))
  {
  }

  lemma StepReceives(q: Queue, step: Step)
    ensures var q' := Take(q, step);
            |q'.received| + Busy(q'.receiver.Reading?)
              == |q.received| + Busy(q.receiver.Reading?) + Busy(GetsMessage(q, step))
  {
  }

  /** Every receiving call that got through has its message or is still copying it. */
  lemma {:induction false} ReceivedIsAdmitted(q: Queue, steps: seq<Step>)
    requires q.receiver.Away?
    ensures var r := Run(q, steps); |r.received| + Busy(r.receiver.Reading?) == |q.received| + Admitted(q, steps)
  {
    hide Take, GetsMessage;
    if steps != [] {
      var init := steps[..|steps| - 1];
      ReceivedIsAdmitted(q, init);
      StepReceives(Run(q, init), steps[|steps| - 1]);
    }
  }

  /** Under every interleaving the receiver gets the messages in the order sent, none lost,
      repeated or torn, and every slot stays accounted for. */
  lemma DeliversInOrder(size: nat, msgSize: nat, store: seq<int>, steps: seq<Step>)
    requires size > 0 && |store| == size * msgSize
    ensures var q := Run(Init(size, msgSize, store), steps);
            && q.sent == Accepted(Init(size, msgSize, store), steps)
            && |q.received| == Admitted(Init(size, msgSize, store), steps) - Busy(q.receiver.Reading?)
            && q.received <= q.sent && SlotsConserved(q) && Fits(q) && Intact(q) && NoLostWakeUp(q)
            && |q.sent| - |q.received| <= size
  {
    hide Take, Inv, Accepted, Admitted;
    ReceivedIsAdmitted(Init(size, msgSize, store), steps);
    SentIsAccepted(Init(size, msgSize, store), steps);
    InitInv(size, msgSize, store);
    RunInv(Init(size, msgSize, store), steps);
    var q := Run(Init(size, msgSize, store), steps);
    InvShows(q);
    SizeKept(Init(size, msgSize, store), steps);
  }

  lemma InvShows(q: Queue)
    requires Inv(q)
    ensures q.received <= q.sent && SlotsConserved(q) && Fits(q) && Intact(q) && NoLostWakeUp(q)
    ensures |q.sent| - |q.received| <= q.size
  {
  }

  lemma {:induction false} SizeKept(q: Queue, steps: seq<Step>)
    ensures Run(q, steps).size == q.size
  {
    if steps != [] { SizeKept(q, steps[..|steps| - 1]); }
  }

  predicate SenderQueues(q: Queue) { q.sender.Waiting? && InQueue(q.sender.stage) }

  predicate ReceiverQueues(q: Queue) { q.receiver.Blocked? && InQueue(q.receiver.stage) }

  /** Something happens besides a side joining a wait queue or falling asleep in it. */
  ghost predicate Progresses(q: Queue, q': Queue) {
    && q' != q
    && (SenderQueues(q') ==> q'.sender == q.sender) && (ReceiverQueues(q') ==> q'.receiver == q.receiver)
  }

  /** The two sides never wait for each other, and some step always makes progress: a side in
      a call goes on, one taken out of the wait queue gets its slot, and one in the wait queue
      leaves the other a call that goes through at once. */
  lemma NeverStuck(q: Queue) returns (step: Step)
    requires Inv(q)
    ensures !(SenderQueues(q) && ReceiverQueues(q))
    ensures Progresses(q, Take(q, step))
    ensures step.TrySend? || step.TryReceive? ==>
              (q.sender.Outside? || SenderQueues(q)) && (q.receiver.Away? || ReceiverQueues(q))
  {
    if Sends(q.sender) {
      step := match q.sender
        case Copying(_, _) => CopyIn
        case Advancing => AdvanceRear
        case _ => ReleaseGet;
      if q.sender.Copying? && q.sender.k < q.msgSize {
        CellsFit(q, |q.sent| - 1);
        CellAtRear(q, |q.sent| - 1, q.sender.k);
      }
    } else if q.sender.Waiting? && !InQueue(q.sender.stage) {
      step := if SenderWoken(q) then RetrySend else SuspendSender;
    } else {
      step := ReceiverMoves(q);
    }
  }

  lemma ReceiverMoves(q: Queue) returns (step: Step)
    requires Inv(q) && (q.sender.Outside? || SenderQueues(q))
    ensures Progresses(q, Take(q, step))
    ensures step.TrySend? || step.TryReceive? ==> q.receiver.Away? || ReceiverQueues(q)
  {
    hide Cell, Stands, Intact;
    if q.receiver.Reading? {
      step := CopyOut;
      NextByte(q);
    } else if q.receiver.Blocked? && !InQueue(q.receiver.stage) {
      step := if ReceiverWoken(q) then RetryReceive else SuspendReceiver;
    } else if Receives(q.receiver) {
      step := if q.receiver.Moving? then AdvanceFront else ReleasePut;
    } else {
      step := if q.putsem > 0 then TrySend(seq(q.msgSize, _ => 0), false) else TryReceive(false);
    }
  }
}
