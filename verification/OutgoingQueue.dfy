/** The outgoing half of `NetworkConnection` (NetworkConnection.cpp): messages wait in one vector until they are
    posted as a batch, and a later message about an entry is merged into the earlier one where possible. */
module OutgoingQueue {
  import opened Basics
  import opened Messages

  /** m_pending_outgoing (None for a reset pointer) and m_pending_update: for each id, one more than the position of
      its pending assignment or update, and of its pending flags update; 0 for none. */
  datatype Pending = Pending(slots: seq<Option<Message>>, marks: seq<(nat, nat)>)

  const IDLE: Pending := Pending([], [])

  function Mark(marks: seq<(nat, nat)>, id: nat): (nat, nat) {
    if id < |marks| then marks[id] else (0, 0)
  }

  function SetMark(marks: seq<(nat, nat)>, id: nat, mark: (nat, nat)): (r: seq<(nat, nat)>)
    ensures forall i: nat :: Mark(r, i) == if i == id then mark else Mark(marks, i)
  {
    (if id < |marks| then marks else marks + seq(id + 1 - |marks|, _ => (0, 0)))[id := mark]
  }

  /** A message that concerns table entries, and is knocked out by a ClearEntries behind it. */
  predicate AboutTable(m: Message) {
    m.EntryAssign? || m.EntryUpdate? || m.FlagsUpdate? || m.EntryDelete? || m.ClearEntries?
  }

  /** What an assignment or update already waiting becomes when `m`, about the same entry, joins it. */
  function Merge(waiting: Option<Message>, m: Message): Message {
    if waiting.Some? && waiting.value.EntryAssign? && m.EntryUpdate? then
      EntryAssign(waiting.value.name, m.id, m.seqNum, m.value, waiting.value.flags)
    else m
  }

  /** Reset the slot behind a mark. */
  function Reset(slots: seq<Option<Message>>, mark: nat): seq<Option<Message>> {
    if 0 < mark <= |slots| then slots[mark - 1 := None] else slots
  }

  function KnockOut(slots: seq<Option<Message>>): (r: seq<Option<Message>>)
    ensures |r| == |slots|
    ensures forall k :: 0 <= k < |slots| ==> r[k] == if slots[k].Some? && AboutTable(slots[k].value) then None else slots[k]
  {
    seq(|slots|, k requires 0 <= k < |slots| => if slots[k].Some? && AboutTable(slots[k].value) then None else slots[k])
  }

  /** NetworkConnection::QueueOutgoing */
  function Enqueue(q: Pending, m: Message): Pending
    requires Marked(q)
  {
    match m
    case EntryAssign(_, _, _, _, _) => EnqueueValue(q, m)
    case EntryUpdate(_, _, _) => EnqueueValue(q, m)
    case FlagsUpdate(id, _) =>
      var mark := Mark(q.marks, id);
      if id == UNASSIGNED then q.(slots := q.slots + [Some(m)])
      else
        assert MarkedAt(q, id);
        if mark.1 != 0 then q.(slots := q.slots[mark.1 - 1 := Some(m)])
      else Pending(q.slots + [Some(m)], SetMark(q.marks, id, (mark.0, |q.slots| + 1)))
    case EntryDelete(id) =>
      var mark := Mark(q.marks, id);
      if id == UNASSIGNED then q.(slots := q.slots + [Some(m)])
      else
        Pending(Reset(Reset(q.slots, mark.0), mark.1) + [Some(m)],
                if id < |q.marks| then q.marks[id := (0, 0)] else q.marks)
    case ClearEntries => Pending(KnockOut(q.slots) + [Some(m)], [])
    case _ => q.(slots := q.slots + [Some(m)])
  }

  /** The EntryAssign and EntryUpdate cases. */
  function EnqueueValue(q: Pending, m: Message): Pending
    requires Marked(q) && (m.EntryAssign? || m.EntryUpdate?)
  {
    var mark := Mark(q.marks, m.id);
    if m.id == UNASSIGNED then q.(slots := q.slots + [Some(m)])
    else
      assert MarkedAt(q, m.id);
      if mark.0 != 0 then q.(slots := q.slots[mark.0 - 1 := Some(Merge(q.slots[mark.0 - 1], m))])
    else Pending(q.slots + [Some(m)], SetMark(q.marks, m.id, (|q.slots| + 1, mark.1)))
  }

  predicate IsValueOf(slot: Option<Message>, id: nat) {
    slot.Some? && (slot.value.EntryAssign? || slot.value.EntryUpdate?) && slot.value.id == id
  }

  predicate IsFlagsOf(slot: Option<Message>, id: nat) {
    slot.Some? && slot.value.FlagsUpdate? && slot.value.id == id
  }

  /** The waiting assignment or update of `id`, and its waiting flags update, are exactly where its marks point. */
  ghost predicate MarkedAt(q: Pending, id: nat) {
    var mark := Mark(q.marks, id);
    && mark.0 <= |q.slots| && mark.1 <= |q.slots|
    && forall k :: 0 <= k < |q.slots| ==>
         (IsValueOf(q.slots[k], id) <==> mark.0 == k + 1) && (IsFlagsOf(q.slots[k], id) <==> mark.1 == k + 1)
  }

  /** Every id but 0xffff has at most one waiting assignment or update and at most one waiting flags update, and they
      are exactly where its marks point. */
  ghost predicate Marked(q: Pending) {
    Mark(q.marks, UNASSIGNED) == (0, 0) && forall id: nat :: id != UNASSIGNED ==> MarkedAt(q, id)
  }

  /** The marks stay exact whatever is queued. */
  lemma EnqueueKeepsMarked(q: Pending, m: Message)
    requires Marked(q)
    ensures Marked(Enqueue(q, m))
  {
    forall id: nat | id != UNASSIGNED
      ensures MarkedAt(Enqueue(q, m), id)
    {
      EnqueueKeepsMarkedAt(q, m, id);
    }
    EnqueueMarks(q, m, UNASSIGNED);
  }

  lemma EnqueueMarks(q: Pending, m: Message, id: nat)
    requires Marked(q)
    ensures Mark(Enqueue(q, m).marks, id) ==
      if m.ClearEntries? || (m.EntryDelete? && m.id == id && id != UNASSIGNED) then (0, 0)
      else if (m.EntryAssign? || m.EntryUpdate?) && m.id == id != UNASSIGNED && Mark(q.marks, id).0 == 0 then
        (|q.slots| + 1, Mark(q.marks, id).1)
      else if m.FlagsUpdate? && m.id == id != UNASSIGNED && Mark(q.marks, id).1 == 0 then
        (Mark(q.marks, id).0, |q.slots| + 1)
      else Mark(q.marks, id)
  {
  }

  lemma EnqueueKeepsMarkedAt(q: Pending, m: Message, id: nat)
    requires Marked(q) && id != UNASSIGNED
    ensures MarkedAt(Enqueue(q, m), id)
  {
    assert MarkedAt(q, id);
    EnqueueMarks(q, m, id);
    if (m.EntryAssign? || m.EntryUpdate? || m.FlagsUpdate? || m.EntryDelete?) && m.id != UNASSIGNED {
      assert MarkedAt(q, m.id);
      if m.EntryDelete? {
        ResetSlots(q, m, id);
      }
    }
  }

  lemma ResetSlots(q: Pending, m: Message, id: nat)
    requires Marked(q) && m.EntryDelete? && id != UNASSIGNED && m.id != UNASSIGNED
    ensures var mark := Mark(q.marks, m.id);
      forall k :: 0 <= k < |q.slots| ==>
        Enqueue(q, m).slots[k] == if k + 1 == mark.0 || k + 1 == mark.1 then None else q.slots[k]
  {
    assert MarkedAt(q, m.id);
  }

  class NetworkConnection {
    var pendingOutgoing: seq<Option<Message>>
    var pendingUpdate: seq<(nat, nat)>
    /** m_outgoing: the batches handed to the write thread. */
    var outgoing: seq<seq<Option<Message>>>

    ghost function Queue(): Pending
      reads this
    {
      Pending(pendingOutgoing, pendingUpdate)
    }

    constructor ()
      ensures Queue() == IDLE && outgoing == [] && Marked(Queue())
    {
      pendingOutgoing, pendingUpdate, outgoing := [], [], [];
    }

    method QueueOutgoing(msg: Message)
      requires Marked(Queue())
      modifies this`pendingOutgoing, this`pendingUpdate
      ensures Queue() == Enqueue(old(Queue()), msg) && Marked(Queue())
    {
      EnqueueKeepsMarked(Queue(), msg);
      match msg {
        case EntryAssign(_, _, _, _, _) => QueueValue(msg);
        case EntryUpdate(_, _, _) => QueueValue(msg);
        case EntryDelete(_) => QueueDelete(msg);
        case FlagsUpdate(_, _) => QueueFlags(msg);
        case ClearEntries => QueueClear(msg);
        case _ => pendingOutgoing := pendingOutgoing + [Some(msg)];
      }
    }

    method QueueDelete(msg: Message)
      requires Marked(Queue()) && msg.EntryDelete?
      modifies this`pendingOutgoing, this`pendingUpdate
      ensures Queue() == Enqueue(old(Queue()), msg)
    {
      var id := msg.id;
      if id != UNASSIGNED && id < |pendingUpdate| {
        assert MarkedAt(Queue(), id);
        // what waits about a deleted entry is dropped
        if pendingUpdate[id].0 != 0 {
          pendingOutgoing := pendingOutgoing[pendingUpdate[id].0 - 1 := None];
          pendingUpdate := pendingUpdate[id := (0, pendingUpdate[id].1)];
        }
        if pendingUpdate[id].1 != 0 {
          pendingOutgoing := pendingOutgoing[pendingUpdate[id].1 - 1 := None];
          pendingUpdate := pendingUpdate[id := (pendingUpdate[id].0, 0)];
        }
        assert pendingUpdate == old(pendingUpdate)[id := (0, 0)];
      }
      pendingOutgoing := pendingOutgoing + [Some(msg)];
    }

    method QueueFlags(msg: Message)
      requires Marked(Queue()) && msg.FlagsUpdate?
      modifies this`pendingOutgoing, this`pendingUpdate
      ensures Queue() == Enqueue(old(Queue()), msg)
    {
      var id := msg.id;
      assert id == UNASSIGNED || MarkedAt(Queue(), id);
      if id == UNASSIGNED {
        pendingOutgoing := pendingOutgoing + [Some(msg)];
      } else if id < |pendingUpdate| && pendingUpdate[id].1 != 0 {
        pendingOutgoing := pendingOutgoing[pendingUpdate[id].1 - 1 := Some(msg)];
      } else {
        var pos := |pendingOutgoing|;
        pendingOutgoing := pendingOutgoing + [Some(msg)];
        GrowMarks(id);
        pendingUpdate := pendingUpdate[id := (pendingUpdate[id].0, pos + 1)];
      }
    }

    /** Knock out all previous messages about entries. */
    method QueueClear(msg: Message)
      requires Marked(Queue()) && msg.ClearEntries?
      modifies this`pendingOutgoing, this`pendingUpdate
      ensures Queue() == Enqueue(old(Queue()), msg)
    {
      var i := 0;
      while i < |pendingOutgoing|
        invariant 0 <= i <= |pendingOutgoing| == |old(pendingOutgoing)|
        invariant forall k :: 0 <= k < i ==> pendingOutgoing[k] == KnockOut(old(pendingOutgoing))[k]
        invariant forall k :: i <= k < |pendingOutgoing| ==> pendingOutgoing[k] == old(pendingOutgoing)[k]
      {
        if pendingOutgoing[i].Some? && AboutTable(pendingOutgoing[i].value) {
          pendingOutgoing := pendingOutgoing[i := None];
        }
        i := i + 1;
      }
      assert pendingOutgoing == KnockOut(old(pendingOutgoing));
      pendingUpdate := [];
      pendingOutgoing := pendingOutgoing + [Some(msg)];
    }

    method GrowMarks(id: nat)
      modifies this`pendingUpdate
      ensures id < |pendingUpdate|
      ensures pendingUpdate == if id < |old(pendingUpdate)| then old(pendingUpdate)
                               else old(pendingUpdate) + seq(id + 1 - |old(pendingUpdate)|, _ => (0, 0))
    {
      if id >= |pendingUpdate| {
        pendingUpdate := pendingUpdate + seq(id + 1 - |pendingUpdate|, _ => (0, 0));
      }
    }

    method QueueValue(msg: Message)
      requires Marked(Queue()) && (msg.EntryAssign? || msg.EntryUpdate?)
      modifies this`pendingOutgoing, this`pendingUpdate
      ensures Queue() == EnqueueValue(old(Queue()), msg)
    {
      var id := msg.id;
      assert id == UNASSIGNED || MarkedAt(Queue(), id);
      if id == UNASSIGNED {
        pendingOutgoing := pendingOutgoing + [Some(msg)];
      } else if id < |pendingUpdate| && pendingUpdate[id].0 != 0 {
        var pos := pendingUpdate[id].0 - 1;
        var oldmsg := pendingOutgoing[pos];
        if oldmsg.Some? && oldmsg.value.EntryAssign? && msg.EntryUpdate? {
          // the assignment stays, under the serial and with the value of the update
          pendingOutgoing := pendingOutgoing[pos :=
            Some(EntryAssign(oldmsg.value.name, id, msg.seqNum, msg.value, oldmsg.value.flags))];
        } else {
          pendingOutgoing := pendingOutgoing[pos := Some(msg)];
        }
      } else {
        var pos := |pendingOutgoing|;
        pendingOutgoing := pendingOutgoing + [Some(msg)];
        GrowMarks(id);
        pendingUpdate := pendingUpdate[id := (pos + 1, pendingUpdate[id].1)];
      }
    }

    /** `due` says that a second has passed since the last post. */
    method PostOutgoing(keepAlive: bool, due: bool)
      requires Marked(Queue())
      modifies this
      ensures Queue() == if |old(pendingOutgoing)| == 0 then old(Queue()) else IDLE
      ensures Marked(Queue())
      ensures outgoing ==
        if |old(pendingOutgoing)| > 0 then old(outgoing) + [old(pendingOutgoing)]
        else if keepAlive && due then old(outgoing) + [[Some(KeepAlive)]]
        else old(outgoing)
    {
      if |pendingOutgoing| == 0 {
        if !keepAlive || !due {
          return;
        }
        outgoing := outgoing + [[Some(KeepAlive)]];
      } else {
        outgoing := outgoing + [pendingOutgoing];
        pendingOutgoing, pendingUpdate := [], [];
      }
    }
  }
}
