/**
  The same system when every message is posted by itself, so that nothing is merged. Here a client keeps up by
  itself, and the one serial it can refuse is known.
 */
module Direct {
  import opened Basics
  import opened Messages
  import opened Serials
  import opened Tables
  import opened TableRuns
  import opened OutgoingQueue
  import opened Mirror
  import opened Replica

  /** A client's serial trails the server's by at most the one step that a freshly created entry may lack. */
  predicate Trails(client: Serial, server: Serial) {
    client == server || (client == 0 && server == 1)
  }

  /** Nothing waits to be merged, and every entry that will have arrived trails the server's. */
  ghost predicate InStep(s: System)
    requires Inv(s)
  {
    && s.pending == IDLE
    && forall i: nat :: EntryInStep(s, i)
  }

  ghost predicate EntryInStep(s: System, i: nat)
    requires Inv(s)
  {
    var base := BaseAt(s.client, s.wire, i);
    base.Some? ==> CellAt(s.server, i).Some? && Trails(base.value.seqNum, CellAt(s.server, i).value.seqNum)
  }

  /** The message whose serial, 2^15 + 1, the server takes over its serial 1 and the client refuses over its 0. */
  ghost predicate Overruns(s: System, m: Message)
    requires Inv(s)
  {
    && (m.EntryAssign? || m.EntryUpdate?)
    && m.seqNum == HALF + 1
    && var base := BaseAt(s.client, s.wire, m.id);
       base.Some? && base.value.seqNum == 0 && CellAt(s.server, m.id).Some? && CellAt(s.server, m.id).value.seqNum == 1
  }

  /** The listener shows already what `m` says of its entry. */
  ghost predicate Restates(s: System, m: Message)
    requires Inv(s)
  {
    && (m.EntryAssign? || m.EntryUpdate?)
    && var base := BaseAt(s.client, s.wire, m.id);
       && base.Some? && m.value == base.value.face.value
       && (m.EntryAssign? ==> m.flags == base.value.face.flags)
  }

  lemma LaggingReach(m: Message)
    requires (m.EntryAssign? || m.EntryUpdate?) && Accepts(1, m)
    ensures Accepts(0, m) <==> m.seqNum != HALF + 1
  {
    BehindIsDistance(0, m.seqNum);
    BehindIsDistance(1, m.seqNum);
  }

  /** How serials move at a server: an entry takes the serial of the value broadcast for it, which is one the entry
      accepts; a new entry starts at 0 or 1; all others keep theirs. */
  ghost predicate SerialMoved(before: Option<Cell>, after: Option<Cell>, i: nat, out: seq<Out>) {
    && |out| <= 1
    && (after.Some? ==>
          if out != [] && (out[0].msg.EntryAssign? || out[0].msg.EntryUpdate?) && out[0].msg.id == i then
            && after.value.seqNum == out[0].msg.seqNum
            && (if before.Some? then Accepts(before.value.seqNum, out[0].msg)
               else out[0].msg.EntryAssign? && out[0].msg.seqNum <= 1)
          else before.Some? && after.value.seqNum == before.value.seqNum)
  }

  lemma NextIsAccepted(s: Serial, m: Message)
    requires (m.EntryAssign? || m.EntryUpdate?) && m.seqNum == Next(s)
    ensures Accepts(s, m)
  {
    BehindIsDistance(s, m.seqNum);
    NextIsOneAhead(s);
    assert Wrap(s) == s;
  }

  lemma ServerSerials(t: Table, op: Op, i: nat)
    requires Linked(t) && AllAssigned(t) && |Step(t, SERVER, op).0.index| <= UNASSIGNED && !op.OpLoad?
    requires Linked(Step(t, SERVER, op).0)
    ensures var (t', out) := Step(t, SERVER, op); SerialMoved(CellAt(t, i), CellAt(t', i), i, out)
  {
    var (t', out) := Step(t, SERVER, op);
    match op {
      case OpReceive(rev, m) => ReceiveSerials(t, rev, m, i);
      case OpSnapshot(_) =>
      case OpDelete(name) =>
        if name in t.rows {
          IdInIndex(t, name);
          assert Lookup(t'.index, i) == if i == t.rows[name].id then None else Lookup(t.index, i);
        }
      case OpDeleteAll => ClearSerials(t, i);
      case _ => WriteSerials(t, op, i);
    }
  }

  lemma ClearSerials(t: Table, i: nat)
    requires Linked(t)
    ensures Linked(ClearRows(t))
    ensures CellAt(ClearRows(t), i).Some? ==> CellAt(ClearRows(t), i) == CellAt(t, i)
  {
    ClearLinked(t);
    assert Lookup(ClearRows(t).index, i).Some? ==> Lookup(ClearRows(t).index, i) == Lookup(t.index, i);
  }

  lemma WriteSerials(t: Table, op: Op, i: nat)
    requires Linked(t) && AllAssigned(t) && Linked(Step(t, SERVER, op).0)
    requires op.OpSetDefault? || op.OpSetValue? || op.OpSetTypeValue? || op.OpSetFlags? || op.OpCreateRpc?
    ensures var (t', out) := Step(t, SERVER, op); SerialMoved(CellAt(t, i), CellAt(t', i), i, out)
  {
    var (t', out) := Step(t, SERVER, op);
    if t' != t {
      WritesOneRow(t, SERVER, op);
      var row := t'.rows[op.name];
      if op.name in t.rows {
        IdInIndex(t, op.name);
        if out != [] && (out[0].msg.EntryAssign? || out[0].msg.EntryUpdate?) {
          NextIsAccepted(t.rows[op.name].seqNum, out[0].msg);
        }
      }
      if i != row.id && i < |t.index| && t.index[i].Some? {
        SlotsDiffer(t, t', op.name, i);
      }
    }
  }

  lemma ReceiveSerials(t: Table, rev: nat, m: Message, i: nat)
    requires Linked(t) && AllAssigned(t) && Linked(Receive(t, SERVER, rev, m).0)
    ensures var (t', out) := Receive(t, SERVER, rev, m); SerialMoved(CellAt(t, i), CellAt(t', i), i, out)
  {
    var (t', out) := Receive(t, SERVER, rev, m);
    match m {
      case ClearEntries => ClearSerials(t, i);
      case EntryDelete(id) =>
        assert Lookup(t.index, id).Some? ==> Lookup(t'.index, i) == if i == id then None else Lookup(t.index, i);
      case EntryAssign(_, id, _, _, _) =>
        if id == UNASSIGNED {
          if i < |t.index| && t.index[i].Some? && m.name !in t.rows {
            SlotsDiffer(t, t', m.name, i);
          }
        } else {
          OthersKeep(t, t', id);
        }
      case EntryUpdate(id, _, _) => OthersKeep(t, t', id);
      case FlagsUpdate(id, _) => OthersKeep(t, t', id);
      case _ =>
    }
  }

  /** Serve an operation and post what it broadcasts. */
  ghost function ServeAndPost(s: System, op: Op): System
    requires Inv(s)
  {
    var s1 := Advance(s, Serve(op));
    s1.(pending := IDLE, wire := s1.wire + s1.pending.slots)
  }

  /** The serial that defeats the mirror, and no other: with nothing to merge, the listener goes on to show the server's
      table exactly when the operation does not overrun a lagging entry, or overruns it only to repeat what is shown. */
  lemma FaithfulUnlessOverrun(s: System, op: Op)
    requires Inv(s) && InStep(s) && !op.OpLoad? && |Step(s.server, SERVER, op).0.index| <= UNASSIGNED
    ensures var (t', out) := Step(s.server, SERVER, op);
      var overrun := out != [] && Overruns(s, out[0].msg);
      && |out| <= 1 && LiveIndex(t')
      && (Allowed(s, Serve(op)) <==> !overrun)
      && ((forall i: nat :: Caught(ViewOf(t'), s.client, s.wire, EnqueueAll(IDLE, out).slots, i)) <==>
            !overrun || Restates(s, out[0].msg))
  {
    hide Step, WithinReach, Overruns, Restates, Harmless, AllFaithful, QueueInv, EntryInStep, EnqueueAll, Enqueue;
    ServerTells(s.server, op);
    var (t', out) := Step(s.server, SERVER, op);
    ServerSerials(s.server, op, 0);
    IdleCaught(s);
    if out != [] {
      assert out == [out[0]] && out[1..] == [];
      OneFaithful(s.client, s.wire, out[0]);
      ReachUnlessOverrun(s, op);
      var v, m := ViewOf(s.server), out[0].msg;
      var u :| Legal(v, m) && Tells(v, m, u) && Story(u, out[1..], ViewOf(t'));
      MergeIsFaithful(ViewOf(s.server), u, s.client, s.wire, IDLE, out[0].msg);
      RedundantRestates(s, out[0].msg);
    } else {
      NothingSaid(s);
    }
  }

  lemma IdleCaught(s: System)
    requires Inv(s) && s.pending == IDLE
    ensures Marked(IDLE) && forall i: nat :: Caught(ViewOf(s.server), s.client, s.wire, IDLE.slots, i)
  {
  }

  lemma NothingSaid(s: System)
    requires LiveIndex(s.client) && Marked(IDLE)
    ensures AllFaithful(s.client, s.wire, IDLE, []) && EnqueueAll(IDLE, []) == IDLE
  {
  }

  /** The client takes the serial of what an operation says unless it is the overrunning one. */
  lemma ReachUnlessOverrun(s: System, op: Op)
    requires Inv(s) && InStep(s) && !op.OpLoad? && |Step(s.server, SERVER, op).0.index| <= UNASSIGNED
    requires Step(s.server, SERVER, op).1 != []
    ensures var m := Step(s.server, SERVER, op).1[0].msg;
      WithinReach(s.client, s.wire, IDLE, m) <==> !Overruns(s, m)
  {
    ServerTells(s.server, op);
    var (t', out) := Step(s.server, SERVER, op);
    var m := out[0].msg;
    ServerSerials(s.server, op, 0);
    if m.EntryAssign? || m.EntryUpdate? {
      assert EntryInStep(s, m.id) && !HasClear(IDLE.slots);
      if BaseAt(s.client, s.wire, m.id).Some? {
        SaidIsShown(s.server, t', out);
        ServerSerials(s.server, op, m.id);
        if BaseAt(s.client, s.wire, m.id).value.seqNum != CellAt(s.server, m.id).value.seqNum {
          LaggingReach(m);
        }
      }
    }
  }

  lemma RedundantRestates(s: System, m: Message)
    requires Inv(s) && Marked(IDLE)
    ensures !m.ClearEntries? ==>
      (Harmless(s.client, s.wire, IDLE, m) <==> WithinReach(s.client, s.wire, IDLE, m) || Restates(s, m))
    ensures m.ClearEntries? ==> Harmless(s.client, s.wire, IDLE, m)
  {
    assert !HasClear(IDLE.slots);
    assert ClearSafe(s.client, s.wire, IDLE);
  }

  /** With nothing to merge, only the serial can go wrong. */
  lemma OneFaithful(client: Table, wire: seq<Option<Message>>, o: Out)
    requires LiveIndex(client) && Marked(IDLE)
    ensures AllFaithful(client, wire, IDLE, [o]) <==>
      ((o.msg.EntryAssign? || o.msg.EntryUpdate?) && BaseAt(client, wire, o.msg.id).Some? ==>
        Accepts(BaseAt(client, wire, o.msg.id).value.seqNum, o.msg))
    ensures AllFaithful(client, wire, IDLE, [o]) <==> WithinReach(client, wire, IDLE, o.msg)
    ensures EnqueueAll(IDLE, [o]).slots == [Some(o.msg)] == Enqueue(IDLE, o.msg).slots
  {
    EnqueueKeepsMarked(IDLE, o.msg);
    var q := Enqueue(IDLE, o.msg);
    assert [o][1..] == [];
    assert AllFaithful(client, wire, q, []) && EnqueueAll(q, []) == q;
    assert !HasClear(IDLE.slots);
    assert ClearSafe(client, wire, IDLE);
  }

  /** The entry a value message is about is there afterwards. */
  lemma SaidIsShown(t: Table, t': Table, out: seq<Out>)
    requires LiveIndex(t) && Linked(t') && |out| == 1 && Told(t, t', out)
    requires out[0].msg.EntryAssign? || out[0].msg.EntryUpdate?
    ensures CellAt(t', out[0].msg.id).Some?
  {
    var m := out[0].msg;
    var w :| Legal(ViewOf(t), m) && Tells(ViewOf(t), m, w) && Story(w, out[1..], ViewOf(t'));
    assert w.At(m.id) == Absorb(ViewOf(t).At(m.id), m.id, m);
    assert ViewOf(t').At(m.id).Some?;
  }

  lemma ServeKeepsInStep(s: System, op: Op)
    requires Inv(s) && InStep(s) && !op.OpLoad? && Allowed(s, Serve(op))
    ensures Inv(ServeAndPost(s, op)) && InStep(ServeAndPost(s, op))
  {
    var s1, s', out := Advance(s, Serve(op)), ServeAndPost(s, op), Step(s.server, SERVER, op).1;
    AdvanceKeepsInv(s, Serve(op));
    PostKeepsInv(s1);
    ServerSerials(s.server, op, 0);
    if out != [] {
      assert out == [out[0]];
      OneFaithful(s.client, s.wire, out[0]);
    }
    assert s1.pending.slots == if out == [] then [] else [Some(out[0].msg)];
    forall i: nat
      ensures EntryInStep(s', i)
    {
      EntryStaysInStep(s, op, s1, i);
      TakeAllSplits(CellAt(s.client, i), i, s.wire, s1.pending.slots);
    }
  }

  lemma EntryStaysInStep(s: System, op: Op, s1: System, i: nat)
    requires Inv(s) && EntryInStep(s, i) && !op.OpLoad? && Allowed(s, Serve(op)) && s.pending == IDLE
    requires s1 == Advance(s, Serve(op)) && Inv(s1)
    requires var out := Step(s.server, SERVER, op).1;
      && s1.pending.slots == (if out == [] then [] else [Some(out[0].msg)])
      && (out != [] ==> out == [out[0]])
    ensures var c := TakeAll(BaseAt(s.client, s.wire, i), i, s1.pending.slots);
      c.Some? ==> CellAt(s1.server, i).Some? && Trails(c.value.seqNum, CellAt(s1.server, i).value.seqNum)
  {
    var out, base := Step(s.server, SERVER, op).1, BaseAt(s.client, s.wire, i);
    ServerSerials(s.server, op, i);
    ViewIsDistinct(s.server);
    ViewIsDistinct(s1.server);
    assert Caught(ViewOf(s.server), s.client, s.wire, [], i);
    assert Caught(ViewOf(s1.server), s.client, s.wire, s1.pending.slots, i);
    if out != [] {
      OneFaithful(s.client, s.wire, out[0]);
      if out[0].msg.EntryAssign? && base.Some? && out[0].msg.id == i {
        ServerTells(s.server, op);
        assert Legal(ViewOf(s.server), out[0].msg);
      }
    }
    StaysInStep(base, CellAt(s.server, i), CellAt(s1.server, i), i, out, s1.pending.slots);
  }

  lemma StaysInStep(base: Option<Cell>, before: Option<Cell>, after: Option<Cell>, i: nat, out: seq<Out>,
                    slots: seq<Option<Message>>)
    requires FaceOf(base) == FaceOf(before)
    requires base.Some? ==> Trails(base.value.seqNum, before.value.seqNum)
    requires SerialMoved(before, after, i, out)
    requires if out == [] then slots == [] else slots == [Some(out[0].msg)]
    requires out != [] && (out[0].msg.EntryAssign? || out[0].msg.EntryUpdate?) && out[0].msg.id == i && base.Some? ==>
      Accepts(base.value.seqNum, out[0].msg)
    requires out != [] && out[0].msg.EntryAssign? && out[0].msg.id == i && base.Some? ==>
      base.value.face.name == out[0].msg.name
    requires FaceOf(TakeAll(base, i, slots)) == FaceOf(after)
    ensures var c := TakeAll(base, i, slots); c.Some? ==> after.Some? && Trails(c.value.seqNum, after.value.seqNum)
  {
    if out != [] {
      assert slots[..0] == [];
      assert TakeAll(base, i, slots) == Take(base, i, out[0].msg);
    }
  }

  datatype Move = Serving(op: Op) | Arriving

  ghost function DirectRun(s: System, ms: seq<Move>): System
    requires Inv(s)
    decreases |ms|
  {
    if ms == [] then s
    else
      var s' := if ms[0].Serving? then ServeAndPost(s, ms[0].op) else Advance(s, Arrive);
      if Inv(s') then DirectRun(s', ms[1..]) else s'
  }

  /** No file is loaded, ids stay 16-bit, and nobody sends the overrunning serial. */
  ghost predicate Ordinary(s: System, ms: seq<Move>)
    requires Inv(s)
    decreases |ms|
  {
    ms != [] ==>
      && (ms[0].Serving? ==>
            && !ms[0].op.OpLoad? && |Step(s.server, SERVER, ms[0].op).0.index| <= UNASSIGNED
            && forall o :: o in Step(s.server, SERVER, ms[0].op).1 ==> !Overruns(s, o.msg))
      && var s' := if ms[0].Serving? then ServeAndPost(s, ms[0].op) else Advance(s, Arrive);
         Inv(s') ==> Ordinary(s', ms[1..])
  }

  /** The mirror over every run: whatever the server does and whatever other clients send it, the listener's table
      followed by the messages still in its queue is the server's table. */
  lemma {:induction false} MirrorRun(s: System, ms: seq<Move>)
    requires Inv(s) && InStep(s) && Ordinary(s, ms)
    ensures var r := DirectRun(s, ms);
      && Inv(r) && InStep(r)
      && (forall i: nat :: FaceOf(TakeAll(CellAt(r.client, i), i, r.wire)) == FaceOf(CellAt(r.server, i)))
      && (r.wire == [] ==> Agree(r.client, r.server))
    decreases |ms|
  {
    if ms == [] {
      ReplicaRun(s, []);
      assert s.wire + [] == s.wire;
    } else if ms[0].Serving? {
      FaithfulUnlessOverrun(s, ms[0].op);
      ServeKeepsInStep(s, ms[0].op);
      MirrorRun(ServeAndPost(s, ms[0].op), ms[1..]);
    } else {
      ArrivingKeepsInStep(s);
      MirrorRun(Advance(s, Arrive), ms[1..]);
    }
  }

  lemma ArrivingKeepsInStep(s: System)
    requires Inv(s) && InStep(s)
    ensures Inv(Advance(s, Arrive)) && InStep(Advance(s, Arrive))
  {
    if s.wire != [] {
      ArriveKeepsInv(s);
      var s' := Advance(s, Arrive);
      forall i: nat
        ensures EntryInStep(s', i)
      {
        assert EntryInStep(s, i);
        ArriveKeepsBase(s, i);
      }
    }
  }

  /** Two tables that show the same, with nothing on its way between them and the client's serials trailing, begin a
      run. */
  lemma BeginsInStep(server: Table, client: Table)
    requires Linked(server) && AllAssigned(server) && Linked(client) && AllAssigned(client)
    requires forall i: nat :: FaceOf(CellAt(client, i)) == FaceOf(CellAt(server, i))
    requires forall i: nat :: CellAt(client, i).Some? ==>
      CellAt(server, i).Some? && Trails(CellAt(client, i).value.seqNum, CellAt(server, i).value.seqNum)
    ensures Inv(System(server, IDLE, [], client)) && InStep(System(server, IDLE, [], client))
  {
    var v := ViewOf(server);
    ViewIsDistinct(server);
    forall id: nat | id != UNASSIGNED
      ensures MarkedAt(IDLE, id)
    {
    }
    forall i: nat
      ensures BaseFits(v, client, [], i) && Caught(v, client, [], [], i)
    {
      assert FaceOf(CellAt(client, i)) == FaceOf(CellAt(server, i));
    }
  }

  /** A table with one entry, under id 0. */
  function Single(name: Bytes, value: Value, seqNum: Serial): Table {
    Table(map[name := Row(value, 0, 0, seqNum)], [Some(name)], false)
  }

  lemma SingleIsLinked(name: Bytes, value: Value, seqNum: Serial)
    ensures var t := Single(name, value, seqNum);
      && Linked(t) && AllAssigned(t)
      && forall i: nat :: CellAt(t, i) == if i == 0 then Some(Cell(Face(name, value, 0), seqNum)) else None
  {
  }

  lemma CreatesSingle(name: Bytes, value: Value)
    requires name != []
    ensures var told := EntryAssign(name, 0, 1, value, 0);
      && Step(EMPTY, SERVER, OpSetTypeValue(name, Some(value))) == (Single(name, value, 1), [Out(told, false)])
      && Receive(EMPTY, CLIENT, PROTO_3, told) == (Single(name, value, 0), [])
  {
    assert EMPTY.index + [Some(name)] == [Some(name)];
    assert Grow(EMPTY.index, 1)[0 := Some(name)] == [Some(name)];
  }

  /** An entry that the server creates at serial 1 begins at 0 at the listener. */
  lemma SingleArrives(name: Bytes, value: Value)
    requires name != []
    ensures var begin, create := System(EMPTY, IDLE, [], EMPTY), OpSetTypeValue(name, Some(value));
      var s := System(Single(name, value, 1), IDLE, [], Single(name, value, 0));
      && Inv(begin) && InStep(begin) && Inv(s) && InStep(s)
      && DirectRun(begin, [Serving(create), Arriving]) == s
  {
    hide Step, Receive, Inv, InStep, Allowed, EnqueueAll;
    var begin, create := System(EMPTY, IDLE, [], EMPTY), OpSetTypeValue(name, Some(value));
    BothSingle(name, value);
    CreatesSingle(name, value);
    FaithfulUnlessOverrun(begin, create);
    ServeKeepsInStep(begin, create);
    var told := EntryAssign(name, 0, 1, value, 0);
    OneFaithful(EMPTY, [], Out(told, false));
    var s1 := ServeAndPost(begin, create);
    assert s1 == System(Single(name, value, 1), IDLE, [Some(told)], EMPTY);
    assert Advance(s1, Arrive) == System(Single(name, value, 1), IDLE, [], Single(name, value, 0));
    assert [Serving(create), Arriving][1..] == [Arriving] && [Arriving][1..] == [];
    assert DirectRun(s1, [Arriving]) == Advance(s1, Arrive);
  }

  lemma BothSingle(name: Bytes, value: Value)
    ensures var begin := System(EMPTY, IDLE, [], EMPTY);
      var s := System(Single(name, value, 1), IDLE, [], Single(name, value, 0));
      && Inv(begin) && InStep(begin) && Inv(s) && InStep(s)
      && !Overruns(begin, EntryAssign(name, 0, 1, value, 0))
  {
    hide Inv, InStep;
    BeginsInStep(EMPTY, EMPTY);
    SingleIsLinked(name, value, 1);
    SingleIsLinked(name, value, 0);
    BeginsInStep(Single(name, value, 1), Single(name, value, 0));
  }

  /** The overrun happens: an update with serial 2^15 + 1 from another client is taken by the server, passed on, and
      refused by the listener. */
  lemma OverrunIsLost(name: Bytes, v0: Value, v1: Value)
    ensures var s, m := System(Single(name, v0, 1), IDLE, [], Single(name, v0, 0)), EntryUpdate(0, HALF + 1, v1);
      && Inv(s) && Overruns(s, m)
      && Step(s.server, SERVER, OpReceive(PROTO_3, m)) == (Single(name, v1, HALF + 1), [Out(m, true)])
      && Receive(s.client, CLIENT, PROTO_3, m) == (s.client, [])
  {
    hide Inv;
    SingleIsLinked(name, v0, 1);
    SingleIsLinked(name, v0, 0);
    BothSingle(name, v0);
    var rows := Single(name, v0, 1).rows;
    assert rows[name := rows[name].(value := v1, seqNum := HALF + 1)] == Single(name, v1, HALF + 1).rows;
  }
}
