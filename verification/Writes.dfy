/**
  A write at a client, on its way through the server to everybody else: what the client says, what the server makes of
  it and whom it tells.
 */
module Writes {
  import opened Basics
  import opened Messages
  import opened Serials
  import opened Tables
  import opened TableRuns
  import opened Mirror
  import opened Handshake
  import Direct

  // ---------------------------------------------------------------------------------------------
  // The server receives
  // ---------------------------------------------------------------------------------------------

  /** The message concerns an entry that is there, and changes it: its serial is not behind, its flags are others. */
  ghost predicate Heard(t: Table, m: Message)
    requires LiveIndex(t)
  {
    match m
    case EntryAssign(name, id, _, _, _) =>
      CellAt(t, id).Some? && Accepts(CellAt(t, id).value.seqNum, m) && name == CellAt(t, id).value.face.name
    case EntryUpdate(id, _, _) => CellAt(t, id).Some? && Accepts(CellAt(t, id).value.seqNum, m)
    case FlagsUpdate(id, flags) => CellAt(t, id).Some? && CellAt(t, id).value.face.flags != flags
    case EntryDelete(id) => CellAt(t, id).Some?
    case ClearEntries => true
    case _ => false
  }

  /** A server takes a message id by id as a client does, except that it lets nobody give out ids. What it hears of it
      tells everybody but the one it heard it from, in the same words; the rest it keeps to itself. */
  lemma ServerTakes(t: Table, m: Message)
    requires Linked(t) && AllAssigned(t) && (m.EntryAssign? ==> m.id != UNASSIGNED)
    ensures var (t', out) := Receive(t, SERVER, PROTO_3, m);
      && Linked(t') && AllAssigned(t')
      && (forall i: nat :: CellAt(t', i) ==
            if m.EntryAssign? && CellAt(t, m.id).None? then CellAt(t, i) else Take(CellAt(t, i), i, m))
      && out == (if Heard(t, m) then [Out(m, true)] else [])
      && Addressed(out, true) == [] && Addressed(out, false) == (if Heard(t, m) then [m] else [])
      && (!Heard(t, m) ==> t' == t)
  {
    match m {
      case EntryAssign(_, _, _, _, _) => ServerTakesAssign(t, m);
      case EntryUpdate(_, _, _) => ServerTakesUpdate(t, m);
      case FlagsUpdate(_, _) => ServerTakesUpdate(t, m);
      case EntryDelete(_) => ServerTakesDelete(t, m);
      case ClearEntries => ServerTakesDelete(t, m);
      case _ =>
    }
  }

  lemma ServerTakesAssign(t: Table, m: Message)
    requires Linked(t) && AllAssigned(t) && m.EntryAssign? && m.id != UNASSIGNED
    ensures var (t', out) := Receive(t, SERVER, PROTO_3, m);
      && Linked(t') && AllAssigned(t')
      && (forall i: nat :: CellAt(t', i) == if CellAt(t, m.id).None? then CellAt(t, i) else Take(CellAt(t, i), i, m))
      && out == (if Heard(t, m) then [Out(m, true)] else [])
      && Addressed(out, true) == [] && Addressed(out, false) == (if Heard(t, m) then [m] else [])
      && (!Heard(t, m) ==> t' == t)
  {
    OthersKeep(t, Receive(t, SERVER, PROTO_3, m).0, m.id);
  }

  lemma ServerTakesUpdate(t: Table, m: Message)
    requires Linked(t) && AllAssigned(t) && (m.EntryUpdate? || m.FlagsUpdate?)
    ensures var (t', out) := Receive(t, SERVER, PROTO_3, m);
      && Linked(t') && AllAssigned(t')
      && (forall i: nat :: CellAt(t', i) == Take(CellAt(t, i), i, m))
      && out == (if Heard(t, m) then [Out(m, true)] else [])
      && Addressed(out, true) == [] && Addressed(out, false) == (if Heard(t, m) then [m] else [])
      && (!Heard(t, m) ==> t' == t)
  {
    OthersKeep(t, Receive(t, SERVER, PROTO_3, m).0, m.id);
  }

  lemma ServerTakesDelete(t: Table, m: Message)
    requires Linked(t) && AllAssigned(t) && (m.EntryDelete? || m.ClearEntries?)
    ensures var (t', out) := Receive(t, SERVER, PROTO_3, m);
      && Linked(t') && AllAssigned(t')
      && (forall i: nat :: CellAt(t', i) == Take(CellAt(t, i), i, m))
      && out == (if Heard(t, m) then [Out(m, true)] else [])
      && Addressed(out, true) == [] && Addressed(out, false) == (if Heard(t, m) then [m] else [])
      && (!Heard(t, m) ==> t' == t)
  {
    var t' := Receive(t, SERVER, PROTO_3, m).0;
    if m.ClearEntries? {
      ClearLinked(t);
      forall i: nat
        ensures CellAt(t', i) == Take(CellAt(t, i), i, m)
      {
        assert Lookup(t.index, i).Some? ==> Lookup(t.index, i).value in t.rows;
      }
    } else {
      DeleteKeepsLinked(t, SERVER, m);
      forall i: nat
        ensures CellAt(t', i) == Take(CellAt(t, i), i, m)
      {
        assert Lookup(t.index, m.id).Some? ==> Lookup(t'.index, i) == if i == m.id then None else Lookup(t.index, i);
      }
    }
  }

  /** A request for an id is granted once: the name is entered under the next id at serial 0, and everybody is told,
      the one who asked included. */
  lemma ServerEnters(t: Table, m: Message)
    requires Linked(t) && AllAssigned(t) && m.EntryAssign? && m.id == UNASSIGNED && |t.index| < UNASSIGNED
    ensures var (t', out) := Receive(t, SERVER, PROTO_3, m);
      var answer := EntryAssign(m.name, |t.index|, 0, m.value, m.flags);
      && Linked(t') && AllAssigned(t')
      && (m.name in t.rows ==> t' == t && out == [])
      && (m.name !in t.rows ==>
            && (forall i: nat :: CellAt(t', i) ==
                  if i == |t.index| then Some(Cell(Face(m.name, m.value, m.flags), 0)) else CellAt(t, i))
            && Addressed(out, true) == [answer] && Addressed(out, false) == [answer])
  {
    var t' := Receive(t, SERVER, PROTO_3, m).0;
    if m.name !in t.rows {
      forall i: nat
        ensures CellAt(t', i) ==
          if i == |t.index| then Some(Cell(Face(m.name, m.value, m.flags), 0)) else CellAt(t, i)
      {
        assert Lookup(t'.index, i) == if i == |t.index| then Some(m.name) else Lookup(t.index, i);
      }
    }
  }

  // ---------------------------------------------------------------------------------------------
  // The client writes
  // ---------------------------------------------------------------------------------------------

  /** A write at a client that is connected, to a name it has already or to all. */
  predicate LocalWrite(t: Table, op: Op) {
    match op
    case OpSetDefault(name, _) => name in t.rows
    case OpSetValue(name, _) => name in t.rows
    case OpSetTypeValue(name, _) => name in t.rows
    case OpSetFlags(_, _) => true
    case OpDelete(_) => true
    case OpDeleteAll => true
    case OpCreateRpc(_, _) => true
    case _ => false
  }

  /** Whatever a client with ids for all its entries writes to them, the message it sends tells exactly what happened to
      its table; it sends none only if nothing did. */
  lemma ClientTells(t: Table, op: Op)
    requires Linked(t) && AllAssigned(t) && LocalWrite(t, op)
    ensures var (t', out) := Step(t, CLIENT, op);
      && Linked(t') && Told(t, t', out) && |out| <= 1
      && (out != [] ==>
            var m := out[0].msg;
            && Addressed(out, true) == [m] && (m.EntryAssign? ==> m.id != UNASSIGNED)
            && (m.EntryAssign? || m.EntryUpdate? || m.FlagsUpdate? ==> FaceOf(CellAt(t', m.id)) != FaceOf(CellAt(t, m.id)))
            && (m.EntryAssign? || m.EntryUpdate? ==>
                  && CellAt(t', m.id).Some? && CellAt(t', m.id).value.seqNum == m.seqNum
                  && CellAt(t, m.id).Some? && m.seqNum == Next(CellAt(t, m.id).value.seqNum)))
  {
    var (t', out) := Step(t, CLIENT, op);
    StepKeepsLinked(t, CLIENT, op);
    if t' == t && out == [] {
    } else if op.OpDelete? {
      ViewIsDistinct(t);
      IdInIndex(t, op.name);
      RowGone(t, t', op.name);
      OneMessage(ViewOf(t), out[0], ViewOf(t'));
    } else if op.OpDeleteAll? {
      ClearMoves(t);
      OneMessage(ViewOf(t), out[0], ViewOf(t'));
    } else {
      WritesOneRow(t, CLIENT, op);
      WordingTells(t, t', op.name, out);
      IdInIndex(t, op.name);
    }
  }

  // ---------------------------------------------------------------------------------------------
  // All the way
  // ---------------------------------------------------------------------------------------------

  /** Both sides show the same under every id. */
  ghost predicate SameShown(c: Table, s: Table)
    requires LiveIndex(c) && LiveIndex(s)
  {
    forall i: nat :: FaceOf(CellAt(c, i)) == FaceOf(CellAt(s, i))
  }

  /** The serial of a value is one that `t` takes. */
  ghost predicate InTime(t: Table, m: Message)
    requires LiveIndex(t)
  {
    (m.EntryAssign? || m.EntryUpdate?) && CellAt(t, m.id).Some? ==> Accepts(CellAt(t, m.id).value.seqNum, m)
  }

  ghost predicate Ready(t: Table) {
    LiveIndex(t) && Linked(t) && AllAssigned(t)
  }

  /** A message that is legal where the same is shown does to a table that shows the same what it says, exactly if its
      serial is in time or it says nothing new. */
  lemma LegalArrives(v: View, m: Message, u: View, t: Table, t': Table)
    requires Ready(t) && LiveIndex(t') && v.Distinct() && Legal(v, m) && Tells(v, m, u) && (m.EntryAssign? ==> m.id in v.faces)
    requires forall i: nat :: v.At(i) == FaceOf(CellAt(t, i))
    requires forall i: nat :: CellAt(t', i) == Take(CellAt(t, i), i, m)
    ensures InTime(t, m) ==> forall i: nat :: FaceOf(CellAt(t', i)) == u.At(i)
    ensures !InTime(t, m) ==> forall i: nat :: CellAt(t', i) == CellAt(t, i)
    ensures InTime(t, m) && (m.EntryAssign? || m.EntryUpdate?) ==>
      CellAt(t', m.id).Some? && CellAt(t', m.id).value.seqNum == m.seqNum
  {
    hide Less, LessEq, CellAt, Linked, AllAssigned;
    forall i: nat
      ensures u.At(i) == Absorb(v.At(i), i, m)
    {
    }
    if InTime(t, m) {
      forall i: nat
        ensures FaceOf(CellAt(t', i)) == u.At(i)
      {
        assert CellAt(t', i) == Take(CellAt(t, i), i, m);
        assert v.At(i) == FaceOf(CellAt(t, i));
      }
    }
  }

  lemma Arrives(s: Table, c: Table, c': Table, l: Table, out: seq<Out>)
    requires Ready(s) && Ready(c) && Ready(l) && SameShown(c, s) && SameShown(l, s)
    requires Linked(c') && Told(c, c', out) && |out| == 1
    requires var m := out[0].msg;
      && (m.EntryAssign? ==> m.id != UNASSIGNED && CellAt(c, m.id).Some?)
      && (m.EntryAssign? || m.EntryUpdate? || m.FlagsUpdate? ==> FaceOf(CellAt(c', m.id)) != FaceOf(CellAt(c, m.id)))
    ensures var m := out[0].msg;
      var (s', told) := Receive(s, SERVER, PROTO_3, m);
      var l' := ReceiveAll(l, CLIENT, Addressed(told, false)).0;
      && Ready(c') && Ready(s') && Ready(l') && Addressed(told, true) == []
      && (SameShown(c', s') <==> InTime(s, m)) && (!InTime(s, m) ==> s' == s && told == [])
      && (InTime(s, m) && (m.EntryAssign? || m.EntryUpdate?) ==>
            CellAt(s', m.id).Some? && CellAt(s', m.id).value.seqNum == m.seqNum)
      && (InTime(s, m) ==> (SameShown(l', s') <==> InTime(l, m)))
  {
    hide Receive, Take, CellAt, Linked, AllAssigned, Accepts;
    var m, v := out[0].msg, ViewOf(c);
    var u :| Legal(v, m) && Tells(v, m, u) && Story(u, out[1..], ViewOf(c'));
    assert u == ViewOf(c');
    ViewIsDistinct(c);
    ViewIsDistinct(c');
    ViewIsDistinct(s);
    assert m.EntryAssign? ==> v.At(m.id) == FaceOf(CellAt(s, m.id));
    ServerTakes(s, m);
    var (s', told) := Receive(s, SERVER, PROTO_3, m);
    LegalArrives(v, m, u, s, s');
    HeardInTime(v, m, u, s);
    if InTime(s, m) {
      ClientTakes(l, m);
      var l' := Receive(l, CLIENT, PROTO_3, m).0;
      assert ReceiveAll(l, CLIENT, [m]).0 == l' by {
        OneReceived(l, CLIENT, m);
      }
      LegalArrives(v, m, u, l, l');
    }
  }

  lemma OneReceived(t: Table, role: Role, m: Message)
    requires LiveIndex(t)
    ensures ReceiveAll(t, role, [m]).0 == Receive(t, role, PROTO_3, m).0
  {
    assert [m][..0] == [];
  }

  /** Where a legal message says something new, it is heard exactly if it is in time. */
  lemma HeardInTime(v: View, m: Message, u: View, t: Table)
    requires LiveIndex(t) && v.Distinct() && Legal(v, m) && Tells(v, m, u) && forall i: nat :: v.At(i) == FaceOf(CellAt(t, i))
    requires (m.EntryAssign? ==> m.id in v.faces) && (m.FlagsUpdate? ==> u.At(m.id) != v.At(m.id))
    ensures Heard(t, m) <==> InTime(t, m)
  {
    hide Accepts, CellAt;
    if m.EntryAssign? || m.EntryUpdate? || m.FlagsUpdate? || m.EntryDelete? {
      assert v.At(m.id) == FaceOf(CellAt(t, m.id));
      assert u.At(m.id) == Absorb(v.At(m.id), m.id, m);
    }
  }

  /** A client, the server and any other client show the same; the client writes. What it says arrives at the server, and
      from there at the other client and not at the writer: the server shows what the writer shows exactly if the
      serial is in time at the server, and the other client shows it too exactly if it is in time there. A write that
      changes nothing is not sent. */
  lemma WriteArrives(s: Table, c: Table, l: Table, op: Op)
    requires Ready(s) && Ready(c) && Ready(l) && SameShown(c, s) && SameShown(l, s) && LocalWrite(c, op)
    ensures var (c', out) := Step(c, CLIENT, op);
      && Ready(c') && |Addressed(out, true)| <= 1
      && (Addressed(out, true) == [] ==> SameShown(c', s))
      && (Addressed(out, true) != [] ==>
            var m := Addressed(out, true)[0];
            var (s', told) := Receive(s, SERVER, PROTO_3, m);
            var l' := ReceiveAll(l, CLIENT, Addressed(told, false)).0;
            && Ready(s') && Ready(l') && Addressed(told, true) == []
            && (SameShown(c', s') <==> InTime(s, m)) && (!InTime(s, m) ==> s' == s && told == [])
            && (InTime(s, m) && (m.EntryAssign? || m.EntryUpdate?) ==>
                  CellAt(s', m.id).Some? && CellAt(s', m.id).value.seqNum == m.seqNum)
            && (InTime(s, m) ==> (SameShown(l', s') <==> InTime(l, m))))
  {
    hide Step, Receive, Told, Linked, Heard, Take, CellAt, AllAssigned, Accepts, LocalWrite;
    var (c', out) := Step(c, CLIENT, op);
    ClientTells(c, op);
    if out != [] {
      Arrives(s, c, c', l, out);
    } else {
      NothingTold(c, c', s);
    }
  }

  lemma NothingTold(c: Table, c': Table, s: Table)
    requires Ready(c) && Told(c, c', []) && Linked(c') && LiveIndex(s) && SameShown(c, s)
    ensures Ready(c') && SameShown(c', s)
  {
    ViewIsDistinct(c);
    ViewIsDistinct(c');
  }

  /** Where the server has the client's serial, what the client writes is in time. */
  lemma InStepIsInTime(s: Table, c: Table, op: Op)
    requires Ready(s) && Ready(c) && SameShown(c, s) && LocalWrite(c, op)
    requires forall i: nat :: CellAt(c, i).Some? ==> CellAt(s, i).Some? && CellAt(c, i).value.seqNum == CellAt(s, i).value.seqNum
    ensures var out := Step(c, CLIENT, op).1; out != [] ==> InTime(s, out[0].msg)
  {
    hide Step, CellAt, Told, Linked, AllAssigned, LocalWrite;
    ClientTells(c, op);
    var out := Step(c, CLIENT, op).1;
    if out != [] && (out[0].msg.EntryAssign? || out[0].msg.EntryUpdate?) {
      Direct.NextIsAccepted(CellAt(c, out[0].msg.id).value.seqNum, out[0].msg);
    }
  }

  /** Both sides show the same, under the same serials. */
  ghost predicate LockStep(c: Table, s: Table) {
    && Ready(c) && Ready(s) && SameShown(c, s)
    && forall i: nat :: CellAt(c, i).Some? ==> CellAt(s, i).Some? && CellAt(c, i).value.seqNum == CellAt(s, i).value.seqNum
  }

  /** The serial a cell has after a message about it. */
  function SerialAfter(was: Serial, i: nat, out: seq<Out>): Serial {
    if out != [] && (out[0].msg.EntryAssign? || out[0].msg.EntryUpdate?) && out[0].msg.id == i then out[0].msg.seqNum else was
  }

  lemma ClientSerials(t: Table, op: Op, i: nat)
    requires Linked(t) && AllAssigned(t) && LocalWrite(t, op)
    ensures var (t', out) := Step(t, CLIENT, op);
      LiveIndex(t') && (CellAt(t', i).Some? ==>
        CellAt(t, i).Some? && CellAt(t', i).value.seqNum == SerialAfter(CellAt(t, i).value.seqNum, i, out))
  {
    StepKeepsLinked(t, CLIENT, op);
    var (t', out) := Step(t, CLIENT, op);
    if op.OpDelete? {
      if op.name in t.rows {
        IdInIndex(t, op.name);
        assert Lookup(t'.index, i) == if i == t.rows[op.name].id then None else Lookup(t.index, i);
      }
    } else if op.OpDeleteAll? {
      Direct.ClearSerials(t, i);
    } else if t' != t {
      WritesOneRow(t, CLIENT, op);
      IdInIndex(t, op.name);
      if i != t'.rows[op.name].id && i < |t.index| && t.index[i].Some? {
        SlotsDiffer(t, t', op.name, i);
      }
    }
  }

  /** One write leaves both sides in step. */
  lemma WriteKeepsStep(s: Table, c: Table, op: Op)
    requires LockStep(c, s) && LocalWrite(c, op)
    ensures var (c', out) := Step(c, CLIENT, op);
      |Addressed(out, true)| <= 1 && LockStep(c', ReceiveAll(s, SERVER, Addressed(out, true)).0)
  {
    hide Step, Receive, Linked, AllAssigned, LocalWrite, CellAt, Told, Take;
    var (c', out) := Step(c, CLIENT, op);
    WriteArrives(s, c, c, op);
    InStepIsInTime(s, c, op);
    ClientTells(c, op);
    if Addressed(out, true) == [] {
      NothingReceived(s, SERVER);
    } else {
      OneTaken(s, out[0].msg);
    }
    var s' := ReceiveAll(s, SERVER, Addressed(out, true)).0;
    forall i: nat | CellAt(c', i).Some?
      ensures CellAt(s', i).Some? && CellAt(c', i).value.seqNum == CellAt(s', i).value.seqNum
    {
      ClientSerials(c, op, i);
      assert FaceOf(CellAt(c', i)) == FaceOf(CellAt(s', i));
    }
  }

  /** One message moves no serial but its own. */
  lemma OneTaken(s: Table, m: Message)
    requires Ready(s) && (m.EntryAssign? ==> m.id != UNASSIGNED)
    ensures ReceiveAll(s, SERVER, [m]).0 == Receive(s, SERVER, PROTO_3, m).0 && LiveIndex(ReceiveAll(s, SERVER, [m]).0)
    ensures forall i: nat :: CellAt(Receive(s, SERVER, PROTO_3, m).0, i).Some? && CellAt(s, i).Some? ==>
      || CellAt(Receive(s, SERVER, PROTO_3, m).0, i).value.seqNum == CellAt(s, i).value.seqNum
      || ((m.EntryAssign? || m.EntryUpdate?) && m.id == i)
  {
    hide Receive, ReceiveAll, AllAssigned, CellAt;
    OneReceived(s, SERVER, m);
    ServerTakes(s, m);
  }

  /** What a client's writes leave and send. */
  ghost function WriteAll(c: Table, ops: seq<Op>): (Table, seq<Message>) {
    if ops == [] then (c, [])
    else
      var (t, ms) := WriteAll(c, ops[..|ops| - 1]);
      var (t', out) := if LiveIndex(t) then Step(t, CLIENT, ops[|ops| - 1]) else (t, []);
      (t', ms + Addressed(out, true))
  }

  /** However many writes a client makes to what both sides have, if nobody else writes: once the server has taken what the
      client sent, in its order, it shows what the client shows, under the same serials. */
  lemma {:induction false} WritesArrive(s: Table, c: Table, ops: seq<Op>)
    requires LockStep(c, s)
    requires forall k :: 0 <= k < |ops| ==> LocalWrite(WriteAll(c, ops[..k]).0, ops[k])
    ensures var (c', ms) := WriteAll(c, ops); LockStep(c', ReceiveAll(s, SERVER, ms).0)
    decreases |ops|
  {
    hide Step, Receive, LockStep, LocalWrite;
    if ops == [] {
      NothingReceived(s, SERVER);
    } else {
      var n := |ops| - 1;
      assert forall k :: 0 <= k < n ==> ops[..n][..k] == ops[..k];
      WritesArrive(s, c, ops[..n]);
      var (t, ms) := WriteAll(c, ops[..n]);
      assert Ready(t) by {
        ReadyInStep(t, ReceiveAll(s, SERVER, ms).0);
      }
      WriteKeepsStep(ReceiveAll(s, SERVER, ms).0, t, ops[n]);
      var out := Step(t, CLIENT, ops[n]).1;
      OneMoreTaken(s, ms, Addressed(out, true));
    }
  }

  lemma ReadyInStep(c: Table, s: Table)
    requires LockStep(c, s)
    ensures Ready(c) && Ready(s)
  {
  }

  lemma OneMoreTaken(s: Table, ms: seq<Message>, more: seq<Message>)
    requires |more| <= 1
    ensures ReceiveAll(s, SERVER, ms + more).0 == ReceiveAll(ReceiveAll(s, SERVER, ms).0, SERVER, more).0
  {
    hide Receive;
    var t := ReceiveAll(s, SERVER, ms).0;
    NothingReceived(t, SERVER);
    if more == [] {
      assert ms + more == ms;
    } else {
      var m := more[0];
      assert more == [m] && more[..0] == [];
      assert (ms + more)[..|ms|] == ms;
    }
  }

  /** Elsewhere it can be late: an entry that the server made at serial 1 begins at 0 at the client. The client's first new
      value for it carries serial 1; the server, which is there already, drops it, and both go on with their own. */
  lemma FirstWriteIsLost(name: Bytes, v0: Value, v1: Value)
    requires name != [] && v0 != v1 && v0.Type() == v1.Type()
    ensures var s, c := Direct.Single(name, v0, 1), Direct.Single(name, v0, 0);
      && Ready(s) && Ready(c) && SameShown(c, s)
      && Step(c, CLIENT, OpSetValue(name, Some(v1))) == (Direct.Single(name, v1, 1), [Out(EntryUpdate(0, 1, v1), false)])
      && Receive(s, SERVER, PROTO_3, EntryUpdate(0, 1, v1)) == (s, [])
  {
    Direct.SingleIsLinked(name, v0, 1);
    Direct.SingleIsLinked(name, v0, 0);
    var rows := Direct.Single(name, v0, 0).rows;
    assert rows[name := Row(v1, 0, 0, 1)] == Direct.Single(name, v1, 1).rows;
  }

  /** A write that creates an entry, and its value. */
  predicate Creates(t: Table, op: Op, value: Value) {
    && (op.OpSetDefault? || op.OpSetValue? || op.OpSetTypeValue?)
    && op.value == Some(value) && op.name != [] && op.name !in t.rows
  }

  /** What the client has then: the entry without an id, and a request on its way. */
  lemma ClientAsksFor(c: Table, op: Op, value: Value)
    requires Ready(c) && Creates(c, op, value)
    ensures var (c1, out) := Step(c, CLIENT, op);
      var q := c1.rows[op.name].seqNum;
      && q <= 1 && c1.index == c.index && c1.rows == c.rows[op.name := Row(value, 0, UNASSIGNED, q)]
      && Addressed(out, true) == [EntryAssign(op.name, UNASSIGNED, q, value, 0)]
  {
  }

  /** The answer gives the entry its id; if its serial was ahead, the client says so. */
  lemma ClientGetsId(c: Table, c1: Table, name: Bytes, value: Value, q: Serial, k: nat)
    requires Ready(c) && name !in c.rows && q <= 1 && k < UNASSIGNED && CellAt(c, k).None?
    requires c1.index == c.index && c1.rows == c.rows[name := Row(value, 0, UNASSIGNED, q)]
    ensures LiveIndex(c1)
    ensures var (c2, out) := Receive(c1, CLIENT, PROTO_3, EntryAssign(name, k, 0, value, 0));
      && Ready(c2)
      && (forall i: nat :: CellAt(c2, i) == if i == k then Some(Cell(Face(name, value, 0), q)) else CellAt(c, i))
      && Addressed(out, true) == if q == 1 then [EntryUpdate(k, 1, value)] else []
  {
    assert Less(0, q) <==> q == 1;
    var c2 := Receive(c1, CLIENT, PROTO_3, EntryAssign(name, k, 0, value, 0)).0;
    assert c2.rows == c.rows[name := Row(value, 0, k, q)];
    assert forall i: nat :: Lookup(c2.index, i) == if i == k then Some(name) else Lookup(c.index, i);
  }

  /** A new entry arrives everywhere: the server enters it under the next id and tells everybody, the writer included;
      the writer learns the id and, if it had set the value with its type, follows with an update. In the end the server,
      the writer and any other client show the same, and the new entry with its value. */
  lemma CreationArrives(s: Table, c: Table, l: Table, op: Op, value: Value)
    requires Ready(s) && Ready(c) && Ready(l) && SameShown(c, s) && SameShown(l, s) && Creates(c, op, value)
    requires |s.index| < UNASSIGNED
    ensures var (c1, out) := Step(c, CLIENT, op);
      && |Addressed(out, true)| == 1 && LiveIndex(c1)
      && var (s1, told) := Receive(s, SERVER, PROTO_3, Addressed(out, true)[0]);
         && |Addressed(told, true)| == 1 && LiveIndex(s1)
         && var (c2, more) := Receive(c1, CLIENT, PROTO_3, Addressed(told, true)[0]);
            && |Addressed(more, true)| <= 1
            && var (s2, passed) := if Addressed(more, true) == [] then (s1, [])
                                   else Receive(s1, SERVER, PROTO_3, Addressed(more, true)[0]);
               var l2 := ReceiveAll(l, CLIENT, Addressed(told, false) + Addressed(passed, false)).0;
               && Addressed(passed, true) == []
               && Ready(s2) && Ready(c2) && Ready(l2) && SameShown(c2, s2) && SameShown(l2, s2)
               && CellAt(s2, |s.index|) == CellAt(c2, |s.index|)
               && FaceOf(CellAt(s2, |s.index|)) == Some(Face(op.name, value, 0))
  {
    hide Step, Receive, ReceiveAll, Linked, AllAssigned, Ready, SameShown;
    assert LiveIndex(s) && LiveIndex(c) && LiveIndex(l) by {
      ReadyIsLive(s, c, l);
    }
    ClientAsksFor(c, op, value);
    var (c1, out) := Step(c, CLIENT, op);
    var name, k, q := op.name, |s.index|, c1.rows[op.name].seqNum;
    AnswerArrives(s, c, l, c1, name, value, q);
    var answer, update := EntryAssign(name, k, 0, value, 0), EntryUpdate(k, 1, value);
    assert [answer] + [] == [answer] && [answer] + [update] == [answer, update];
  }

  lemma ReadyIsLive(s: Table, c: Table, l: Table)
    requires Ready(s) && Ready(c) && Ready(l)
    ensures LiveIndex(s) && LiveIndex(c) && LiveIndex(l)
  {
  }

  lemma AnswerArrives(s: Table, c: Table, l: Table, c1: Table, name: Bytes, value: Value, q: Serial)
    requires Ready(s) && Ready(c) && Ready(l) && SameShown(c, s) && SameShown(l, s) && name !in c.rows && q <= 1
    requires |s.index| < UNASSIGNED && c1.index == c.index && c1.rows == c.rows[name := Row(value, 0, UNASSIGNED, q)]
    ensures LiveIndex(c1)
    ensures var k := |s.index|;
      var answer, update := EntryAssign(name, k, 0, value, 0), EntryUpdate(k, 1, value);
      var (s1, told) := Receive(s, SERVER, PROTO_3, EntryAssign(name, UNASSIGNED, q, value, 0));
      && Addressed(told, true) == [answer] && Addressed(told, false) == [answer] && LiveIndex(s1)
      && var (c2, more) := Receive(c1, CLIENT, PROTO_3, answer);
         && Addressed(more, true) == (if q == 1 then [update] else [])
         && var (s2, passed) := if q == 1 then Receive(s1, SERVER, PROTO_3, update) else (s1, []);
            var l2 := ReceiveAll(l, CLIENT, if q == 1 then [answer, update] else [answer]).0;
            && Addressed(passed, true) == [] && Addressed(passed, false) == (if q == 1 then [update] else [])
            && Ready(s2) && Ready(c2) && Ready(l2) && SameShown(c2, s2) && SameShown(l2, s2)
            && CellAt(s2, k) == CellAt(c2, k) && FaceOf(CellAt(s2, k)) == Some(Face(name, value, 0))
  {
    hide Receive, Linked, AllAssigned, Take, CellAt;
    var k := |s.index|;
    NotElsewhere(c, s, name, k);
    NotElsewhere(l, s, name, k);
    var answer, update := EntryAssign(name, k, 0, value, 0), EntryUpdate(k, 1, value);
    var ask := EntryAssign(name, UNASSIGNED, q, value, 0);
    ServerEnters(s, ask);
    var s1 := Receive(s, SERVER, PROTO_3, ask).0;
    ClientGetsId(c, c1, name, value, q, k);
    ClientTakes(l, answer);
    NewCell(name, value, k);
    OneReceived(l, CLIENT, answer);
    if q == 1 {
      Updated(s1, update, name, value, k);
      ClientTakes(Receive(l, CLIENT, PROTO_3, answer).0, update);
      BothReceived(l, answer, update);
    }
  }

  lemma Updated(s1: Table, update: Message, name: Bytes, value: Value, k: nat)
    requires Ready(s1) && update == EntryUpdate(k, 1, value) && CellAt(s1, k) == Some(Cell(Face(name, value, 0), 0))
    ensures var (s2, passed) := Receive(s1, SERVER, PROTO_3, update);
      && Ready(s2) && Addressed(passed, true) == [] && Addressed(passed, false) == [update]
      && CellAt(s2, k) == Some(Cell(Face(name, value, 0), 1)) && forall i: nat :: i != k ==> CellAt(s2, i) == CellAt(s1, i)
  {
    hide Receive, CellAt;
    ServerTakes(s1, update);
    NewCell(name, value, k);
  }

  /** A name the writer lacks is new to whoever shows the same, and so is the next id. */
  lemma NotElsewhere(c: Table, s: Table, name: Bytes, k: nat)
    requires Ready(s) && Ready(c) && SameShown(c, s) && k == |s.index|
    ensures CellAt(c, k).None? && (name in c.rows <==> name in s.rows)
  {
    assert FaceOf(CellAt(c, k)) == FaceOf(CellAt(s, k));
    if name in c.rows {
      IdInIndex(c, name);
      assert FaceOf(CellAt(c, c.rows[name].id)) == FaceOf(CellAt(s, c.rows[name].id));
    }
    if name in s.rows {
      IdInIndex(s, name);
      assert FaceOf(CellAt(c, s.rows[name].id)) == FaceOf(CellAt(s, s.rows[name].id));
    }
  }

  lemma BothReceived(t: Table, a: Message, b: Message)
    requires LiveIndex(t) && LiveIndex(Receive(t, CLIENT, PROTO_3, a).0)
    ensures ReceiveAll(t, CLIENT, [a, b]).0 == Receive(Receive(t, CLIENT, PROTO_3, a).0, CLIENT, PROTO_3, b).0
  {
    hide Receive;
    assert [a, b][..1] == [a];
    OneReceived(t, CLIENT, a);
  }

  lemma NewCell(name: Bytes, value: Value, k: nat)
    ensures Take(None, k, EntryAssign(name, k, 0, value, 0)) == Some(Cell(Face(name, value, 0), 0))
    ensures Take(Some(Cell(Face(name, value, 0), 0)), k, EntryUpdate(k, 1, value)) == Some(Cell(Face(name, value, 0), 1))
    ensures forall i: nat, c :: i != k ==>
      Take(c, i, EntryAssign(name, k, 0, value, 0)) == c && Take(c, i, EntryUpdate(k, 1, value)) == c
  {
  }
}
