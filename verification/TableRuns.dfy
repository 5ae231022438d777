/** What every operation of a `Storage`, and hence every run of operations, keeps true. */
module TableRuns {
  import opened Basics
  import opened Messages
  import opened Tables
  import Serials

  datatype Op =
    | OpSetDefault(name: Bytes, value: Option<Value>)
    | OpSetValue(name: Bytes, value: Option<Value>)
    | OpSetTypeValue(name: Bytes, value: Option<Value>)
    | OpSetFlags(name: Bytes, flags: nat)
    | OpDelete(name: Bytes)
    | OpDeleteAll
    | OpCreateRpc(name: Bytes, def: Bytes)
    | OpLoad(name: Bytes, loaded: Value)
    | OpSnapshot(periodic: bool)
    | OpReceive(rev: nat, msg: Message)

  function Step(t: Table, role: Role, op: Op): (Table, seq<Out>)
    requires LiveIndex(t)
  {
    match op
    case OpSetDefault(name, value) => var (t', out, _) := SetDefault(t, role, name, value); (t', out)
    case OpSetValue(name, value) => var (t', out, _) := SetValue(t, role, name, value); (t', out)
    case OpSetTypeValue(name, value) => SetTypeValue(t, role, name, value)
    case OpSetFlags(name, flags) => SetFlags(t, role, name, flags)
    case OpDelete(name) => Delete(t, role, name)
    case OpDeleteAll => DeleteAll(t, role)
    case OpCreateRpc(name, def) => CreateRpc(t, role, name, def)
    case OpLoad(name, loaded) => LoadOne(t, role, name, loaded)
    case OpSnapshot(periodic) => (TakeSnapshot(t, periodic).0, [])
    case OpReceive(rev, msg) => Receive(t, role, rev, msg)
  }

  // ---------------------------------------------------------------------------------------------
  // Index agreement
  // ---------------------------------------------------------------------------------------------

  /** A client can take `op` without two ids leading to one entry: an assignment under a new id names an entry
      that has no id yet. */
  predicate Fits(t: Table, role: Role, op: Op) {
    !role.server && op.OpReceive? && op.msg.EntryAssign? && op.msg.id != UNASSIGNED && Lookup(t.index, op.msg.id).None?
      && op.msg.name in t.rows
    ==> t.rows[op.msg.name].id == UNASSIGNED
  }

  lemma ClearLinked(t: Table)
    requires Linked(t)
    ensures Linked(ClearRows(t))
    ensures forall i: nat :: Lookup(ClearRows(t).index, i) ==
              if Lookup(t.index, i).Some? && Persistent(t.rows[Lookup(t.index, i).value].flags) then Lookup(t.index, i) else None
  {
    var t' := ClearRows(t);
    forall i: nat
      ensures Lookup(t'.index, i) ==
        if Lookup(t.index, i).Some? && Persistent(t.rows[Lookup(t.index, i).value].flags) then Lookup(t.index, i) else None
    {
      if i < |t.index| && t.index[i].Some? {
        assert Lookup(t.index, i) == t.index[i];
        var n := t.index[i].value;
        assert t.rows[n].id == i;
      }
    }
  }

  lemma IdInIndex(t: Table, name: Bytes)
    requires Linked(t) && name in t.rows && t.rows[name].id != UNASSIGNED
    ensures t.rows[name].id < |t.index| && t.index[t.rows[name].id] == Some(name)
  {
    assert Lookup(t.index, t.rows[name].id) == Some(name);
  }

  /** Index agreement survives every operation, on server and client, as long as ids stay 16-bit. */
  lemma StepKeepsLinked(t: Table, role: Role, op: Op)
    requires Linked(t) && Fits(t, role, op)
    requires |Step(t, role, op).0.index| <= UNASSIGNED
    ensures Linked(Step(t, role, op).0)
  {
    match op {
      case OpDelete(name) => RemoveKeepsLinked(t, name);
      case OpDeleteAll => ClearLinked(t);
      case OpReceive(rev, msg) => ReceiveKeepsLinked(t, role, rev, msg);
      case _ => WriteKeepsLinked(t, role, op);
    }
  }

  lemma RemoveKeepsLinked(t: Table, name: Bytes)
    requires Linked(t)
    ensures name in t.rows ==> Linked(Remove(t, name))
  {
    if name in t.rows {
      if t.rows[name].id != UNASSIGNED {
        IdInIndex(t, name);
      }
      assert forall i: nat :: Lookup(Remove(t, name).index, i) == if i == t.rows[name].id then None else Lookup(t.index, i);
    }
  }

  lemma WriteKeepsLinked(t: Table, role: Role, op: Op)
    requires Linked(t) && !op.OpDelete? && !op.OpDeleteAll? && !op.OpReceive?
    requires |Step(t, role, op).0.index| <= UNASSIGNED
    ensures Linked(Step(t, role, op).0)
  {
    var t' := Step(t, role, op).0;
    if !op.OpSnapshot? && (t'.rows, t'.index) != (t.rows, t.index) {
      WritesOneRow(t, role, op);
      var id := if op.name in t.rows then t.rows[op.name].id else UNASSIGNED;
      if op.OpSetFlags? {
        assert t'.index == t.index;
      } else {
        assert t'.index == IndexFor(t, role, op.name, id);
      }
    }
  }

  /** A local write touches one row, and gives it an id if it had none. */
  lemma WritesOneRow(t: Table, role: Role, op: Op)
    requires LiveIndex(t) && !op.OpDelete? && !op.OpDeleteAll? && !op.OpReceive? && !op.OpSnapshot?
    ensures var t' := Step(t, role, op).0;
      var id := if op.name in t.rows then t.rows[op.name].id else UNASSIGNED;
      t' != t ==>
        && op.name in t'.rows && t'.rows == t.rows[op.name := t'.rows[op.name]]
        && ((t'.rows[op.name].id == IdFor(t, role, id) && t'.index == IndexFor(t, role, op.name, id))
            || (t'.rows[op.name].id == id && t'.index == t.index && op.OpSetFlags?))
  {
  }

  lemma ReceiveKeepsLinked(t: Table, role: Role, rev: nat, m: Message)
    requires Linked(t) && Fits(t, role, OpReceive(rev, m))
    requires |Receive(t, role, rev, m).0.index| <= UNASSIGNED
    ensures Linked(Receive(t, role, rev, m).0)
  {
    match m {
      case EntryAssign(_, _, _, _, _) => AssignKeepsLinked(t, role, rev, m);
      case EntryDelete(_) => DeleteKeepsLinked(t, role, m);
      case ClearEntries => ClearLinked(t);
      case _ =>
    }
  }

  lemma DeleteKeepsLinked(t: Table, role: Role, m: Message)
    requires m.EntryDelete? && Linked(t)
    ensures Linked(ReceiveDelete(t, role, m).0)
  {
    var t' := ReceiveDelete(t, role, m).0;
    assert forall i: nat :: Lookup(t'.index, i) == if i == m.id then None else Lookup(t.index, i);
  }

  lemma AssignKeepsLinked(t: Table, role: Role, rev: nat, m: Message)
    requires m.EntryAssign? && Linked(t) && Fits(t, role, OpReceive(rev, m))
    requires |ReceiveAssign(t, role, rev, m).0.index| <= UNASSIGNED
    ensures Linked(ReceiveAssign(t, role, rev, m).0)
  {
    var t' := ReceiveAssign(t, role, rev, m).0;
    if m.id == UNASSIGNED || role.server {
    } else {
      var index := Grow(t.index, m.id + 1);
      assert forall i: nat :: Lookup(index, i) == Lookup(t.index, i);
      assert forall i: nat :: Lookup(t'.index, i) ==
               if i == m.id && Lookup(t.index, i).None? then Some(m.name) else Lookup(t.index, i);
    }
  }

  /** An event of a server's life; whether anybody listens may change from one to the next. */
  datatype Event = Event(outgoing: bool, op: Op)

  /** The table of a server after the events `es`. */
  ghost function Run(t: Table, es: seq<Event>): Table
    requires Linked(t)
    decreases |es|
  {
    if es == [] then t
    else
      var t' := Step(t, Role(true, es[0].outgoing), es[0].op).0;
      if Linked(t') then Run(t', es[1..]) else t'
  }

  /** A server never reuses a slot: the index gains at most one slot a step, old slots keep their name or go null. */
  lemma StepKeepsSlots(t: Table, outgoing: bool, op: Op)
    requires Linked(t)
    ensures var t' := Step(t, Role(true, outgoing), op).0;
      && |t.index| <= |t'.index| <= |t.index| + 1
      && forall i: nat :: i < |t.index| && Lookup(t'.index, i).Some? ==> Lookup(t'.index, i) == Lookup(t.index, i)
  {
  }

  lemma {:induction false} RunGrows(t: Table, es: seq<Event>)
    requires Linked(t)
    ensures |t.index| <= |Run(t, es).index|
    ensures forall i: nat :: i < |t.index| && Lookup(Run(t, es).index, i).Some? ==>
      Lookup(Run(t, es).index, i) == Lookup(t.index, i)
    decreases |es|
  {
    if es != [] {
      StepKeepsSlots(t, es[0].outgoing, es[0].op);
      var t' := Step(t, Role(true, es[0].outgoing), es[0].op).0;
      if Linked(t') {
        RunGrows(t', es[1..]);
      }
    }
  }

  lemma {:induction false} RunSplits(t: Table, es: seq<Event>, fs: seq<Event>)
    requires Linked(t) && |Run(t, es + fs).index| <= UNASSIGNED
    ensures Linked(Run(t, es)) && Run(t, es + fs) == Run(Run(t, es), fs)
    decreases |es|
  {
    if es == [] {
      assert es + fs == fs;
    } else {
      var role := Role(true, es[0].outgoing);
      var t' := Step(t, role, es[0].op).0;
      assert (es + fs)[1..] == es[1..] + fs;
      if Linked(t') {
        RunGrows(t', es[1..] + fs);
      }
      StepKeepsLinked(t, role, es[0].op);
      RunSplits(t', es[1..], fs);
    }
  }

  /** Over every run of a server that hands out at most 0xffff ids, index and entries stay in agreement after
      every prefix; an id held by a name is never later held by another, and a retired id stays retired. */
  lemma ServerRun(t: Table, es: seq<Event>, fs: seq<Event>)
    requires Linked(t) && |Run(t, es + fs).index| <= UNASSIGNED
    ensures Linked(Run(t, es))
    ensures forall i: nat :: Lookup(Run(t, es).index, i).Some? && Lookup(Run(t, es + fs).index, i).Some? ==>
      Lookup(Run(t, es + fs).index, i) == Lookup(Run(t, es).index, i)
    ensures forall i: nat :: i < |Run(t, es).index| && Lookup(Run(t, es).index, i).None? ==>
      Lookup(Run(t, es + fs).index, i).None?
  {
    RunSplits(t, es, fs);
    RunGrows(Run(t, es), fs);
  }

  // ---------------------------------------------------------------------------------------------
  // The persistent-dirty flag
  // ---------------------------------------------------------------------------------------------

  /** The steps that change what a save would write without setting m_persistent_dirty: loading a file, redefining
      a persistent entry as an RPC, and a client's first sight of a persistent entry. */
  predicate Unnoticed(t: Table, role: Role, op: Op) {
    match op
    case OpLoad(name, value) => !(name in t.rows && Persistent(t.rows[name].flags) && t.rows[name].value == value)
    case OpCreateRpc(name, def) =>
      role.server && name != [] && def != [] && name in t.rows && Persistent(t.rows[name].flags) && t.rows[name].value != Rpc(def)
    case OpReceive(_, EntryAssign(name, id, _, _, flags)) =>
      !role.server && id != UNASSIGNED && Lookup(t.index, id).None? && name !in t.rows && Persistent(flags)
    case _ => false
  }

  /** With a clean flag, one step leaves the set of persistent (name, value) pairs alone or sets the flag, unless
      the step is one of the unnoticed ones; those do neither. */
  lemma StepDirty(t: Table, role: Role, op: Op)
    requires Linked(t) && !t.dirty
    ensures var t' := Step(t, role, op).0;
      (t'.dirty || PersistentRows(t') == PersistentRows(t)) <==> !Unnoticed(t, role, op)
  {
    var t' := Step(t, role, op).0;
    var p, p' := PersistentRows(t), PersistentRows(t');
    if Unnoticed(t, role, op) {
      UnnoticedChanges(t, role, op);
    } else if !t'.dirty {
      match op {
        case OpReceive(rev, msg) => ReceiveDirty(t, role, rev, msg);
        case _ => LocalDirty(t, role, op);
      }
    }
  }

  /** The flag is set for nothing else: with a clean flag, a step sets it if and only if it changes the persistent pairs and
      is not one of the unnoticed ones, or takes an update of a persistent entry, which may repeat its value. */
  lemma StepDirtyOnly(t: Table, role: Role, op: Op)
    requires Linked(t) && !t.dirty
    ensures Step(t, role, op).0.dirty <==>
      || (PersistentRows(Step(t, role, op).0) != PersistentRows(t) && !Unnoticed(t, role, op))
      || (op.OpReceive? && op.msg.EntryUpdate? && Lookup(t.index, op.msg.id).Some?
          && var row := t.rows[Lookup(t.index, op.msg.id).value];
             Persistent(row.flags) && !Serials.LessEq(op.msg.seqNum, row.seqNum))
  {
    StepDirty(t, role, op);
    if Step(t, role, op).0.dirty && !(op.OpReceive? && op.msg.EntryUpdate?) {
      DirtyForAReason(t, role, op);
    }
  }

  lemma DirtyForAReason(t: Table, role: Role, op: Op)
    requires Linked(t) && !t.dirty && Step(t, role, op).0.dirty && !(op.OpReceive? && op.msg.EntryUpdate?)
    ensures PersistentRows(Step(t, role, op).0) != PersistentRows(t)
  {
    var t' := Step(t, role, op).0;
    var n :=
      if !op.OpReceive? then op.name
      else if op.msg.EntryAssign? then op.msg.name
      else Lookup(t.index, op.msg.id).value;
    var p, p' := PersistentRows(t), PersistentRows(t');
    assert (n in p && n !in p') || (n !in p && n in p') || (n in p && n in p' && p[n] != p'[n]);
  }

  lemma LocalDirty(t: Table, role: Role, op: Op)
    requires Linked(t) && !op.OpReceive? && !Unnoticed(t, role, op) && !Step(t, role, op).0.dirty && !t.dirty
    ensures PersistentRows(Step(t, role, op).0) == PersistentRows(t)
  {
    var t' := Step(t, role, op).0;
    if op.OpDelete? || op.OpDeleteAll? || op.OpSnapshot? {
      assert PersistentRows(t') == PersistentRows(t);
    } else if t' != t {
      WritesOneRow(t, role, op);
      OneRowDirty(t, t', op.name);
    }
  }

  /** Writing a row that is persistent neither before nor after, or both times with one value, is not noticed. */
  lemma OneRowDirty(t: Table, t': Table, name: Bytes)
    requires name in t'.rows && t'.rows == t.rows[name := t'.rows[name]]
    requires var was, row := if name in t.rows then Some(t.rows[name]) else None, t'.rows[name];
      var persisted := was.Some? && Persistent(was.value.flags);
      && Persistent(row.flags) == persisted
      && (persisted ==> row.value == was.value.value)
    ensures PersistentRows(t') == PersistentRows(t)
  {
  }

  lemma ReceiveDirty(t: Table, role: Role, rev: nat, m: Message)
    requires Linked(t) && !Unnoticed(t, role, OpReceive(rev, m)) && !Receive(t, role, rev, m).0.dirty
    ensures PersistentRows(Receive(t, role, rev, m).0) == PersistentRows(t)
  {
    match m {
      case EntryAssign(_, _, _, _, _) => AssignDirty(t, role, rev, m);
      case _ => assert PersistentRows(Receive(t, role, rev, m).0) == PersistentRows(t);
    }
  }

  lemma UnnoticedChanges(t: Table, role: Role, op: Op)
    requires Linked(t) && !t.dirty && Unnoticed(t, role, op)
    ensures !Step(t, role, op).0.dirty && PersistentRows(Step(t, role, op).0) != PersistentRows(t)
  {
    var n := if op.OpReceive? then op.msg.name else op.name;
    var p, p' := PersistentRows(t), PersistentRows(Step(t, role, op).0);
    assert n in p' && (n !in p || p'[n] != p[n]);
  }

  lemma AssignDirty(t: Table, role: Role, rev: nat, m: Message)
    requires m.EntryAssign? && Linked(t) && !Unnoticed(t, role, OpReceive(rev, m))
    requires !ReceiveAssign(t, role, rev, m).0.dirty
    ensures PersistentRows(ReceiveAssign(t, role, rev, m).0) == PersistentRows(t)
  {
    assert forall n :: n in PersistentRows(t) <==> n in t.rows && Persistent(t.rows[n].flags);
  }

  /** The last snapshot taken during a server's run, starting from `last`. */
  ghost function LastSaved(t: Table, last: map<Bytes, Value>, es: seq<Event>): map<Bytes, Value>
    requires Linked(t)
    decreases |es|
  {
    if es == [] then last
    else
      var t' := Step(t, Role(true, es[0].outgoing), es[0].op).0;
      var last' := if es[0].op.OpSnapshot? && TakeSnapshot(t, es[0].op.periodic).1.Some?
                   then TakeSnapshot(t, es[0].op.periodic).1.value else last;
      if Linked(t') then LastSaved(t', last', es[1..]) else last'
  }

  ghost predicate NoneUnnoticed(es: seq<Event>) {
    forall e :: e in es ==> !e.op.OpLoad? && !e.op.OpCreateRpc?
  }

  /** Skipping a periodic save loses nothing: over every server run of local writes, incoming messages and saves,
      a clear flag means the persistent pairs are those of the last snapshot. */
  lemma {:induction false} DirtyFlagSound(t: Table, last: map<Bytes, Value>, es: seq<Event>)
    requires Linked(t) && NoneUnnoticed(es)
    requires |Run(t, es).index| <= UNASSIGNED
    requires !t.dirty ==> PersistentRows(t) == last
    ensures !Run(t, es).dirty ==> PersistentRows(Run(t, es)) == LastSaved(t, last, es)
    decreases |es|
  {
    if es != [] {
      var role := Role(true, es[0].outgoing);
      var op := es[0].op;
      var t' := Step(t, role, op).0;
      if Linked(t') {
        RunGrows(t', es[1..]);
      }
      StepKeepsLinked(t, role, op);
      if !t.dirty {
        StepDirty(t, role, op);
      } else if !op.OpSnapshot? {
        DirtyStays(t, role, op);
      }
      assert op.OpSnapshot? ==> PersistentRows(t') == PersistentRows(t);
      var last' := if op.OpSnapshot? && TakeSnapshot(t, op.periodic).1.Some?
                   then TakeSnapshot(t, op.periodic).1.value else last;
      DirtyFlagSound(t', last', es[1..]);
    }
  }

  /** Only a snapshot clears the flag. */
  lemma DirtyStays(t: Table, role: Role, op: Op)
    requires Linked(t) && t.dirty && !op.OpSnapshot?
    ensures Step(t, role, op).0.dirty
  {
  }
}
