/** What the public operations on a table promise their callers (ntcore_cpp.h), of the transitions in `Tables`. */
module Effects {
  import opened Basics
  import opened Messages
  import opened Serials
  import opened Tables
  import opened TableRuns

  /** Only the row called `name` may differ. */
  ghost predicate OthersKept(t: Table, t': Table, name: Bytes) {
    forall n :: n != name ==> (n in t'.rows <==> n in t.rows) && (n in t.rows ==> t'.rows[n] == t.rows[n])
  }

  /** A row that keeps its id, or gets the next one from a server. */
  predicate IdKept(t: Table, role: Role, before: nat, after: nat) {
    if before != UNASSIGNED || !role.server then after == before else after == |t.index|
  }

  predicate Differs(t: Table, name: Bytes, value: Value) {
    name in t.rows && t.rows[name].value.Type() != value.Type()
  }

  /** What somebody who listens hears. */
  function Said(role: Role, msg: Message): seq<Out> {
    if role.outgoing then [Out(msg, false)] else []
  }

  /** A value of another type is refused and nothing happens; any other is what the entry holds afterwards, its flags
      are kept, and no other entry changes. The serial moves one ahead exactly for a change that somebody hears of: a new
      entry is assigned, a new value is an update, unless a client has no id for the entry yet. */
  lemma SetValueEffect(t: Table, role: Role, name: Bytes, value: Value)
    requires name != []
    ensures var (t', out, ok) := SetValue(t, role, name, Some(value));
      && (ok <==> !Differs(t, name, value))
      && (!ok ==> t' == t && out == [])
      && (ok ==> name in t'.rows && t'.rows[name].value == value && OthersKept(t, t', name))
      && (ok && name !in t.rows ==>
            && t'.rows[name].flags == 0 && IdKept(t, role, UNASSIGNED, t'.rows[name].id) && t'.rows[name].seqNum == 0)
      && (ok && name in t.rows ==>
            && t'.rows[name].flags == t.rows[name].flags && IdKept(t, role, t.rows[name].id, t'.rows[name].id)
            && t'.rows[name].seqNum == if role.outgoing && t.rows[name].value != value
                                       then Next(t.rows[name].seqNum) else t.rows[name].seqNum)
      && (ok && name !in t.rows ==> out == Said(role, EntryAssign(name, t'.rows[name].id, 0, value, 0)))
      && (ok && name in t.rows ==>
            out == if t.rows[name].value == value || t'.rows[name].id == UNASSIGNED then []
                   else Said(role, EntryUpdate(t'.rows[name].id, t'.rows[name].seqNum, value)))
  {
  }

  /** Without a name or without a value nothing happens; only the default is then refused. */
  lemma NothingToDo(t: Table, role: Role, name: Bytes, value: Option<Value>)
    requires name == [] || value == None
    ensures SetValue(t, role, name, value) == (t, [], true) && SetDefault(t, role, name, value) == (t, [], false)
    ensures SetTypeValue(t, role, name, value) == (t, [])
    ensures name == [] ==> forall flags: nat :: SetFlags(t, role, name, flags) == (t, [])
  {
  }

  /** Only five messages are about the table. */
  lemma OtherMessages(t: Table, role: Role, rev: nat, m: Message)
    requires LiveIndex(t)
    requires m.KeepAlive? || m.ClientHello? || m.ProtoUnsup? || m.ServerHelloDone? || m.ServerHello? || m.ClientHelloDone?
      || m.ExecuteRpc? || m.RpcResponse?
    ensures Receive(t, role, rev, m) == (t, [])
  {
  }

  /** Setting the same value again is silent. */
  lemma SetTwice(t: Table, role: Role, name: Bytes, value: Value)
    requires name != [] && SetValue(t, role, name, Some(value)).2
    requires |t.index| < UNASSIGNED
    ensures var t' := SetValue(t, role, name, Some(value)).0;
      SetValue(t', role, name, Some(value)) == (t', [], true)
  {
    var t' := SetValue(t, role, name, Some(value)).0;
    assert t'.rows == t'.rows[name := t'.rows[name]];
  }

  /** With the type given along, every value is taken; another type is announced as a new assignment. */
  lemma SetTypeValueEffect(t: Table, role: Role, name: Bytes, value: Value)
    requires name != []
    ensures var (t', out) := SetTypeValue(t, role, name, Some(value));
      && name in t'.rows && t'.rows[name].value == value && OthersKept(t, t', name)
      && t'.rows[name].flags == (if name in t.rows then t.rows[name].flags else 0)
      && (name in t.rows && t.rows[name].value == value ==> t' == t && out == [])
      && (name !in t.rows || t.rows[name].value != value ==>
            var before := if name in t.rows then t.rows[name] else Row(value, 0, UNASSIGNED, 0);
            && IdKept(t, role, before.id, t'.rows[name].id)
            && t'.rows[name].seqNum == (if role.outgoing then Next(before.seqNum) else before.seqNum)
            && out == if name !in t.rows || Differs(t, name, value)
                      then Said(role, EntryAssign(name, t'.rows[name].id, t'.rows[name].seqNum, value, before.flags))
                      else if t'.rows[name].id == UNASSIGNED then []
                      else Said(role, EntryUpdate(t'.rows[name].id, t'.rows[name].seqNum, value)))
  {
  }

  /** A default is set only where there is nothing; it fails exactly when there is a value of another type. */
  lemma SetDefaultEffect(t: Table, role: Role, name: Bytes, value: Value)
    requires name != []
    ensures var (t', out, ok) := SetDefault(t, role, name, Some(value));
      && (ok <==> !Differs(t, name, value))
      && (name in t.rows ==> t' == t && out == [])
      && (name !in t.rows ==>
            && name in t'.rows && OthersKept(t, t', name) && IdKept(t, role, UNASSIGNED, t'.rows[name].id)
            && t'.rows[name] == Row(value, 0, t'.rows[name].id, 0)
            && out == Said(role, EntryAssign(name, t'.rows[name].id, 0, value, 0)))
  {
  }

  /** New flags change nothing else about the entry, and an entry that is not there gets none. */
  lemma SetFlagsEffect(t: Table, role: Role, name: Bytes, flags: nat)
    requires name != []
    ensures var (t', out) := SetFlags(t, role, name, flags);
      && (name in t.rows ==> name in t'.rows && t'.rows[name] == t.rows[name].(flags := flags) && OthersKept(t, t', name))
      && (name !in t.rows ==> t' == t && out == [])
      && t'.index == t.index
      && (name in t.rows ==>
            out == if t.rows[name].flags == flags || t.rows[name].id == UNASSIGNED then []
                   else Said(role, FlagsUpdate(t.rows[name].id, flags)))
  {
  }

  /** A deleted entry is gone, and its id leads nowhere; all else stays. */
  lemma DeleteEffect(t: Table, role: Role, name: Bytes)
    requires Linked(t)
    ensures var (t', out) := Delete(t, role, name);
      && name !in t'.rows && OthersKept(t, t', name)
      && out == (if name in t.rows && t.rows[name].id != UNASSIGNED then Said(role, EntryDelete(t.rows[name].id)) else [])
      && (forall i: nat :: Lookup(t'.index, i) == if Lookup(t.index, i) == Some(name) then None else Lookup(t.index, i))
  {
    if name in t.rows {
      var id := t.rows[name].id;
      assert id != UNASSIGNED ==> Lookup(t.index, id) == Some(name);
    }
  }

  /** Deleting all entries deletes those that are not persistent, and those only, whatever its documentation says. */
  lemma DeleteAllEffect(t: Table, role: Role)
    requires Linked(t)
    ensures var (t', out) := DeleteAll(t, role);
      && out == (if t.rows == map[] then [] else Said(role, ClearEntries))
      && (forall n :: n in t'.rows <==> n in t.rows && t.rows[n].flags % 2 == 1)
      && (forall n :: n in t'.rows ==> t'.rows[n] == t.rows[n])
      && (forall i: nat :: Lookup(t'.index, i) ==
            if Lookup(t.index, i).Some? && Lookup(t.index, i).value in t'.rows then Lookup(t.index, i) else None)
  {
    var t' := ClearRows(t);
    forall i: nat
      ensures Lookup(t'.index, i) ==
            if Lookup(t.index, i).Some? && Lookup(t.index, i).value in t'.rows then Lookup(t.index, i) else None
    {
      if i < |t.index| && t.index[i].Some? {
        var n := t.index[i].value;
        assert Lookup(t.index, i) == Some(n);
        assert forall o :: o in t.rows && t.rows[o].id == i && i != UNASSIGNED ==> o == n;
      }
    }
  }

  /** A snapshot holds exactly the persistent values and clears the flag; a periodic one is skipped exactly when the flag
      is clear. */
  lemma SnapshotEffect(t: Table, periodic: bool)
    ensures var (t', copied) := TakeSnapshot(t, periodic);
      && t'.rows == t.rows && t'.index == t.index && !(copied.Some? && t'.dirty)
      && (copied.None? <==> periodic && !t.dirty)
      && (copied.Some? ==> forall n :: n in copied.value <==> n in t.rows && t.rows[n].flags % 2 == 1)
      && (copied.Some? ==> forall n :: n in copied.value ==> copied.value[n] == t.rows[n].value)
  {
  }

  /** An RPC definition, which only a server makes, is the value of its entry. */
  lemma CreateRpcEffect(t: Table, role: Role, name: Bytes, def: Bytes)
    requires |t.index| != UNASSIGNED
    ensures var (t', out) := CreateRpc(t, role, name, def);
      && (!role.server || name == [] || def == [] ==> t' == t && out == [])
      && (role.server && name != [] && def != [] ==>
            var before := if name in t.rows then t.rows[name] else Row(Rpc(def), 0, UNASSIGNED, 0);
            var again := name in t.rows && before.value == Rpc(def);
            && name in t'.rows && OthersKept(t, t', name) && t'.dirty == t.dirty
            && t'.rows[name].value == Rpc(def) && t'.rows[name].flags == before.flags
            && (again ==> t' == t && out == [])
            && (!again ==>
                  && IdKept(t, role, before.id, t'.rows[name].id)
                  && t'.rows[name].seqNum == (if role.outgoing then Next(before.seqNum) else before.seqNum)
                  && out == Said(role, if name !in t.rows || !before.value.Rpc?
                              then EntryAssign(name, t'.rows[name].id, t'.rows[name].seqNum, Rpc(def), before.flags)
                              else EntryUpdate(t'.rows[name].id, t'.rows[name].seqNum, Rpc(def)))))
  {
  }

  /** A loaded entry holds the loaded value and is persistent; its other flags stay, and so does every other entry. */
  lemma LoadEffect(t: Table, role: Role, name: Bytes, value: Value)
    ensures var (t', out) := LoadOne(t, role, name, value);
      var before := if name in t.rows then t.rows[name] else Row(value, 0, UNASSIGNED, 0);
      && name in t'.rows && OthersKept(t, t', name) && t'.dirty == t.dirty
      && t'.rows[name].value == value && t'.rows[name].flags % 2 == 1 && t'.rows[name].flags / 2 == before.flags / 2
      && IdKept(t, role, before.id, t'.rows[name].id)
      && t'.rows[name].seqNum == (if role.outgoing then Next(before.seqNum) else before.seqNum)
      && (name !in t.rows || Differs(t, name, value) ==>
            out == Said(role, EntryAssign(name, t'.rows[name].id, t'.rows[name].seqNum, value, t'.rows[name].flags)))
      && (name in t.rows && !Differs(t, name, value) ==>
            out == if t'.rows[name].id == UNASSIGNED then []
                   else (if before.value == value then []
                         else Said(role, EntryUpdate(t'.rows[name].id, t'.rows[name].seqNum, value)))
                        + (if before.flags % 2 == 1 then []
                           else Said(role, FlagsUpdate(t'.rows[name].id, t'.rows[name].flags))))
  {
  }

  // ---------------------------------------------------------------------------------------------
  // Older revisions, and nobody listening
  // ---------------------------------------------------------------------------------------------

  function WithFlags(m: Message, flags: nat): Message
    requires m.EntryAssign?
  {
    EntryAssign(m.name, m.id, m.seqNum, m.value, flags)
  }

  /** From a peer of revision 2.0 an assignment of a known entry counts as one with the flags the entry has. */
  lemma OldRevision(t: Table, role: Role, rev: nat, m: Message)
    requires Linked(t) && rev < PROTO_3
    ensures Receive(t, role, rev, m) == Receive(t, role, PROTO_3,
              if m.EntryAssign? && Lookup(t.index, m.id).Some?
              then WithFlags(m, t.rows[Lookup(t.index, m.id).value].flags) else m)
  {
  }

  lemma OldBatch(t: Table, newServer: bool, rev: nat, m: Message)
    requires rev < PROTO_3
    ensures ApplyOne(t, newServer, rev, m) == ApplyOne(t, newServer, PROTO_3,
              if m.EntryAssign? && m.name in t.rows then WithFlags(m, t.rows[m.name].flags) else m)
  {
  }

  /** Two tables alike but for serials. */
  ghost predicate AlikeButSerials(a: Table, b: Table) {
    && a.index == b.index && a.dirty == b.dirty && a.rows.Keys == b.rows.Keys
    && forall n :: n in a.rows ==>
         a.rows[n].value == b.rows[n].value && a.rows[n].flags == b.rows[n].flags && a.rows[n].id == b.rows[n].id
  }

  /** As long as nobody listens, a storage does all it does otherwise, but says nothing and moves no serial. */
  lemma NobodyListens(t: Table, server: bool, op: Op)
    requires LiveIndex(t) && !op.OpReceive?
    ensures var (a, b) := (Step(t, Role(server, false), op), Step(t, Role(server, true), op));
      && AlikeButSerials(a.0, b.0) && a.1 == []
      && forall n :: n in a.0.rows ==> a.0.rows[n].seqNum == if n in t.rows then t.rows[n].seqNum else 0
  {
    hide Next, SetDefault, SetValue, SetTypeValue, SetFlags, Delete, DeleteAll, CreateRpc, LoadOne;
    match op {
      case OpSetDefault(_, _) => SetsAlike(t, server, op);
      case OpSetValue(_, _) => SetsAlike(t, server, op);
      case OpSetTypeValue(_, _) => TypeSetsAlike(t, server, op);
      case OpCreateRpc(_, _) => TypeSetsAlike(t, server, op);
      case OpLoad(name, value) => LoadsAlike(t, server, name, value);
      case OpReceive(_, _) =>
      case _ => OthersAlike(t, server, op);
    }
  }

  lemma SetsAlike(t: Table, server: bool, op: Op)
    requires LiveIndex(t) && (op.OpSetDefault? || op.OpSetValue?)
    ensures var (a, b) := (Step(t, Role(server, false), op), Step(t, Role(server, true), op));
      && AlikeButSerials(a.0, b.0) && a.1 == []
      && forall n :: n in a.0.rows ==> a.0.rows[n].seqNum == if n in t.rows then t.rows[n].seqNum else 0
  {
    hide Next;
  }

  lemma TypeSetsAlike(t: Table, server: bool, op: Op)
    requires LiveIndex(t) && (op.OpSetTypeValue? || op.OpCreateRpc?)
    ensures var (a, b) := (Step(t, Role(server, false), op), Step(t, Role(server, true), op));
      && AlikeButSerials(a.0, b.0) && a.1 == []
      && forall n :: n in a.0.rows ==> a.0.rows[n].seqNum == if n in t.rows then t.rows[n].seqNum else 0
  {
    hide Next, SetTypeValue, CreateRpc;
    if op.OpSetTypeValue? {
      TypedAlike(t, server, op.name, op.value);
    } else {
      RpcsAlike(t, server, op.name, op.def);
    }
  }

  lemma TypedAlike(t: Table, server: bool, name: Bytes, value: Option<Value>)
    ensures var (a, b) := (SetTypeValue(t, Role(server, false), name, value), SetTypeValue(t, Role(server, true), name, value));
      && AlikeButSerials(a.0, b.0) && a.1 == []
      && forall n :: n in a.0.rows ==> a.0.rows[n].seqNum == if n in t.rows then t.rows[n].seqNum else 0
  {
    hide Next;
  }

  lemma RpcsAlike(t: Table, server: bool, name: Bytes, def: Bytes)
    ensures var (a, b) := (CreateRpc(t, Role(server, false), name, def), CreateRpc(t, Role(server, true), name, def));
      && AlikeButSerials(a.0, b.0) && a.1 == []
      && forall n :: n in a.0.rows ==> a.0.rows[n].seqNum == if n in t.rows then t.rows[n].seqNum else 0
  {
    hide Next;
  }

  lemma LoadsAlike(t: Table, server: bool, name: Bytes, value: Value)
    ensures var (a, b) := (LoadOne(t, Role(server, false), name, value), LoadOne(t, Role(server, true), name, value));
      && AlikeButSerials(a.0, b.0) && a.1 == []
      && forall n :: n in a.0.rows ==> a.0.rows[n].seqNum == if n in t.rows then t.rows[n].seqNum else 0
  {
    hide Next, LoadOne, AlikeButSerials;
    if name in t.rows {
      KnownLoadsAlike(t, server, name, value);
    } else {
      NewLoadsAlike(t, server, name, value);
    }
  }

  lemma NewLoadsAlike(t: Table, server: bool, name: Bytes, value: Value)
    requires name !in t.rows
    ensures var (a, b) := (LoadOne(t, Role(server, false), name, value), LoadOne(t, Role(server, true), name, value));
      && AlikeButSerials(a.0, b.0) && a.1 == []
      && forall n :: n in a.0.rows ==> a.0.rows[n].seqNum == if n in t.rows then t.rows[n].seqNum else 0
  {
    hide Next;
  }

  lemma KnownLoadsAlike(t: Table, server: bool, name: Bytes, value: Value)
    requires name in t.rows
    ensures var (a, b) := (LoadOne(t, Role(server, false), name, value), LoadOne(t, Role(server, true), name, value));
      && AlikeButSerials(a.0, b.0) && a.1 == []
      && forall n :: n in a.0.rows ==> a.0.rows[n].seqNum == if n in t.rows then t.rows[n].seqNum else 0
  {
    hide Next;
  }

  lemma OthersAlike(t: Table, server: bool, op: Op)
    requires LiveIndex(t) && (op.OpSetFlags? || op.OpDelete? || op.OpDeleteAll? || op.OpSnapshot?)
    ensures var (a, b) := (Step(t, Role(server, false), op), Step(t, Role(server, true), op));
      && a.0 == b.0 && a.1 == []
      && forall n :: n in a.0.rows ==> n in t.rows && a.0.rows[n].seqNum == t.rows[n].seqNum
  {
  }

  lemma NobodyToRelayTo(t: Table, rev: nat, m: Message)
    requires LiveIndex(t)
    ensures Receive(t, Role(true, false), rev, m) == (Receive(t, Role(true, true), rev, m).0, [])
  {
  }
}
