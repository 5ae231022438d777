/**
  `Storage` (Storage.h, Storage.cpp): a name-keyed map that owns mutable entries, and a second index of raw
  pointers to the same entries. Each method is one section of the source under m_mutex; the messages it hands to
  m_queue_outgoing are returned. Every method is proved against the transition of the same name in `Tables`.
 */
module StorageClass {
  import opened Basics
  import opened Messages
  import opened Serials
  import opened Tables

  class Entry {
    const name: Bytes
    var value: Option<Value>
    var flags: nat
    var id: nat
    var seqNum: Serial

    constructor (name: Bytes)
      ensures this.name == name && value == None && flags == 0 && id == UNASSIGNED && seqNum == 0
    {
      this.name := name;
      value, flags, id, seqNum := None, 0, UNASSIGNED, 0;
    }

    predicate IsPersistent()
      reads this
    {
      Persistent(flags)
    }

    ghost function Row(): Row
      requires value.Some?
      reads this
    {
      Tables.Row.Row(value.value, flags, id, seqNum)
    }
  }

  /** The fields of an entry, before it is known whether it has a value. */
  datatype Before = Before(value: Option<Value>, flags: nat, id: nat, seqNum: Serial)

  ghost function EntryState(e: Entry): Before
    reads e
  {
    Before(e.value, e.flags, e.id, e.seqNum)
  }

  /** The entry as the table `t` shows it; a name the table lacks has just been created. */
  ghost predicate Shows(t: Table, name: Bytes, b: Before) {
    b == if name in t.rows then
           var r := t.rows[name]; Before(Some(r.value), r.flags, r.id, r.seqNum)
         else Before(None, 0, UNASSIGNED, 0)
  }

  /** What StoreValue leaves in an entry, whether it pushed the entry onto an index of `size` slots, whether it
      dirtied the persistent state, and what it sends. */
  ghost function ValueStored(b: Before, name: Bytes, role: Role, value: Value, size: nat): (Row, bool, bool, seq<Out>) {
    var numbered := role.server && b.id == UNASSIGNED;
    var id := if numbered then size else b.id;
    var changed := b.value.Some? && b.value != Some(value);
    var s := if changed then Bump(role, b.seqNum) else b.seqNum;
    (Row(value, b.flags, id, s), numbered, Persistent(b.flags) && b.value != Some(value),
     if b.value.None? then Send(role, EntryAssign(name, id, s, value, b.flags))
     else if changed && id != UNASSIGNED then Send(role, EntryUpdate(id, s, value))
     else [])
  }

  lemma ValueStoredIsSetValue(t: Table, b: Before, role: Role, name: Bytes, value: Value)
    requires name != [] && Shows(t, name, b)
    ensures var (row, numbered, dirtied, sent) := ValueStored(b, name, role, value, |t.index|);
      SetValue(t, role, name, Some(value)) ==
        if b.value.Some? && b.value.value.Type() != value.Type() then (t, [], false)
        else (Table(t.rows[name := row], if numbered then t.index + [Some(name)] else t.index, t.dirty || dirtied), sent, true)
  {
  }

  /** The same for StoreTypeValue. */
  ghost function TypeValueStored(b: Before, name: Bytes, role: Role, value: Value, size: nat): (Row, bool, seq<Out>) {
    var numbered := role.server && b.id == UNASSIGNED;
    var id := if numbered then size else b.id;
    var s := Bump(role, b.seqNum);
    (Row(value, b.flags, id, s), numbered,
     if b.value.None? || b.value.value.Type() != value.Type() then Send(role, EntryAssign(name, id, s, value, b.flags))
     else if id != UNASSIGNED then Send(role, EntryUpdate(id, s, value))
     else [])
  }

  lemma TypeValueStoredIsRevision(t: Table, b: Before, role: Role, name: Bytes, value: Value)
    requires name != [] && Shows(t, name, b) && b.value != Some(value)
    ensures var (row, numbered, sent) := TypeValueStored(b, name, role, value, |t.index|);
      var t' := Table(t.rows[name := row], if numbered then t.index + [Some(name)] else t.index, t.dirty);
      && SetTypeValue(t, role, name, Some(value)) == (t'.(dirty := t.dirty || Persistent(b.flags)), sent)
      && (value.Rpc? && value.s != [] && role.server ==> CreateRpc(t, role, name, value.s) == (t', sent))
  {
  }

  /** What ApplyTo leaves in an entry, and the update it sends back. */
  ghost function Applied(b: Before, newServer: bool, rev: nat, m: Message): (Row, seq<Message>)
    requires m.EntryAssign?
  {
    if b.value.None? then (Row(m.value, m.flags, m.id, m.seqNum), [])
    else if !newServer && LessEq(m.seqNum, b.seqNum) then
      (Row(b.value.value, b.flags, m.id, b.seqNum), [EntryUpdate(b.id, b.seqNum, b.value.value)])
    else (Row(m.value, if rev >= PROTO_3 then m.flags else b.flags, m.id, m.seqNum), [])
  }

  lemma AppliedIsApplyOne(t: Table, b: Before, newServer: bool, rev: nat, m: Message)
    requires m.EntryAssign? && m.id != UNASSIGNED && Shows(t, m.name, b)
    ensures var (row, updates) := Applied(b, newServer, rev, m);
      ApplyOne(t, newServer, rev, m) ==
        (Table(t.rows[m.name := row], Grow(t.index, m.id + 1)[m.id := Some(m.name)], t.dirty), updates)
  {
  }

  /** The same for LoadInto. */
  ghost function Loaded(b: Before, name: Bytes, role: Role, value: Value, size: nat): (Row, bool, seq<Out>) {
    var numbered := role.server && b.id == UNASSIGNED;
    var id := if numbered then size else b.id;
    var s := Bump(role, b.seqNum);
    var flags := if Persistent(b.flags) then b.flags else b.flags + 1;
    (Row(value, flags, id, s), numbered,
     if b.value.None? || b.value.value.Type() != value.Type() then Send(role, EntryAssign(name, id, s, value, flags))
     else if id == UNASSIGNED then []
     else (if b.value.value != value then Send(role, EntryUpdate(id, s, value)) else [])
          + (if Persistent(b.flags) then [] else Send(role, FlagsUpdate(id, flags))))
  }

  lemma LoadedIsLoadOne(t: Table, b: Before, role: Role, name: Bytes, value: Value)
    requires Shows(t, name, b)
    ensures var (row, numbered, sent) := Loaded(b, name, role, value, |t.index|);
      LoadOne(t, role, name, value) ==
        (Table(t.rows[name := row], if numbered then t.index + [Some(name)] else t.index, t.dirty), sent)
  {
  }

  class Storage {
    var entries: map<Bytes, Entry>
    var idmap: seq<Entry?>
    var persistentDirty: bool
    var server: bool
    var outgoing: bool

    /** The shape of the object graph: names agree with keys, no entry lacks a value, no pointer dangles. */
    ghost predicate Shape()
      reads this, entries.Values
    {
      && (forall n :: n in entries ==> entries[n].name == n && entries[n].value.Some?)
      && (forall i :: 0 <= i < |idmap| && idmap[i] != null ==>
            idmap[i].name in entries && entries[idmap[i].name] == idmap[i])
    }

    ghost function Rows(): (r: map<Bytes, Row>)
      requires Shape()
      reads this, entries.Values
      ensures r.Keys == entries.Keys
    {
      map n | n in entries :: entries[n].Row()
    }

    /** The names the pointers lead to. */
    static ghost function Names(ids: seq<Entry?>): (r: seq<Option<Bytes>>)
      ensures |r| == |ids|
      ensures forall i :: 0 <= i < |ids| ==> r[i] == if ids[i] == null then None else Some(ids[i].name)
    {
      seq(|ids|, i requires 0 <= i < |ids| => if ids[i] == null then None else Some(ids[i].name))
    }

    static lemma NamesOf(ids: seq<Entry?>, entry: Entry, id: nat)
      ensures Names(ids + [entry]) == Names(ids) + [Some(entry.name)]
      ensures id < |ids| ==> Names(ids[id := entry]) == Names(ids)[id := Some(entry.name)]
      ensures id < |ids| ==> Names(ids[id := null]) == Names(ids)[id := None]
    {
    }

    ghost function Abs(): (t: Table)
      requires Shape()
      reads this, entries.Values
      ensures LiveIndex(t)
    {
      Table(Rows(), Names(idmap), persistentDirty)
    }

    /** Only the entry called `name` was created or written, and the index at most gained pointers to it. */
    twostate lemma OneRow(name: Bytes)
      requires old(Shape())
      requires name in entries && entries == old(entries)[name := entries[name]]
      requires entries[name].name == name && entries[name].value.Some?
      requires name in old(entries) ==> entries[name] == old(entries)[name]
      requires forall i :: 0 <= i < |idmap| ==>
        idmap[i] == null || idmap[i] == entries[name] || (i < |old(idmap)| && idmap[i] == old(idmap)[i])
      requires forall n :: n in old(entries) && n != name ==> unchanged(old(entries)[n])
      ensures Shape()
      ensures Rows() == old(Rows())[name := entries[name].Row()]
    {
      forall n | n in entries && n != name
        ensures n in old(entries) && entries[n] == old(entries)[n] && entries[n].value.Some?
        ensures entries[n].Row() == old(entries[n].Row())
      {
      }
    }

    /** The entry called `name` was taken out and the slot of its id nulled; no other pointer led to it. */
    twostate lemma Removed(name: Bytes)
      requires old(Valid()) && name in old(entries)
      requires entries == old(entries) - {name}
      requires var id := old(entries[name].id); idmap == if id < |old(idmap)| then old(idmap)[id := null] else old(idmap)
      requires forall n :: n in old(entries) ==> unchanged(old(entries)[n])
      ensures Shape()
      ensures Rows() == old(Rows()) - {name}
    {
      var t := old(Abs());
      assert t.rows[name] == old(entries[name].Row());
      forall i | 0 <= i < |idmap| && idmap[i] != null
        ensures idmap[i].name in entries && entries[idmap[i].name] == idmap[i]
      {
        assert Lookup(t.index, i) == Some(idmap[i].name);
      }
    }

    /** `kept` holds the persistent entries, and the slots of the others were nulled. */
    twostate lemma Cleared()
      requires old(Valid())
      requires forall n :: n in entries <==> n in old(entries) && old(entries[n].IsPersistent())
      requires forall n :: n in entries ==> entries[n] == old(entries)[n]
      requires |idmap| == |old(idmap)|
      requires forall i :: 0 <= i < |idmap| ==>
        idmap[i] == if old(idmap)[i] != null && !old(idmap[i].IsPersistent()) then null else old(idmap)[i]
      requires forall n :: n in old(entries) ==> unchanged(old(entries)[n])
      ensures Shape()
      ensures Rows() == ClearRows(old(Abs())).rows
      ensures Names(idmap) == ClearRows(old(Abs())).index
    {
      var t := old(Abs());
      forall n | n in old(entries)
        ensures t.rows[n] == old(entries[n].Row())
      {
      }
      forall i | 0 <= i < |idmap|
        ensures Names(idmap)[i] == ClearRows(t).index[i]
      {
        if old(idmap)[i] != null {
          assert Lookup(t.index, i) == Some(old(idmap)[i].name);
        }
      }
    }

    ghost predicate Valid()
      reads this, entries.Values
    {
      Shape() && Linked(Abs())
    }

    ghost function TheRole(): Role
      reads this
    {
      Role(server, outgoing)
    }

    constructor ()
      ensures Valid() && Abs() == EMPTY && TheRole() == Role(true, false)
    {
      entries, idmap, persistentDirty, server, outgoing := map[], [], false, true, false;
    }

    method SetOutgoing(outgoing: bool, server: bool)
      requires Valid()
      modifies this
      ensures Valid() && Abs() == old(Abs()) && TheRole() == Role(server, outgoing)
    {
      this.outgoing, this.server := outgoing, server;
    }

    /** m_entries[name], creating an entry when there is none. */
    method FindOrCreate(name: Bytes) returns (entry: Entry)
      requires Shape()
      modifies this`entries
      ensures name in old(entries) ==> entries == old(entries) && entry == entries[name]
      ensures name !in old(entries) ==> fresh(entry) && entries == old(entries)[name := entry]
      ensures name !in old(entries) ==>
        entry.name == name && entry.value == None && entry.flags == 0 && entry.id == UNASSIGNED && entry.seqNum == 0
    {
      if name !in entries {
        entry := new Entry(name);
        entries := entries[name := entry];
      } else {
        entry := entries[name];
      }
    }

    method SetDefaultEntryValue(name: Bytes, value: Option<Value>) returns (ok: bool, out: seq<Out>)
      requires Shape()
      modifies this
      ensures Shape() && TheRole() == old(TheRole())
      ensures (Abs(), out, ok) == SetDefault(old(Abs()), TheRole(), name, value)
    {
      out := [];
      if value.None? || name == [] {
        return false, [];
      }
      if name in entries {
        var oldValue := entries[name].value;
        return oldValue.Some? && oldValue.value.Type() == value.value.Type(), [];
      }
      var entry := new Entry(name);
      entries := entries[name := entry];
      entry.value := value;
      if server && entry.id == UNASSIGNED {
        entry.id := |idmap|;
        idmap := idmap + [entry];
      }
      OneRow(name);
      NamesOf(old(idmap), entry, 0);
      ok := true;
      if outgoing {
        out := [Out(EntryAssign(name, entry.id, entry.seqNum, value.value, entry.flags), false)];
      }
    }

    /** SetEntryValue once the entry is at hand. */
    method StoreValue(entry: Entry, value: Value) returns (ok: bool, out: seq<Out>)
      requires entry.IsPersistent() ==> entry.value.Some?
      modifies this`idmap, this`persistentDirty, entry
      ensures var before := old(EntryState(entry)); ok == (before.value.None? || before.value.value.Type() == value.Type())
      ensures !ok ==> unchanged(this) && unchanged(entry) && out == []
      ensures ok ==>
        var (row, numbered, dirtied, sent) := ValueStored(old(EntryState(entry)), entry.name, TheRole(), value, |old(idmap)|);
        && entry.value.Some? && entry.Row() == row && out == sent
        && idmap == (if numbered then old(idmap) + [entry] else old(idmap))
        && persistentDirty == (old(persistentDirty) || dirtied)
    {
      out := [];
      var oldValue := entry.value;
      if oldValue.Some? && oldValue.value.Type() != value.Type() {
        return false, [];
      }
      ok := true;
      entry.value := Some(value);
      if server && entry.id == UNASSIGNED {
        entry.id := |idmap|;
        idmap := idmap + [entry];
      }
      if entry.IsPersistent() && oldValue.value != value {
        persistentDirty := true;
      }
      if !outgoing {
        return;
      }
      if oldValue.None? {
        out := [Out(EntryAssign(entry.name, entry.id, entry.seqNum, value, entry.flags), false)];
      } else if oldValue.value != value {
        entry.seqNum := Next(entry.seqNum);
        if entry.id != UNASSIGNED {
          out := [Out(EntryUpdate(entry.id, entry.seqNum, value), false)];
        }
      }
    }

    method SetEntryValue(name: Bytes, value: Option<Value>) returns (ok: bool, out: seq<Out>)
      requires Shape()
      modifies this, entries.Values
      ensures Shape() && TheRole() == old(TheRole())
      ensures (Abs(), out, ok) == SetValue(old(Abs()), TheRole(), name, value)
    {
      if name == [] || value.None? {
        return true, [];
      }
      var entry := FindOrCreate(name);
      ghost var before := EntryState(entry);
      NamesOf(idmap, entry, 0);
      ok, out := StoreValue(entry, value.value);
      ValueStoredIsSetValue(old(Abs()), before, TheRole(), name, value.value);
      if ok {
        OneRow(name);
      }
    }

    /** SetEntryTypeValue and CreatePolledRpc once the entry is at hand and its value known to change. */
    method StoreTypeValue(entry: Entry, value: Value) returns (out: seq<Out>)
      modifies this`idmap, entry
      ensures
        var (row, numbered, sent) := TypeValueStored(old(EntryState(entry)), entry.name, TheRole(), value, |old(idmap)|);
        && entry.value.Some? && entry.Row() == row && out == sent
        && idmap == (if numbered then old(idmap) + [entry] else old(idmap))
    {
      out := [];
      var oldValue := entry.value;
      entry.value := Some(value);
      if server && entry.id == UNASSIGNED {
        entry.id := |idmap|;
        idmap := idmap + [entry];
      }
      if !outgoing {
        return;
      }
      entry.seqNum := Next(entry.seqNum);
      if oldValue.None? || oldValue.value.Type() != value.Type() {
        out := [Out(EntryAssign(entry.name, entry.id, entry.seqNum, value, entry.flags), false)];
      } else if entry.id != UNASSIGNED {
        out := [Out(EntryUpdate(entry.id, entry.seqNum, value), false)];
      }
    }

    method SetEntryTypeValue(name: Bytes, value: Option<Value>) returns (out: seq<Out>)
      requires Shape()
      modifies this, entries.Values
      ensures Shape() && TheRole() == old(TheRole())
      ensures (Abs(), out) == SetTypeValue(old(Abs()), TheRole(), name, value)
    {
      if name == [] || value.None? {
        return [];
      }
      var entry := FindOrCreate(name);
      if entry.value == value {
        return [];
      }
      if entry.IsPersistent() {
        persistentDirty := true;
      }
      ghost var before := EntryState(entry);
      NamesOf(idmap, entry, 0);
      out := StoreTypeValue(entry, value.value);
      TypeValueStoredIsRevision(old(Abs()), before, TheRole(), name, value.value);
      OneRow(name);
    }

    method CreatePolledRpc(name: Bytes, def: Bytes) returns (out: seq<Out>)
      requires Shape()
      modifies this, entries.Values
      ensures Shape() && TheRole() == old(TheRole())
      ensures (Abs(), out) == CreateRpc(old(Abs()), TheRole(), name, def)
    {
      if name == [] || def == [] || !server {
        return [];
      }
      var entry := FindOrCreate(name);
      if entry.value == Some(Rpc(def)) {
        return [];
      }
      ghost var before := EntryState(entry);
      NamesOf(idmap, entry, 0);
      out := StoreTypeValue(entry, Rpc(def));
      TypeValueStoredIsRevision(old(Abs()), before, TheRole(), name, Rpc(def));
      OneRow(name);
    }

    method SetEntryFlags(name: Bytes, flags: nat) returns (out: seq<Out>)
      requires Shape()
      modifies this, entries.Values
      ensures Shape() && TheRole() == old(TheRole())
      ensures (Abs(), out) == SetFlags(old(Abs()), TheRole(), name, flags)
    {
      out := [];
      if name == [] || name !in entries {
        return;
      }
      var entry := entries[name];
      if entry.flags == flags {
        return;
      }
      if Persistent(entry.flags) != Persistent(flags) {
        persistentDirty := true;
      }
      entry.flags := flags;
      if outgoing && entry.id != UNASSIGNED {
        out := [Out(FlagsUpdate(entry.id, flags), false)];
      }
      OneRow(name);
    }

    method DeleteEntry(name: Bytes) returns (out: seq<Out>)
      requires Valid()
      modifies this
      ensures Shape() && TheRole() == old(TheRole())
      ensures (Abs(), out) == Delete(old(Abs()), TheRole(), name)
    {
      out := [];
      if name !in entries {
        return;
      }
      var entry := entries[name];
      assert Abs().rows[name] == entry.Row();
      if entry.IsPersistent() {
        persistentDirty := true;
      }
      entries := entries - {name};
      if entry.id < |idmap| {
        idmap := idmap[entry.id := null];
      }
      if entry.id != UNASSIGNED && outgoing {
        out := [Out(EntryDelete(entry.id), false)];
      }
      Removed(name);
      assert Names(idmap) == Remove(old(Abs()), name).index;
    }

    method DeleteAllEntriesImpl()
      requires Valid()
      modifies this`entries, this`idmap
      ensures Shape()
      ensures Abs() == ClearRows(old(Abs()))
      ensures forall e :: e in entries.Values ==> e in old(entries).Values || fresh(e)
    {
      ghost var ids := idmap;
      forall n | n in entries
        ensures entries[n].id != UNASSIGNED ==> entries[n].id < |ids| && ids[entries[n].id] == entries[n]
        ensures forall i :: 0 <= i < |ids| && ids[i] != null && ids[i].name == n ==> i == entries[n].id
      {
        SlotOf(Abs(), n);
      }
      var kept := SweepTransient();
      entries := kept;
      Cleared();
    }

    /** The loop over all entries, in hash-table order: the persistent ones are kept, the slots of the others nulled. */
    method SweepTransient() returns (kept: map<Bytes, Entry>)
      requires Shape()
      requires forall n :: n in entries && entries[n].id != UNASSIGNED ==>
        entries[n].id < |idmap| && idmap[entries[n].id] == entries[n]
      requires |idmap| <= UNASSIGNED
      requires forall i :: 0 <= i < |idmap| && idmap[i] != null ==> entries[idmap[i].name].id == i
      modifies this`idmap
      ensures forall n :: n in kept <==> n in entries && entries[n].IsPersistent()
      ensures forall n :: n in kept ==> kept[n] == entries[n]
      ensures |idmap| == |old(idmap)|
      ensures forall i :: 0 <= i < |idmap| ==>
        idmap[i] == if old(idmap)[i] != null && !old(idmap[i].IsPersistent()) then null else old(idmap)[i]
    {
      hide Persistent;
      kept := map[];
      var todo := entries.Keys;
      while todo != {}
        invariant todo <= entries.Keys && entries == old(entries) && |idmap| == |old(idmap)|
        invariant forall n :: n in kept <==> n in entries && n !in todo && entries[n].IsPersistent()
        invariant forall n :: n in kept ==> kept[n] == entries[n]
        invariant forall i :: 0 <= i < |idmap| ==>
          idmap[i] == if old(idmap)[i] != null && old(idmap)[i].name !in todo && !old(idmap[i].IsPersistent())
                      then null else old(idmap)[i]
        decreases todo
      {
        var n :| n in todo;
        var entry := entries[n];
        if !entry.IsPersistent() {
          if entry.id != UNASSIGNED {
            idmap := idmap[entry.id := null];
          }
        } else {
          kept := kept[n := entry];
        }
        todo := todo - {n};
      }
    }

    /** Where the index points to an entry: at the slot of its id, if it has one, and nowhere else. */
    lemma SlotOf(t: Table, name: Bytes)
      requires Valid() && t == Abs() && name in entries
      ensures entries[name].id != UNASSIGNED ==> entries[name].id < |idmap| && idmap[entries[name].id] == entries[name]
      ensures forall i :: 0 <= i < |idmap| && idmap[i] != null && idmap[i].name == name ==> i == entries[name].id
    {
      assert t.rows[name] == entries[name].Row();
      if entries[name].id != UNASSIGNED {
        assert Lookup(t.index, entries[name].id) == Some(name);
      }
      forall i | 0 <= i < |idmap| && idmap[i] != null && idmap[i].name == name
        ensures i == entries[name].id
      {
        assert Lookup(t.index, i) == Some(name);
      }
    }

    method DeleteAllEntries() returns (out: seq<Out>)
      requires Valid()
      modifies this`entries, this`idmap
      ensures Shape()
      ensures (Abs(), out) == DeleteAll(old(Abs()), TheRole())
    {
      out := [];
      assert Abs().rows.Keys == entries.Keys;
      if entries.Keys == {} {
        assert Abs().rows == map[];
        return;
      }
      DeleteAllEntriesImpl();
      if outgoing {
        out := [Out(ClearEntries, false)];
      }
    }

    method GetPersistentEntries(periodic: bool) returns (copied: Option<map<Bytes, Value>>)
      requires Shape()
      modifies this`persistentDirty
      ensures Shape()
      ensures (Abs(), copied) == TakeSnapshot(old(Abs()), periodic)
    {
      if periodic && !persistentDirty {
        return None;
      }
      persistentDirty := false;
      var rows := map n | n in entries && entries[n].IsPersistent() :: entries[n].value.value;
      assert rows == PersistentRows(Abs());
      copied := Some(rows);
      assert Rows() == old(Rows());
    }

    // -------------------------------------------------------------------------------------------
    // ProcessIncoming
    // -------------------------------------------------------------------------------------------

    /** The part of the EntryAssign case after the entry has been found. */
    method AssignCommon(m: Message, rev: nat, entry: Entry, mayNeedUpdate: bool) returns (out: seq<Out>)
      requires m.EntryAssign? && entry.value.Some?
      requires mayNeedUpdate ==> !server
      modifies this`persistentDirty, entry
      ensures entry.value.Some?
      ensures var (row, touched, sent) := AssignExisting(old(entry.Row()), entry.name, TheRole(), rev, m, mayNeedUpdate);
        entry.Row() == row && persistentDirty == (old(persistentDirty) || touched) && out == sent
    {
      out := [];
      if Less(m.seqNum, entry.seqNum) {
        if mayNeedUpdate {
          out := [Out(EntryUpdate(entry.id, entry.seqNum, entry.value.value), false)];
        }
        return;
      }
      if m.name != entry.name {
        return;
      }
      if !mayNeedUpdate && rev >= PROTO_3 {
        if Persistent(entry.flags) != Persistent(m.flags) {
          persistentDirty := true;
        }
        entry.flags := m.flags;
      }
      if entry.IsPersistent() && entry.value.value != m.value {
        persistentDirty := true;
      }
      entry.value := Some(m.value);
      entry.seqNum := m.seqNum;
      if server && outgoing {
        out := [Out(EntryAssign(entry.name, m.id, m.seqNum, m.value, entry.flags), true)];
      }
    }

    method ServerAssign(m: Message, rev: nat) returns (out: seq<Out>)
      requires m.EntryAssign? && Shape() && server
      modifies this, entries.Values
      ensures Shape() && TheRole() == old(TheRole())
      ensures (Abs(), out) == ReceiveAssign(old(Abs()), TheRole(), rev, m)
      ensures forall e :: e in entries.Values ==> e in old(entries).Values || fresh(e)
    {
      hide AssignExisting, LiveIndex;
      out := [];
      if m.id == UNASSIGNED {
        out := EnterNew(m);
        return;
      }
      if m.id >= |idmap| || idmap[m.id] == null {
        return;
      }
      out := AssignCommon(m, rev, idmap[m.id], false);
      OneRow(idmap[m.id].name);
    }

    /** A client's request to enter a name: it gets the next id, unless the name is already there. */
    method EnterNew(m: Message) returns (out: seq<Out>)
      requires m.EntryAssign? && m.id == UNASSIGNED && Shape() && server
      modifies this`entries, this`idmap, this`persistentDirty
      ensures Shape()
      ensures m.name in old(entries) ==> Abs() == old(Abs()) && out == []
      ensures m.name !in old(entries) ==>
        var (t', sent) := AddRow(old(Abs()), TheRole(), m.name, m.value, m.flags, 0);
        Abs() == t'.(dirty := old(persistentDirty) || Persistent(m.flags)) && out == sent
      ensures forall e :: e in entries.Values ==> e in old(entries).Values || fresh(e)
    {
      out := [];
      if m.name in entries {
        return;
      }
      var id := |idmap|;
      var entry := FindOrCreate(m.name);
      entry.value, entry.flags, entry.id := Some(m.value), m.flags, id;
      NamesOf(idmap, entry, 0);
      idmap := idmap + [entry];
      if entry.IsPersistent() {
        persistentDirty := true;
      }
      if outgoing {
        out := [Out(EntryAssign(m.name, id, entry.seqNum, m.value, m.flags), false)];
      }
      OneRow(m.name);
    }

    method ClientAssign(m: Message, rev: nat) returns (out: seq<Out>)
      requires m.EntryAssign? && Shape() && !server
      modifies this, entries.Values
      ensures Shape() && TheRole() == old(TheRole())
      ensures (Abs(), out) == ReceiveAssign(old(Abs()), TheRole(), rev, m)
      ensures forall e :: e in entries.Values ==> e in old(entries).Values || fresh(e)
    {
      out := [];
      if m.id == UNASSIGNED {
        return;
      }
      ghost var t := Abs();
      if m.id >= |idmap| {
        idmap := idmap + seq(m.id + 1 - |idmap|, _ => null);
      }
      assert Names(idmap) == Grow(t.index, m.id + 1);
      assert Rows() == t.rows;
      var entry := idmap[m.id];
      if entry != null {
        assert Lookup(t.index, m.id) == Some(entry.name);
        label L:
        out := AssignCommon(m, rev, entry, false);
        OneRow@L(entry.name);
      } else {
        assert Lookup(t.index, m.id) == None;
        out := ClientAssignNew(m, rev);
      }
    }

    /** An assignment under an id the client does not know. */
    method ClientAssignNew(m: Message, rev: nat) returns (out: seq<Out>)
      requires m.EntryAssign? && Shape() && !server && m.id < |idmap| && idmap[m.id] == null && m.id != UNASSIGNED
      modifies this, entries.Values
      ensures Shape() && TheRole() == old(TheRole())
      ensures Names(idmap) == old(Names(idmap))[m.id := Some(m.name)]
      ensures m.name !in old(entries) ==>
        Rows() == old(Rows())[m.name := Row(m.value, m.flags, m.id, 0)] && persistentDirty == old(persistentDirty) && out == []
      ensures m.name in old(entries) ==>
        var before := old(Rows())[m.name].(id := m.id);
        var (row, touched, sent) := AssignExisting(before, m.name, TheRole(), rev, m, true);
        && Rows() == old(Rows())[m.name := row] && persistentDirty == (old(persistentDirty) || touched)
        && out == (if m.flags != before.flags then [Out(FlagsUpdate(m.id, before.flags), false)] else []) + sent
      ensures forall e :: e in entries.Values ==> e in old(entries).Values || fresh(e)
    {
      out := [];
      var entry := FindOrCreate(m.name);
      NamesOf(idmap, entry, m.id);
      if entry.value.None? {
        // an entry never heard of before
        entry.value, entry.flags, entry.id := Some(m.value), m.flags, m.id;
        idmap := idmap[m.id := entry];
      } else {
        out := Adopt(m, rev, entry);
      }
      OneRow(m.name);
    }

    /** The client's own request for an id comes back: the id is recorded, and what was changed locally in the
        meantime is sent again under it. */
    method Adopt(m: Message, rev: nat, entry: Entry) returns (out: seq<Out>)
      requires m.EntryAssign? && !server && m.id < |idmap| && entry.name == m.name && entry.value.Some?
      modifies this`idmap, this`persistentDirty, entry
      ensures entry.value.Some? && idmap == old(idmap)[m.id := entry]
      ensures var before := old(entry.Row()).(id := m.id);
        var (row, touched, sent) := AssignExisting(before, entry.name, TheRole(), rev, m, true);
        && entry.Row() == row && persistentDirty == (old(persistentDirty) || touched)
        && out == (if m.flags != before.flags then [Out(FlagsUpdate(m.id, before.flags), false)] else []) + sent
    {
      entry.id := m.id;
      idmap := idmap[m.id := entry];
      var flagsOut := [];
      if m.flags != entry.flags {
        flagsOut := [Out(FlagsUpdate(m.id, entry.flags), false)];
      }
      out := AssignCommon(m, rev, entry, true);
      out := flagsOut + out;
    }

    method IncomingUpdate(m: Message) returns (out: seq<Out>)
      requires m.EntryUpdate? && Shape()
      modifies this, entries.Values
      ensures Shape() && TheRole() == old(TheRole())
      ensures (Abs(), out) == ReceiveUpdate(old(Abs()), TheRole(), m)
      ensures forall e :: e in entries.Values ==> e in old(entries).Values || fresh(e)
    {
      out := [];
      if m.id >= |idmap| || idmap[m.id] == null {
        return;
      }
      var entry := idmap[m.id];
      if LessEq(m.seqNum, entry.seqNum) {
        return;
      }
      entry.value, entry.seqNum := Some(m.value), m.seqNum;
      if entry.IsPersistent() {
        persistentDirty := true;
      }
      if server && outgoing {
        out := [Out(m, true)];
      }
      OneRow(entry.name);
    }

    method IncomingFlags(m: Message) returns (out: seq<Out>)
      requires m.FlagsUpdate? && Shape()
      modifies this, entries.Values
      ensures Shape() && TheRole() == old(TheRole())
      ensures (Abs(), out) == ReceiveFlags(old(Abs()), TheRole(), m)
      ensures forall e :: e in entries.Values ==> e in old(entries).Values || fresh(e)
    {
      out := [];
      if m.id >= |idmap| || idmap[m.id] == null {
        return;
      }
      var entry := idmap[m.id];
      if entry.flags == m.flags {
        return;
      }
      if Persistent(entry.flags) != Persistent(m.flags) {
        persistentDirty := true;
      }
      entry.flags := m.flags;
      if server && outgoing {
        out := [Out(m, true)];
      }
      OneRow(entry.name);
    }

    method IncomingDelete(m: Message) returns (out: seq<Out>)
      requires m.EntryDelete? && Valid()
      modifies this
      ensures Shape() && TheRole() == old(TheRole())
      ensures (Abs(), out) == ReceiveDelete(old(Abs()), TheRole(), m)
      ensures forall e :: e in entries.Values ==> e in old(entries).Values || fresh(e)
    {
      out := [];
      if m.id >= |idmap| || idmap[m.id] == null {
        return;
      }
      var entry := idmap[m.id];
      assert Lookup(Abs().index, m.id) == Some(entry.name);
      assert Abs().rows[entry.name] == entry.Row();
      if entry.IsPersistent() {
        persistentDirty := true;
      }
      idmap := idmap[m.id := null];
      if entry.name in entries {
        entries := entries - {entry.name};
      }
      if server && outgoing {
        out := [Out(m, true)];
      }
      Removed(entry.name);
      assert Names(idmap) == old(Abs()).index[m.id := None];
    }

    method ProcessIncoming(m: Message, rev: nat) returns (out: seq<Out>)
      requires Valid()
      modifies this, entries.Values
      ensures Shape() && TheRole() == old(TheRole())
      ensures (Abs(), out) == Receive(old(Abs()), TheRole(), rev, m)
      ensures forall e :: e in entries.Values ==> e in old(entries).Values || fresh(e)
    {
      out := [];
      match m {
        case EntryAssign(_, _, _, _, _) =>
          if server {
            out := ServerAssign(m, rev);
          } else {
            out := ClientAssign(m, rev);
          }
        case EntryUpdate(_, _, _) =>
          out := IncomingUpdate(m);
        case FlagsUpdate(_, _) =>
          out := IncomingFlags(m);
        case EntryDelete(_) =>
          out := IncomingDelete(m);
        case ClearEntries =>
          DeleteAllEntriesImpl();
          if server && outgoing {
            out := [Out(m, true)];
          }
        case _ =>
      }
    }

    // -------------------------------------------------------------------------------------------
    // Handshake
    // -------------------------------------------------------------------------------------------

    /** The assignments a server sends first, in the iteration order of its hash table. */
    method GetInitialAssignments() returns (msgs: seq<Message>, order: seq<Bytes>)
      requires Valid()
      ensures Lists(order, Abs().rows.Keys)
      ensures msgs == AssignsOf(Abs().rows, order)
    {
      msgs, order := [], [];
      var todo := entries.Keys;
      while todo != {}
        invariant todo <= entries.Keys
        invariant Lists(order, entries.Keys - todo)
        invariant (forall n :: n in order ==> n in Abs().rows) && msgs == AssignsOf(Abs().rows, order)
        decreases todo
      {
        var n :| n in todo;
        var entry := entries[n];
        msgs := msgs + [EntryAssign(n, entry.id, entry.seqNum, entry.value.value, entry.flags)];
        order := order + [n];
        todo := todo - {n};
      }
      assert entries.Keys == Abs().rows.Keys;
    }

    /** The first step of ApplyInitialAssignments: every id is forgotten. */
    method ForgetAllIds()
      requires Shape()
      modifies this`idmap, entries.Values
      ensures Shape() && Abs() == ForgetIds(old(Abs()))
    {
      ghost var t := Abs();
      forall n | n in entries {
        entries[n].id := UNASSIGNED;
      }
      idmap := [];
      forall n | n in entries
        ensures entries[n].Row() == ForgetIds(t).rows[n]
      {
        assert t.rows[n] == old(entries[n].Row());
      }
      assert Rows() == ForgetIds(t).rows;
    }

    /** One message of the server's initial batch. */
    method ApplyAssignment(m: Message, newServer: bool, rev: nat) returns (updates: seq<Message>)
      requires Shape()
      modifies this`entries, this`idmap, entries.Values
      ensures Shape() && (Abs(), updates) == ApplyOne(old(Abs()), newServer, rev, m)
      ensures forall e :: e in entries.Values ==> e in old(entries).Values || fresh(e)
    {
      hide Applied, LessEq, Lookup;
      if !m.EntryAssign? || m.id == UNASSIGNED {
        return [];
      }
      var entry := FindOrCreate(m.name);
      ghost var before := EntryState(entry);
      updates := ApplyTo(entry, m, newServer, rev);
      ghost var ids := idmap;
      if m.id >= |idmap| {
        idmap := idmap + seq(m.id + 1 - |idmap|, _ => null);
      }
      assert Names(idmap) == Grow(Names(ids), m.id + 1);
      NamesOf(idmap, entry, m.id);
      idmap := idmap[m.id := entry];
      AppliedIsApplyOne(old(Abs()), before, newServer, rev, m);
      OneRow(m.name);
    }

    method ApplyTo(entry: Entry, m: Message, newServer: bool, rev: nat) returns (updates: seq<Message>)
      requires m.EntryAssign?
      modifies entry
      ensures entry.value.Some? && (entry.Row(), updates) == Applied(old(EntryState(entry)), newServer, rev, m)
    {
      updates := [];
      if entry.value.None? {
        entry.value, entry.flags, entry.seqNum := Some(m.value), m.flags, m.seqNum;
      } else if !newServer && LessEq(m.seqNum, entry.seqNum) {
        updates := [EntryUpdate(entry.id, entry.seqNum, entry.value.value)];
      } else {
        entry.value, entry.seqNum := Some(m.value), m.seqNum;
        if rev >= PROTO_3 {
          entry.flags := m.flags;
        }
      }
      entry.id := m.id;
    }

    /** `outMsgs` asks the server for an id for every entry it did not name, in hash-table order. */
    method ApplyInitialAssignments(msgs: seq<Message>, newServer: bool, rev: nat)
      returns (outMsgs: seq<Message>, updates: seq<Message>, order: seq<Bytes>)
      requires Shape()
      modifies this`entries, this`idmap, entries.Values
      ensures Shape()
      ensures server ==> Abs() == old(Abs()) && outMsgs == [] && updates == []
      ensures !server ==>
        && (Abs(), updates) == ApplyAll(ForgetIds(old(Abs())), newServer, rev, msgs)
        && Lists(order, Unassigned(Abs()))
        && outMsgs == AssignsOf(Abs().rows, order)
    {
      outMsgs, updates, order := [], [], [];
      if server {
        return;
      }
      ghost var t := ForgetIds(Abs());
      ForgetAllIds();
      for i := 0 to |msgs|
        invariant forall e :: e in entries.Values ==> e in old(entries).Values || fresh(e)
        invariant Shape() && (Abs(), updates) == ApplyAll(t, newServer, rev, msgs[..i])
      {
        var u := ApplyAssignment(msgs[i], newServer, rev);
        updates := updates + u;
        assert msgs[..i + 1][..i] == msgs[..i];
      }
      assert msgs[..|msgs|] == msgs;
      outMsgs, order := RequestIds();
    }

    method RequestIds() returns (outMsgs: seq<Message>, order: seq<Bytes>)
      requires Shape()
      ensures Lists(order, Unassigned(Abs()))
      ensures outMsgs == AssignsOf(Abs().rows, order)
    {
      outMsgs, order := [], [];
      var todo := entries.Keys;
      ghost var t := Abs();
      while todo != {}
        invariant todo <= entries.Keys
        invariant Lists(order, Unassigned(t) - todo)
        invariant (forall n :: n in order ==> n in t.rows) && outMsgs == AssignsOf(t.rows, order)
        decreases todo
      {
        var n :| n in todo;
        var entry := entries[n];
        assert t.rows[n] == entry.Row();
        if entry.id == UNASSIGNED {
          outMsgs := outMsgs + [EntryAssign(n, entry.id, entry.seqNum, entry.value.value, entry.flags)];
          order := order + [n];
        }
        todo := todo - {n};
      }
    }

    /** One parsed entry of LoadPersistent, copied into the table. */
    method LoadEntry(name: Bytes, value: Value) returns (out: seq<Out>)
      requires Shape()
      modifies this`entries, this`idmap, entries.Values
      ensures Shape()
      ensures (Abs(), out) == LoadOne(old(Abs()), TheRole(), name, value)
    {
      ghost var t, size := Abs(), |idmap|;
      var entry := FindOrCreate(name);
      ghost var before := EntryState(entry);
      ghost var (row, numbered, sent) := Loaded(before, name, TheRole(), value, size);
      assert LoadOne(t, TheRole(), name, value) ==
        (Table(t.rows[name := row], if numbered then t.index + [Some(name)] else t.index, t.dirty), sent) by {
        LoadedIsLoadOne(t, before, TheRole(), name, value);
      }
      NamesOf(idmap, entry, 0);
      out := LoadInto(entry, value);
      OneRow(name);
      assert Abs() == Table(t.rows[name := row], if numbered then t.index + [Some(name)] else t.index, t.dirty);
    }

    method LoadInto(entry: Entry, value: Value) returns (out: seq<Out>)
      modifies this`idmap, entry
      ensures var (row, numbered, sent) := Loaded(old(EntryState(entry)), entry.name, TheRole(), value, |old(idmap)|);
        && entry.value.Some? && entry.Row() == row && out == sent
        && idmap == (if numbered then old(idmap) + [entry] else old(idmap))
    {
      out := [];
      var oldValue := entry.value;
      entry.value := Some(value);
      var wasPersistent := entry.IsPersistent();
      if !wasPersistent {
        entry.flags := entry.flags + 1;
      }
      if server && entry.id == UNASSIGNED {
        entry.id := |idmap|;
        idmap := idmap + [entry];
      }
      if !outgoing {
        return;
      }
      entry.seqNum := Next(entry.seqNum);
      if oldValue.None? || oldValue.value.Type() != value.Type() {
        out := [Out(EntryAssign(entry.name, entry.id, entry.seqNum, value, entry.flags), false)];
      } else if entry.id != UNASSIGNED {
        if oldValue.value != value {
          out := [Out(EntryUpdate(entry.id, entry.seqNum, value), false)];
        }
        if !wasPersistent {
          out := out + [Out(FlagsUpdate(entry.id, entry.flags), false)];
        }
      }
    }
  }
}
