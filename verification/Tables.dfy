/**
  The abstract state of a `Storage` object and what each of its locked sections does to it (Storage.cpp).
  The class `Storage` in Storage.dfy implements these transitions on mutable entries and raw pointers.
 */
module Tables {
  import opened Basics
  import opened Messages
  import opened Serials

  const PROTO_3: nat := 0x0300

  /** The value of one `Entry`. */
  datatype Row = Row(value: Value, flags: nat, id: nat, seqNum: Serial)

  /** `rows` is m_entries, `index` is m_idmap (None where the pointer is null), `dirty` is m_persistent_dirty. */
  datatype Table = Table(rows: map<Bytes, Row>, index: seq<Option<Bytes>>, dirty: bool)

  /** How the dispatcher configured the storage: m_server, and whether m_queue_outgoing is set. */
  datatype Role = Role(server: bool, outgoing: bool)

  /** One call of the queue_outgoing callback; `exceptSender` when the originating connection is left out. */
  datatype Out = Out(msg: Message, exceptSender: bool)

  /** The messages of `out` that go to a connection: to the one whose message caused them, or to any other. */
  function Addressed(out: seq<Out>, originator: bool): seq<Message> {
    if out == [] then []
    else (if originator && out[0].exceptSender then [] else [out[0].msg]) + Addressed(out[1..], originator)
  }

  const EMPTY: Table := Table(map[], [], false)

  /** NT_PERSISTENT is bit 0 of the flags. */
  predicate Persistent(flags: nat) {
    flags % 2 == 1
  }

  /** m_idmap[id], or null when the vector is too short. */
  function Lookup(index: seq<Option<Bytes>>, id: nat): Option<Bytes> {
    if id < |index| then index[id] else None
  }

  /** m_idmap.resize(n) when n is larger than the present size. */
  function Grow(index: seq<Option<Bytes>>, n: nat): (r: seq<Option<Bytes>>)
    ensures |r| == if n <= |index| then |index| else n
    ensures forall i: nat :: Lookup(r, i) == Lookup(index, i)
  {
    if n <= |index| then index else index + seq(n - |index|, _ => None)
  }

  /** Enlarge the index to hold slot `id` and store `slot` there. */
  function SetSlot(index: seq<Option<Bytes>>, id: nat, slot: Option<Bytes>): (r: seq<Option<Bytes>>)
    ensures forall i: nat :: Lookup(r, i) == if i == id then slot else Lookup(index, i)
  {
    Grow(index, id + 1)[id := slot]
  }

  // ---------------------------------------------------------------------------------------------
  // Local operations
  // ---------------------------------------------------------------------------------------------

  function Send(role: Role, msg: Message): seq<Out> {
    if role.outgoing then [Out(msg, false)] else []
  }

  /** The id of a row after the server has given it one, if it had none. */
  function IdFor(t: Table, role: Role, id: nat): nat {
    if role.server && id == UNASSIGNED then |t.index| else id
  }

  /** The index after IdFor. */
  function IndexFor(t: Table, role: Role, name: Bytes, id: nat): (r: seq<Option<Bytes>>)
    ensures forall i: nat :: Lookup(r, i) ==
              if role.server && id == UNASSIGNED && i == |t.index| then Some(name) else Lookup(t.index, i)
  {
    if role.server && id == UNASSIGNED then t.index + [Some(name)] else t.index
  }

  /** A row that did not exist before. */
  function AddRow(t: Table, role: Role, name: Bytes, value: Value, flags: nat, seqNum: Serial): (Table, seq<Out>) {
    var id := IdFor(t, role, UNASSIGNED);
    (Table(t.rows[name := Row(value, flags, id, seqNum)], IndexFor(t, role, name, UNASSIGNED), t.dirty),
     Send(role, EntryAssign(name, id, seqNum, value, flags)))
  }

  /** Storage::SetDefaultEntryValue */
  function SetDefault(t: Table, role: Role, name: Bytes, value: Option<Value>): (Table, seq<Out>, bool) {
    if value.None? || name == [] then (t, [], false)
    else if name in t.rows then (t, [], t.rows[name].value.Type() == value.value.Type())
    else
      var (t', out) := AddRow(t, role, name, value.value, 0, 0);
      (t', out, true)
  }

  /** The serial after a local change: it moves only when there is somebody to tell. */
  function Bump(role: Role, seqNum: Serial): Serial {
    if role.outgoing then Next(seqNum) else seqNum
  }

  /** What is sent for a local change of `before` to `value` under id `id`: an assignment when the type changes,
      else an update, which a client without an id keeps to itself. */
  function Announce(role: Role, name: Bytes, before: Row, id: nat, value: Value): seq<Out> {
    if before.value.Type() != value.Type() then
      Send(role, EntryAssign(name, id, Bump(role, before.seqNum), value, before.flags))
    else if id != UNASSIGNED then Send(role, EntryUpdate(id, Bump(role, before.seqNum), value))
    else []
  }

  /** Storage::SetEntryValue */
  function SetValue(t: Table, role: Role, name: Bytes, value: Option<Value>): (Table, seq<Out>, bool) {
    if name == [] || value.None? then (t, [], true)
    else if name !in t.rows then
      var (t', out) := AddRow(t, role, name, value.value, 0, 0);
      (t', out, true)
    else
      var row := t.rows[name];
      if row.value.Type() != value.value.Type() then (t, [], false)
      else
        var id := IdFor(t, role, row.id);
        var changed := row.value != value.value;
        (Table(t.rows[name := Row(value.value, row.flags, id, if changed then Bump(role, row.seqNum) else row.seqNum)],
               IndexFor(t, role, name, row.id),
               t.dirty || (Persistent(row.flags) && changed)),
         if changed then Announce(role, name, row, id, value.value) else [], true)
  }

  /** Storage::SetEntryTypeValue */
  function SetTypeValue(t: Table, role: Role, name: Bytes, value: Option<Value>): (Table, seq<Out>) {
    if name == [] || value.None? then (t, [])
    else if name !in t.rows then AddRow(t, role, name, value.value, 0, Bump(role, 0))
    else
      var row := t.rows[name];
      if row.value == value.value then (t, [])
      else
        var id := IdFor(t, role, row.id);
        (Table(t.rows[name := Row(value.value, row.flags, id, Bump(role, row.seqNum))],
               IndexFor(t, role, name, row.id),
               t.dirty || Persistent(row.flags)),
         Announce(role, name, row, id, value.value))
  }

  /** Storage::SetEntryFlags */
  function SetFlags(t: Table, role: Role, name: Bytes, flags: nat): (Table, seq<Out>) {
    if name == [] || name !in t.rows || t.rows[name].flags == flags then (t, [])
    else
      var row := t.rows[name];
      (t.(rows := t.rows[name := row.(flags := flags)],
          dirty := t.dirty || Persistent(row.flags) != Persistent(flags)),
       if row.id != UNASSIGNED then Send(role, FlagsUpdate(row.id, flags)) else [])
  }

  /** Take a row out of the table and null the slot of its id. */
  function Remove(t: Table, name: Bytes): Table
    requires name in t.rows
  {
    var row := t.rows[name];
    Table(t.rows - {name},
          if row.id < |t.index| then t.index[row.id := None] else t.index,
          t.dirty || Persistent(row.flags))
  }

  /** Storage::DeleteEntry */
  function Delete(t: Table, role: Role, name: Bytes): (Table, seq<Out>) {
    if name !in t.rows then (t, [])
    else (Remove(t, name), if t.rows[name].id != UNASSIGNED then Send(role, EntryDelete(t.rows[name].id)) else [])
  }

  /** Storage::DeleteAllEntriesImpl: persistent rows stay. */
  function ClearRows(t: Table): Table {
    t.(rows := map n | n in t.rows && Persistent(t.rows[n].flags) :: t.rows[n],
       index := seq(|t.index|, i requires 0 <= i < |t.index| =>
         if exists n :: n in t.rows && t.rows[n].id == i && i != UNASSIGNED && !Persistent(t.rows[n].flags)
         then None else t.index[i]))
  }

  /** Storage::DeleteAllEntries */
  function DeleteAll(t: Table, role: Role): (Table, seq<Out>) {
    if t.rows == map[] then (t, []) else (ClearRows(t), Send(role, ClearEntries))
  }

  /** Storage::CreatePolledRpc; the callback that CreateRpc also installs is not part of the table. */
  function CreateRpc(t: Table, role: Role, name: Bytes, def: Bytes): (Table, seq<Out>) {
    if name == [] || def == [] || !role.server then (t, [])
    else if name !in t.rows then AddRow(t, role, name, Rpc(def), 0, Bump(role, 0))
    else
      var row := t.rows[name];
      if row.value == Rpc(def) then (t, [])
      else
        var id := IdFor(t, role, row.id);
        (Table(t.rows[name := Row(Rpc(def), row.flags, id, Bump(role, row.seqNum))],
               IndexFor(t, role, name, row.id), t.dirty),
         Announce(role, name, row, id, Rpc(def)))
  }

  /** The persistent (name, value) pairs: what GetPersistentEntries copies out. */
  function PersistentRows(t: Table): map<Bytes, Value> {
    map n | n in t.rows && Persistent(t.rows[n].flags) :: t.rows[n].value
  }

  /** Storage::GetPersistentEntries: None when a periodic save finds nothing changed. */
  function TakeSnapshot(t: Table, periodic: bool): (Table, Option<map<Bytes, Value>>) {
    if periodic && !t.dirty then (t, None) else (t.(dirty := false), Some(PersistentRows(t)))
  }

  /** One entry of the loop in Storage::LoadPersistent that copies parsed values into the table. */
  function LoadOne(t: Table, role: Role, name: Bytes, value: Value): (Table, seq<Out>) {
    if name !in t.rows then AddRow(t, role, name, value, 1, Bump(role, 0))
    else
      var row := t.rows[name];
      var id := IdFor(t, role, row.id);
      var flags := if Persistent(row.flags) then row.flags else row.flags + 1;
      (Table(t.rows[name := Row(value, flags, id, Bump(role, row.seqNum))], IndexFor(t, role, name, row.id), t.dirty),
       if row.value.Type() != value.Type() then Announce(role, name, row.(flags := flags), id, value)
       else if id == UNASSIGNED then []
       else (if row.value != value then Announce(role, name, row, id, value) else [])
            + (if !Persistent(row.flags) then Send(role, FlagsUpdate(id, flags)) else []))
  }

  // ---------------------------------------------------------------------------------------------
  // Storage::ProcessIncoming
  // ---------------------------------------------------------------------------------------------

  /** What a server tells the other connections once it has accepted `msg`. */
  function Relay(role: Role, msg: Message): seq<Out> {
    if role.server && role.outgoing then [Out(msg, true)] else []
  }

  /** The part of the EntryAssign case shared by client and server, for an entry that already exists: its new
      row, whether the persistent state changed, and what is sent. `mayNeedUpdate` marks the server's answer to
      this client's own request for an id. */
  function AssignExisting(row: Row, name: Bytes, role: Role, rev: nat, m: Message, mayNeedUpdate: bool)
    : (Row, bool, seq<Out>)
    requires m.EntryAssign?
  {
    if Less(m.seqNum, row.seqNum) then
      (row, false, if mayNeedUpdate then [Out(EntryUpdate(row.id, row.seqNum, row.value), false)] else [])
    else if m.name != name then (row, false, [])
    else
      var flags := if !mayNeedUpdate && rev >= PROTO_3 then m.flags else row.flags;
      (Row(m.value, flags, row.id, m.seqNum),
       Persistent(row.flags) != Persistent(flags) || (Persistent(flags) && row.value != m.value),
       Relay(role, EntryAssign(name, m.id, m.seqNum, m.value, flags)))
  }

  function ReceiveAssign(t: Table, role: Role, rev: nat, m: Message): (Table, seq<Out>)
    requires m.EntryAssign?
    requires LiveIndex(t)
  {
    if role.server && m.id == UNASSIGNED then
      if m.name in t.rows then (t, [])
      else
        var (t', out) := AddRow(t, role, m.name, m.value, m.flags, 0);
        (t'.(dirty := t.dirty || Persistent(m.flags)), out)
    else if m.id == UNASSIGNED || (role.server && Lookup(t.index, m.id).None?) then (t, [])
    else
      var index := if role.server then t.index else Grow(t.index, m.id + 1);
      match Lookup(t.index, m.id)
      case Some(name) =>
        var (row, touched, out) := AssignExisting(t.rows[name], name, role, rev, m, false);
        (Table(t.rows[name := row], index, t.dirty || touched), out)
      case None =>
        if m.name !in t.rows then
          (Table(t.rows[m.name := Row(m.value, m.flags, m.id, 0)], index[m.id := Some(m.name)], t.dirty), [])
        else
          var before := t.rows[m.name].(id := m.id);
          var (row, touched, out) := AssignExisting(before, m.name, role, rev, m, true);
          (Table(t.rows[m.name := row], index[m.id := Some(m.name)], t.dirty || touched),
           (if m.flags != before.flags then [Out(FlagsUpdate(m.id, before.flags), false)] else []) + out)
  }

  function ReceiveUpdate(t: Table, role: Role, m: Message): (Table, seq<Out>)
    requires m.EntryUpdate?
    requires LiveIndex(t)
  {
    if Lookup(t.index, m.id).None? then (t, [])
    else
      var name := t.index[m.id].value;
      var row := t.rows[name];
      if LessEq(m.seqNum, row.seqNum) then (t, [])
      else
        (t.(rows := t.rows[name := row.(value := m.value, seqNum := m.seqNum)], dirty := t.dirty || Persistent(row.flags)),
         Relay(role, m))
  }

  function ReceiveFlags(t: Table, role: Role, m: Message): (Table, seq<Out>)
    requires m.FlagsUpdate?
    requires LiveIndex(t)
  {
    if Lookup(t.index, m.id).None? then (t, [])
    else
      var name := t.index[m.id].value;
      var row := t.rows[name];
      if row.flags == m.flags then (t, [])
      else
        (t.(rows := t.rows[name := row.(flags := m.flags)],
            dirty := t.dirty || Persistent(row.flags) != Persistent(m.flags)),
         Relay(role, m))
  }

  function ReceiveDelete(t: Table, role: Role, m: Message): (Table, seq<Out>)
    requires m.EntryDelete?
    requires LiveIndex(t)
  {
    if Lookup(t.index, m.id).None? then (t, [])
    else
      var name := t.index[m.id].value;
      (Table(t.rows - {name}, t.index[m.id := None], t.dirty || Persistent(t.rows[name].flags)), Relay(role, m))
  }

  /** The effect of one incoming message on the table, and the messages it makes the storage send.
      ExecuteRpc and RpcResponse leave the table alone. */
  function Receive(t: Table, role: Role, rev: nat, m: Message): (Table, seq<Out>)
    requires LiveIndex(t)
  {
    match m
    case EntryAssign(_, _, _, _, _) => ReceiveAssign(t, role, rev, m)
    case EntryUpdate(_, _, _) => ReceiveUpdate(t, role, m)
    case FlagsUpdate(_, _) => ReceiveFlags(t, role, m)
    case EntryDelete(_) => ReceiveDelete(t, role, m)
    case ClearEntries => (ClearRows(t), Relay(role, m))
    case _ => (t, [])
  }

  // ---------------------------------------------------------------------------------------------
  // Handshake
  // ---------------------------------------------------------------------------------------------

  function AssignOf(rows: map<Bytes, Row>, name: Bytes): Message
    requires name in rows
  {
    EntryAssign(name, rows[name].id, rows[name].seqNum, rows[name].value, rows[name].flags)
  }

  /** One EntryAssign for each name of `order`. */
  function AssignsOf(rows: map<Bytes, Row>, order: seq<Bytes>): (r: seq<Message>)
    requires forall n :: n in order ==> n in rows
    ensures |r| == |order| && forall i :: 0 <= i < |r| ==> r[i] == AssignOf(rows, order[i])
  {
    seq(|order|, i requires 0 <= i < |order| => AssignOf(rows, order[i]))
  }

  /** The start of ApplyInitialAssignments: every id is forgotten. */
  function ForgetIds(t: Table): Table {
    t.(rows := map n | n in t.rows :: t.rows[n].(id := UNASSIGNED), index := [])
  }

  /** One assignment of the server's initial batch, and the update sent back when the local value is kept. */
  function ApplyOne(t: Table, newServer: bool, rev: nat, m: Message): (Table, seq<Message>) {
    if !m.EntryAssign? || m.id == UNASSIGNED then (t, [])
    else
      var index := SetSlot(t.index, m.id, Some(m.name));
      if m.name !in t.rows then
        (t.(rows := t.rows[m.name := Row(m.value, m.flags, m.id, m.seqNum)], index := index), [])
      else
        var row := t.rows[m.name];
        if !newServer && LessEq(m.seqNum, row.seqNum) then
          (t.(rows := t.rows[m.name := row.(id := m.id)], index := index),
           [EntryUpdate(row.id, row.seqNum, row.value)])
        else
          var flags := if rev >= PROTO_3 then m.flags else row.flags;
          (t.(rows := t.rows[m.name := Row(m.value, flags, m.id, m.seqNum)], index := index), [])
  }

  function ApplyAll(t: Table, newServer: bool, rev: nat, ms: seq<Message>): (Table, seq<Message>) {
    if ms == [] then (t, [])
    else
      var (t1, us) := ApplyAll(t, newServer, rev, ms[..|ms| - 1]);
      var (t2, u) := ApplyOne(t1, newServer, rev, ms[|ms| - 1]);
      (t2, us + u)
  }

  /** The rows that still have no id. */
  function Unassigned(t: Table): set<Bytes> {
    set n | n in t.rows && t.rows[n].id == UNASSIGNED
  }

  // ---------------------------------------------------------------------------------------------
  // Index agreement
  // ---------------------------------------------------------------------------------------------

  /** Every pointer in the index leads to a live row. */
  ghost predicate LiveIndex(t: Table) {
    forall i: nat :: Lookup(t.index, i).Some? ==> Lookup(t.index, i).value in t.rows
  }

  /** The index and the rows agree: a slot is null or names the live row that carries its id, and every row with
      an id is indexed. Ids are 16-bit, and 0xffff means "none". */
  ghost predicate Linked(t: Table) {
    && |t.index| <= UNASSIGNED
    && (forall i: nat :: Lookup(t.index, i).Some? ==>
          Lookup(t.index, i).value in t.rows && t.rows[Lookup(t.index, i).value].id == i)
    && (forall n :: n in t.rows && t.rows[n].id != UNASSIGNED ==> Lookup(t.index, t.rows[n].id) == Some(n))
  }
}
