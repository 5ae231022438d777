/** What one server operation tells a listening client, and what one message does to the client: the two sides of
    replication, id by id. */
module Mirror {
  import opened Basics
  import opened Messages
  import opened Serials
  import opened Tables
  import opened TableRuns

  const SERVER := Role(true, true)
  const CLIENT := Role(false, true)

  /** What users see of an entry. */
  datatype Face = Face(name: Bytes, value: Value, flags: nat)

  /** An entry as one side holds it under an id. */
  datatype Cell = Cell(face: Face, seqNum: Serial)

  function CellAt(t: Table, id: nat): Option<Cell>
    requires LiveIndex(t)
  {
    match Lookup(t.index, id)
    case None => None
    case Some(n) => Some(Cell(Face(n, t.rows[n].value, t.rows[n].flags), t.rows[n].seqNum))
  }

  function FaceOf(c: Option<Cell>): Option<Face> {
    if c.Some? then Some(c.value.face) else None
  }

  /** Every row has an id. */
  ghost predicate AllAssigned(t: Table) {
    forall n :: n in t.rows ==> t.rows[n].id != UNASSIGNED
  }

  // ---------------------------------------------------------------------------------------------
  // The server's side
  // ---------------------------------------------------------------------------------------------

  /** The server's table as users see it, by id, and the number of ids given out. */
  datatype View = View(faces: map<nat, Face>, size: nat)
  {
    function At(id: nat): Option<Face> {
      if id in faces then Some(faces[id]) else None
    }

    /** No two ids share a name, and ids are 16-bit. */
    ghost predicate Distinct() {
      && size <= UNASSIGNED
      && (forall i :: i in faces ==> i < size)
      && (forall i, j :: i in faces && j in faces && faces[i].name == faces[j].name ==> i == j)
    }
  }

  ghost function ViewOf(t: Table): View
    requires LiveIndex(t)
  {
    View(map i: nat | i < |t.index| && CellAt(t, i).Some? :: CellAt(t, i).value.face, |t.index|)
  }

  /** The meaning of a message, serials aside: the face of id `i` once `m` has been taken in full. */
  function Absorb(f: Option<Face>, i: nat, m: Message): Option<Face> {
    match m
    case EntryAssign(name, id, _, value, flags) => if id == i then Some(Face(name, value, flags)) else f
    case EntryUpdate(id, _, value) => if id == i && f.Some? then Some(f.value.(value := value)) else f
    case FlagsUpdate(id, flags) => if id == i && f.Some? then Some(f.value.(flags := flags)) else f
    case EntryDelete(id) => if id == i then None else f
    case ClearEntries => if f.Some? && Persistent(f.value.flags) then f else None
    case _ => f
  }

  /** `u` is `v` after `m` has been taken in full. */
  ghost predicate Tells(v: View, m: Message, u: View) {
    && (forall i: nat :: u.At(i) == Absorb(v.At(i), i, m))
    && u.size == if m.EntryAssign? && m.id == v.size then v.size + 1 else v.size
  }

  /** `m` is something the server may say when its table is `v`. */
  ghost predicate Legal(v: View, m: Message) {
    match m
    case EntryAssign(name, id, _, _, _) =>
      id < UNASSIGNED &&
      ((id == v.size && forall i :: i in v.faces ==> v.faces[i].name != name) || (id in v.faces && v.faces[id].name == name))
    case EntryUpdate(id, _, _) => id in v.faces
    case FlagsUpdate(id, _) => id in v.faces
    case EntryDelete(id) => id in v.faces
    case ClearEntries => true
    case _ => false
  }

  /** The messages `out` are legal one after the other and lead from `v` to `u`. */
  ghost predicate Story(v: View, out: seq<Out>, u: View)
    decreases |out|
  {
    if out == [] then u == v
    else exists w :: Legal(v, out[0].msg) && Tells(v, out[0].msg, w) && Story(w, out[1..], u)
  }

  lemma OneMessage(v: View, o: Out, u: View)
    requires Legal(v, o.msg) && Tells(v, o.msg, u)
    ensures Story(v, [o], u)
  {
    assert Story(u, [o][1..], u);
  }

  lemma ViewIsDistinct(t: Table)
    requires Linked(t) && AllAssigned(t)
    ensures ViewOf(t).Distinct()
    ensures forall n :: n in t.rows ==>
      t.rows[n].id in ViewOf(t).faces && ViewOf(t).faces[t.rows[n].id] == Face(n, t.rows[n].value, t.rows[n].flags)
    ensures forall i: nat :: ViewOf(t).At(i) == FaceOf(CellAt(t, i))
  {
    var v := ViewOf(t);
    forall n | n in t.rows
      ensures t.rows[n].id in v.faces && v.faces[t.rows[n].id] == Face(n, t.rows[n].value, t.rows[n].flags)
    {
      assert Lookup(t.index, t.rows[n].id) == Some(n);
    }
    forall i, j | i in v.faces && j in v.faces && v.faces[i].name == v.faces[j].name
      ensures i == j
    {
      assert Lookup(t.index, i) == Some(v.faces[i].name) && Lookup(t.index, j) == Some(v.faces[j].name);
    }
  }

  /** The view after one row was written under its id. */
  lemma RowWritten(t: Table, t': Table, name: Bytes)
    requires Linked(t) && Linked(t') && AllAssigned(t)
    requires name in t'.rows && t'.rows == t.rows[name := t'.rows[name]]
    requires var id := t'.rows[name].id;
      if name in t.rows then id == t.rows[name].id && t'.index == t.index
      else id == |t.index| && t'.index == t.index + [Some(name)]
    ensures AllAssigned(t')
    ensures var row := t'.rows[name];
      ViewOf(t') == View(ViewOf(t).faces[row.id := Face(name, row.value, row.flags)], |t'.index|)
  {
    var v, v', row := ViewOf(t), ViewOf(t'), t'.rows[name];
    assert row.id < |t'.index| && t'.index[row.id] == Some(name) by {
      if name in t.rows {
        IdInIndex(t, name);
      }
    }
    forall i: nat | i != row.id
      ensures i in v'.faces <==> i in v.faces
      ensures i in v'.faces ==> v'.faces[i] == v.faces[i]
    {
      if i < |t.index| && t.index[i].Some? {
        SlotsDiffer(t, t', name, i);
      }
    }
    assert CellAt(t', row.id).Some?;
    assert v'.faces == v.faces[row.id := Face(name, row.value, row.flags)];
  }

  lemma SlotsDiffer(t: Table, t': Table, name: Bytes, i: nat)
    requires Linked(t) && Linked(t') && name in t'.rows && i != t'.rows[name].id && i < |t.index| && t.index[i].Some?
    requires t'.rows == t.rows[name := t'.rows[name]]
    requires if name in t.rows then t'.rows[name].id == t.rows[name].id && t'.index == t.index
      else t'.index == t.index + [Some(name)]
    ensures CellAt(t', i) == CellAt(t, i) && t.index[i].value != name
  {
    assert Lookup(t.index, i) == t.index[i];
    assert Lookup(t'.index, i) == t.index[i];
  }

  /** `out` tells how the table went from `t` to `t'`. */
  ghost predicate Told(t: Table, t': Table, out: seq<Out>)
    requires LiveIndex(t)
  {
    LiveIndex(t') && AllAssigned(t') && Story(ViewOf(t), out, ViewOf(t'))
  }

  /** Whatever a server does, the messages it broadcasts tell exactly what happened to its table. */
  lemma ServerTells(t: Table, op: Op)
    requires Linked(t) && AllAssigned(t) && |Step(t, SERVER, op).0.index| <= UNASSIGNED
    ensures var (t', out) := Step(t, SERVER, op);
      Linked(t') && Told(t, t', out)
  {
    var (t', out) := Step(t, SERVER, op);
    StepKeepsLinked(t, SERVER, op);
    match op {
      case OpSnapshot(_) => assert ViewOf(t') == ViewOf(t);
      case OpSetFlags(name, flags) => FlagsTell(t, name, flags);
      case OpDelete(name) => DeleteTells(t, name);
      case OpDeleteAll => ClearTells(t);
      case OpReceive(rev, msg) => ReceiveTells(t, rev, msg);
      case _ => WriteTells(t, op);
    }
  }

  lemma FlagsTell(t: Table, name: Bytes, flags: nat)
    requires Linked(t) && AllAssigned(t) && Linked(SetFlags(t, SERVER, name, flags).0)
    ensures var (t', out) := SetFlags(t, SERVER, name, flags);
      Told(t, t', out)
  {
    var (t', out) := SetFlags(t, SERVER, name, flags);
    if out != [] {
      WordingTells(t, t', name, out);
    }
  }

  /** The ways a write to one row shows itself: not at all, as an assignment, as an update, as a flags update, or as
      the last two together. */
  ghost predicate Wording(before: Option<Row>, name: Bytes, row: Row, out: seq<Out>) {
    || (|out| == 1 && out[0].msg == EntryAssign(name, row.id, row.seqNum, row.value, row.flags)
        && (before.Some? ==> row.id == before.value.id))
    || (before.Some? && row.id == before.value.id
        && (|| (out == [] && row.value == before.value.value && row.flags == before.value.flags)
            || (|out| == 1 && out[0].msg == EntryUpdate(row.id, row.seqNum, row.value) && row.flags == before.value.flags)
            || (|out| == 1 && out[0].msg == FlagsUpdate(row.id, row.flags) && row.value == before.value.value)
            || (|out| == 2 && out[0].msg == EntryUpdate(row.id, row.seqNum, row.value)
                && out[1].msg == FlagsUpdate(row.id, row.flags))))
  }

  lemma WriteWording(t: Table, op: Op)
    requires Linked(t) && AllAssigned(t)
    requires op.OpSetDefault? || op.OpSetValue? || op.OpSetTypeValue? || op.OpCreateRpc? || op.OpLoad?
    ensures var (t', out) := Step(t, SERVER, op);
      if t' == t && out == [] then true
      else op.name in t'.rows &&
           Wording(if op.name in t.rows then Some(t.rows[op.name]) else None, op.name, t'.rows[op.name], out)
  {
  }

  /** Default, typed and untyped writes, RPC definitions and loads. */
  lemma WriteTells(t: Table, op: Op)
    requires Linked(t) && AllAssigned(t) && Linked(Step(t, SERVER, op).0)
    requires op.OpSetDefault? || op.OpSetValue? || op.OpSetTypeValue? || op.OpCreateRpc? || op.OpLoad?
    ensures var (t', out) := Step(t, SERVER, op);
      Told(t, t', out)
  {
    var (t', out) := Step(t, SERVER, op);
    if t' != t || out != [] {
      WriteWording(t, op);
      WritesOneRow(t, SERVER, op);
      if t' == t {
        assert t.rows == t.rows[op.name := t.rows[op.name]];
      }
      WordingTells(t, t', op.name, out);
    }
  }

  lemma WordingTells(t: Table, t': Table, name: Bytes, out: seq<Out>)
    requires Linked(t) && Linked(t') && AllAssigned(t)
    requires name in t'.rows && t'.rows == t.rows[name := t'.rows[name]]
    requires var id := t'.rows[name].id;
      if name in t.rows then id == t.rows[name].id && t'.index == t.index
      else id == |t.index| && t'.index == t.index + [Some(name)]
    requires Wording(if name in t.rows then Some(t.rows[name]) else None, name, t'.rows[name], out)
    ensures Told(t, t', out)
  {
    RowWritten(t, t', name);
    ViewIsDistinct(t);
    FaceWritten(ViewOf(t), ViewOf(t'), name, t'.rows[name], if name in t.rows then Some(t.rows[name]) else None, out);
  }

  lemma FaceWritten(v: View, u: View, name: Bytes, row: Row, before: Option<Row>, out: seq<Out>)
    requires u == View(v.faces[row.id := Face(name, row.value, row.flags)], if before.Some? then v.size else v.size + 1)
    requires row.id < UNASSIGNED
    requires if before.Some? then
               row.id < v.size && row.id in v.faces && v.faces[row.id] == Face(name, before.value.value, before.value.flags)
             else row.id == v.size && row.id !in v.faces && forall i :: i in v.faces ==> v.faces[i].name != name
    requires Wording(before, name, row, out)
    ensures Story(v, out, u)
  {
    if out == [] {
      assert u == v;
    } else if |out| == 1 {
      OneMessage(v, out[0], u);
    } else {
      var w := v.(faces := v.faces[row.id := Face(name, row.value, before.value.flags)]);
      assert Legal(v, out[0].msg) && Tells(v, out[0].msg, w);
      OneMessage(w, out[1], u);
      assert out[1..] == [out[1]];
    }
  }

  lemma DeleteTells(t: Table, name: Bytes)
    requires Linked(t) && AllAssigned(t) && Linked(Delete(t, SERVER, name).0)
    ensures var (t', out) := Delete(t, SERVER, name);
      Told(t, t', out)
  {
    var (t', out) := Delete(t, SERVER, name);
    if out != [] {
      ViewIsDistinct(t);
      IdInIndex(t, name);
      RowGone(t, t', name);
      OneMessage(ViewOf(t), out[0], ViewOf(t'));
    }
  }

  lemma RowGone(t: Table, t': Table, name: Bytes)
    requires Linked(t) && Linked(t') && AllAssigned(t) && name in t.rows
    requires t'.rows == t.rows - {name} && t.rows[name].id < |t.index| && t'.index == t.index[t.rows[name].id := None]
    ensures AllAssigned(t') && Tells(ViewOf(t), EntryDelete(t.rows[name].id), ViewOf(t'))
  {
    ViewIsDistinct(t);
    ViewIsDistinct(t');
    var id := t.rows[name].id;
    forall i: nat
      ensures ViewOf(t').At(i) == if i == id then None else ViewOf(t).At(i)
    {
      assert Lookup(t'.index, i) == if i == id then None else Lookup(t.index, i);
    }
  }

  lemma ClearMoves(t: Table)
    requires Linked(t) && AllAssigned(t)
    ensures AllAssigned(ClearRows(t)) && Linked(ClearRows(t)) && Tells(ViewOf(t), ClearEntries, ViewOf(ClearRows(t)))
  {
    var t' := ClearRows(t);
    ClearLinked(t);
    ViewIsDistinct(t);
    ViewIsDistinct(t');
    forall i: nat
      ensures ViewOf(t').At(i) == Absorb(ViewOf(t).At(i), i, ClearEntries)
    {
      assert Lookup(t.index, i).Some? ==> Lookup(t.index, i).value in t.rows;
    }
  }

  lemma ClearTells(t: Table)
    requires Linked(t) && AllAssigned(t)
    ensures var (t', out) := DeleteAll(t, SERVER);
      Told(t, t', out)
    ensures AllAssigned(ClearRows(t)) && Linked(ClearRows(t)) && Tells(ViewOf(t), ClearEntries, ViewOf(ClearRows(t)))
  {
    hide ViewOf, Lookup, ClearRows, Absorb;
    ClearMoves(t);
    if t.rows != map[] {
      OneMessage(ViewOf(t), Out(ClearEntries, false), ViewOf(ClearRows(t)));
    }
  }

  lemma ReceiveTells(t: Table, rev: nat, m: Message)
    requires Linked(t) && AllAssigned(t) && Linked(Receive(t, SERVER, rev, m).0)
    ensures var (t', out) := Receive(t, SERVER, rev, m);
      Told(t, t', out)
  {
    var (t', out) := Receive(t, SERVER, rev, m);
    match m {
      case EntryAssign(_, _, _, _, _) => AssignTells(t, rev, m);
      case EntryUpdate(id, _, _) =>
        if out != [] {
          assert Lookup(t.index, id).Some?;
          WordingTells(t, t', t.index[id].value, out);
        }
      case FlagsUpdate(id, _) =>
        if out != [] {
          assert Lookup(t.index, id).Some?;
          WordingTells(t, t', t.index[id].value, out);
        }
      case EntryDelete(id) =>
        if out != [] {
          assert Lookup(t.index, id).Some?;
          ViewIsDistinct(t);
          RowGone(t, t', t.index[id].value);
          OneMessage(ViewOf(t), out[0], ViewOf(t'));
        }
      case ClearEntries =>
        ClearTells(t);
        OneMessage(ViewOf(t), out[0], ViewOf(t'));
      case _ =>
    }
  }

  lemma AssignTells(t: Table, rev: nat, m: Message)
    requires m.EntryAssign? && Linked(t) && AllAssigned(t) && Linked(ReceiveAssign(t, SERVER, rev, m).0)
    ensures var (t', out) := ReceiveAssign(t, SERVER, rev, m);
      Told(t, t', out)
  {
    var (t', out) := ReceiveAssign(t, SERVER, rev, m);
    if out != [] {
      var name := if m.id == UNASSIGNED then m.name else t.index[m.id].value;
      assert m.id != UNASSIGNED ==> Lookup(t.index, m.id) == Some(name);
      WordingTells(t, t', name, out);
    } else if m.id != UNASSIGNED && Lookup(t.index, m.id).Some? {
      assert t'.rows == t.rows;
      assert ViewOf(t') == ViewOf(t);
    }
  }

  // ---------------------------------------------------------------------------------------------
  // The client's side
  // ---------------------------------------------------------------------------------------------

  /** A client whose row carries serial `s` takes the value in `m`. */
  predicate Accepts(s: Serial, m: Message)
    requires m.EntryAssign? || m.EntryUpdate?
  {
    if m.EntryAssign? then !Less(m.seqNum, s) else !LessEq(m.seqNum, s)
  }

  /** What a client holds under id `i` after `m`. An entry created by an assignment starts at serial 0, whatever the
      assignment's own serial. */
  function Take(c: Option<Cell>, i: nat, m: Message): Option<Cell> {
    match m
    case EntryAssign(name, id, s, value, flags) =>
      if id != i then c
      else if c.None? then Some(Cell(Face(name, value, flags), 0))
      else if Accepts(c.value.seqNum, m) && name == c.value.face.name then Some(Cell(Face(name, value, flags), s))
      else c
    case EntryUpdate(id, s, value) =>
      if id == i && c.Some? && Accepts(c.value.seqNum, m) then Some(Cell(c.value.face.(value := value), s)) else c
    case FlagsUpdate(id, flags) =>
      if id == i && c.Some? then Some(c.value.(face := c.value.face.(flags := flags))) else c
    case EntryDelete(id) => if id == i then None else c
    case ClearEntries => if c.Some? && Persistent(c.value.face.flags) then c else None
    case _ => c
  }

  /** `m` creates no second entry under a name in use. */
  ghost predicate NameFree(t: Table, m: Message)
    requires LiveIndex(t)
  {
    m.EntryAssign? ==> m.id < UNASSIGNED && (CellAt(t, m.id).None? ==> m.name !in t.rows)
  }

  /** A listening client with only assigned rows does id by id what Take says, and answers nothing. */
  lemma ClientTakes(t: Table, m: Message)
    requires Linked(t) && AllAssigned(t) && NameFree(t, m)
    ensures var (t', out) := Receive(t, CLIENT, PROTO_3, m);
      && Linked(t') && AllAssigned(t') && out == []
      && forall i: nat :: CellAt(t', i) == Take(CellAt(t, i), i, m)
  {
    var (t', out) := Receive(t, CLIENT, PROTO_3, m);
    match m {
      case EntryAssign(_, _, _, _, _) => AssignTaken(t, m);
      case ClearEntries =>
        ClearLinked(t);
        forall i: nat
          ensures CellAt(t', i) == Take(CellAt(t, i), i, m)
        {
          assert Lookup(t.index, i).Some? ==> Lookup(t.index, i).value in t.rows;
        }
      case EntryDelete(id) =>
        DeleteKeepsLinked(t, CLIENT, m);
        forall i: nat
          ensures CellAt(t', i) == Take(CellAt(t, i), i, m)
        {
          assert Lookup(t.index, id).Some? ==> Lookup(t'.index, i) == if i == id then None else Lookup(t.index, i);
        }
      case EntryUpdate(id, _, _) => OthersKeep(t, t', id);
      case FlagsUpdate(id, _) => OthersKeep(t, t', id);
      case _ =>
    }
  }

  /** Writing the row of id `id` leaves the cells of other ids alone. */
  lemma OthersKeep(t: Table, t': Table, id: nat)
    requires Linked(t) && LiveIndex(t') && t'.index == t.index
    requires Lookup(t.index, id).None? ==> t'.rows == t.rows
    requires Lookup(t.index, id).Some? ==>
      var n := Lookup(t.index, id).value; n in t'.rows && t'.rows == t.rows[n := t'.rows[n]]
    ensures forall i: nat :: i != id ==> CellAt(t', i) == CellAt(t, i)
  {
  }

  lemma AssignTaken(t: Table, m: Message)
    requires m.EntryAssign? && Linked(t) && AllAssigned(t) && NameFree(t, m)
    ensures var (t', out) := ReceiveAssign(t, CLIENT, PROTO_3, m);
      && Linked(t') && AllAssigned(t') && out == []
      && forall i: nat :: CellAt(t', i) == Take(CellAt(t, i), i, m)
  {
    var (t', out) := ReceiveAssign(t, CLIENT, PROTO_3, m);
    AssignKeepsLinked(t, CLIENT, PROTO_3, m);
    forall i: nat
      ensures CellAt(t', i) == Take(CellAt(t, i), i, m)
    {
      assert Lookup(t'.index, i) == if i == m.id && Lookup(t.index, i).None? then Some(m.name) else Lookup(t.index, i);
      if i != m.id && Lookup(t.index, i).Some? && Lookup(t.index, m.id).Some? {
        assert Lookup(t.index, i).value != Lookup(t.index, m.id).value;
      }
    }
  }
}
