/** Updates to one entry converge whatever order they arrive in (Storage.cpp, the EntryUpdate case). */
module Updates {
  import opened Basics
  import opened Messages
  import opened Serials
  import opened Tables

  /** An update numbered by the unbounded counter of which the wire carries the low 16 bits. */
  datatype Update = Update(n: nat, value: Value)

  /** Feed `us` to the entry with id `id`, in order. */
  ghost function Deliver(t: Table, role: Role, id: nat, us: seq<Update>): (r: Table)
    requires LiveIndex(t)
    ensures r.index == t.index && r.rows.Keys == t.rows.Keys
  {
    if us == [] then t
    else
      var last := us[|us| - 1];
      ReceiveUpdate(Deliver(t, role, id, us[..|us| - 1]), role, EntryUpdate(id, Wrap(last.n), last.value)).0
  }

  ghost function Greatest(us: seq<Update>, base: nat): (r: nat)
    ensures base <= r && (forall u :: u in us ==> u.n <= r)
    ensures r == base || exists u :: u in us && u.n == r
  {
    if us == [] then base
    else
      var last := us[|us| - 1];
      var rest := Greatest(us[..|us| - 1], base);
      assert us == us[..|us| - 1] + [last];
      if last.n > rest then last.n else rest
  }

  /** All counters, the entry's own included, lie within 2^15 of one another. */
  ghost predicate InWindow(us: seq<Update>, base: nat, lo: nat) {
    lo <= base < lo + HALF && forall u :: u in us ==> lo <= u.n < lo + HALF
  }

  /** A counter is used for one value only. */
  ghost predicate OneWriter(us: seq<Update>) {
    forall u, w :: u in us && w in us && u.n == w.n ==> u == w
  }

  /** The table after the entry has settled on the update with counter `n`. */
  ghost function Settled(t: Table, name: Bytes, base: nat, n: nat, value: Value): Table
    requires name in t.rows
  {
    if n == base then t
    else
      var row := t.rows[name];
      t.(rows := t.rows[name := row.(value := value, seqNum := Wrap(n))], dirty := t.dirty || Persistent(row.flags))
  }

  /** Each accepted update moves the entry's counter forward, each refused one is not ahead of it. */
  lemma AcceptedIsAhead(t: Table, role: Role, id: nat, name: Bytes, u: Update, now: nat)
    requires LiveIndex(t) && Lookup(t.index, id) == Some(name) && t.rows[name].seqNum == Wrap(now)
    requires u.n < now + HALF && now < u.n + HALF
    ensures ReceiveUpdate(t, role, EntryUpdate(id, Wrap(u.n), u.value)).0 ==
      if u.n > now then Settled(t, name, now, u.n, u.value) else t
  {
    WindowOrder(u.n, now);
  }

  /** Whatever the order and however often each update is repeated, the entry ends with the update of the greatest
      counter, and nothing else in the table changes. */
  lemma {:induction false} GreatestWins(t: Table, role: Role, id: nat, name: Bytes, us: seq<Update>, base: nat, lo: nat)
    requires LiveIndex(t) && Lookup(t.index, id) == Some(name) && t.rows[name].seqNum == Wrap(base)
    requires InWindow(us, base, lo) && OneWriter(us)
    ensures var n := Greatest(us, base);
      && (n == base ==> Deliver(t, role, id, us) == t)
      && (forall u :: u in us && u.n == n && n != base ==> Deliver(t, role, id, us) == Settled(t, name, base, n, u.value))
  {
    if us != [] {
      var init, last := us[..|us| - 1], us[|us| - 1];
      assert us == init + [last];
      GreatestWins(t, role, id, name, init, base, lo);
      var n := Greatest(init, base);
      var t1 := Deliver(t, role, id, init);
      var now := if n == base then t else Settled(t, name, base, n, (var u :| u in init && u.n == n; u.value));
      assert t1 == now && t1.rows[name].seqNum == Wrap(n);
      AcceptedIsAhead(t1, role, id, name, last, n);
      assert Deliver(t, role, id, us) == if last.n > n then Settled(t1, name, n, last.n, last.value) else t1;
      if last.n > n {
        SettledTwice(t, name, base, n, if n == base then last.value else t1.rows[name].value, last.n, last.value);
      }
    }
  }

  lemma SettledTwice(t: Table, name: Bytes, base: nat, m: nat, v: Value, n: nat, w: Value)
    requires name in t.rows && base <= m < n
    ensures Settled(Settled(t, name, base, m, v), name, m, n, w) == Settled(t, name, base, n, w)
  {
    var t1 := Settled(t, name, base, m, v);
    assert Settled(t1, name, m, n, w).rows == Settled(t, name, base, n, w).rows;
  }

  /** Two delivery histories of the same updates leave the same table. */
  lemma OrderIrrelevant(t: Table, role: Role, id: nat, name: Bytes, us: seq<Update>, ws: seq<Update>, base: nat,
                        lo: nat)
    requires LiveIndex(t) && Lookup(t.index, id) == Some(name) && t.rows[name].seqNum == Wrap(base)
    requires InWindow(us, base, lo) && OneWriter(us)
    requires forall u :: u in us <==> u in ws
    ensures Deliver(t, role, id, us) == Deliver(t, role, id, ws)
  {
    GreatestWins(t, role, id, name, us, base, lo);
    GreatestWins(t, role, id, name, ws, base, lo);
    var n := Greatest(us, base);
    assert n == Greatest(ws, base);
    if n != base {
      var u :| u in us && u.n == n;
    }
  }

  /** The window is as wide as it can be: with counters 2^15 apart the order of arrival decides. */
  lemma WiderWindowFails(t: Table, role: Role, id: nat, name: Bytes, base: nat, v: Value, w: Value)
    requires LiveIndex(t) && Lookup(t.index, id) == Some(name) && t.rows[name].seqNum == Wrap(base)
    ensures var near, far := Update(base + 1, v), Update(base + 1 + HALF, w);
      Deliver(t, role, id, [near, far]) != Deliver(t, role, id, [far, near])
  {
    var near, far := Update(base + 1, v), Update(base + 1 + HALF, w);
    WrapDistance(base, near.n);
    WrapDistance(base, far.n);
    WrapDistance(near.n, far.n);
    BehindIsDistance(Wrap(base), Wrap(near.n));
    BehindIsDistance(Wrap(base), Wrap(far.n));
    BehindIsDistance(Wrap(near.n), Wrap(far.n));
    assert [near, far][..1] == [near] && [far, near][..1] == [far];
    assert [near][..0] == [] && [far][..0] == [];
    var t1 := Deliver(t, role, id, [near]);
    assert t1 == ReceiveUpdate(Deliver(t, role, id, []), role, EntryUpdate(id, Wrap(near.n), v)).0;
    assert t1.rows[name].seqNum == Wrap(near.n);
    assert Deliver(t, role, id, [near, far]).rows[name].seqNum == Wrap(far.n);
    assert Deliver(t, role, id, [far]) == ReceiveUpdate(Deliver(t, role, id, []), role, EntryUpdate(id, Wrap(far.n), w)).0 == t;
    assert Deliver(t, role, id, [far, near]).rows[name].seqNum == Wrap(near.n);
    assert Wrap(near.n) != Wrap(far.n);
  }
}
