/**
  A server, one client that only listens, and the merging queue and wire between them. Each id is followed through
  the batches already posted (`wire`) and the batch still being merged (`pending`).
 */
module Replica {
  import opened Basics
  import opened Messages
  import opened Tables
  import opened TableRuns
  import opened OutgoingQueue
  import opened Mirror

  // ---------------------------------------------------------------------------------------------
  // A cell under a list of messages
  // ---------------------------------------------------------------------------------------------

  /** What the client holds under id `i` once `slots` have arrived; reset slots are never sent. */
  ghost function TakeAll(c: Option<Cell>, i: nat, slots: seq<Option<Message>>): Option<Cell> {
    if slots == [] then c
    else
      var before := TakeAll(c, i, slots[..|slots| - 1]);
      var last := slots[|slots| - 1];
      if last.Some? then Take(before, i, last.value) else before
  }

  /** A slot that cannot touch the cell of id `i`. */
  predicate Foreign(slot: Option<Message>, i: nat) {
    slot.None? || !AboutTable(slot.value) || (!slot.value.ClearEntries? && slot.value.id != i)
  }

  lemma {:induction false} TakeAllSplits(c: Option<Cell>, i: nat, xs: seq<Option<Message>>, ys: seq<Option<Message>>)
    ensures TakeAll(c, i, xs + ys) == TakeAll(TakeAll(c, i, xs), i, ys)
    decreases |ys|
  {
    if ys == [] {
      assert xs + ys == xs;
    } else {
      assert (xs + ys)[..|xs + ys| - 1] == xs + ys[..|ys| - 1];
      TakeAllSplits(c, i, xs, ys[..|ys| - 1]);
    }
  }

  /** Foreign slots in a row can be skipped. */
  lemma {:induction false} SkipForeign(c: Option<Cell>, i: nat, slots: seq<Option<Message>>, lo: nat, hi: nat)
    requires lo <= hi <= |slots|
    requires forall k :: lo <= k < hi ==> Foreign(slots[k], i)
    ensures TakeAll(c, i, slots[..hi]) == TakeAll(c, i, slots[..lo])
    decreases hi
  {
    if lo < hi {
      assert slots[..hi][..hi - 1] == slots[..hi - 1];
      SkipForeign(c, i, slots, lo, hi - 1);
    }
  }

  /** Slots `lo` to `hi` hold one message about `i` at most, at `p`. */
  lemma OneSlot(c: Option<Cell>, i: nat, slots: seq<Option<Message>>, lo: nat, p: nat, hi: nat)
    requires lo <= p < hi <= |slots| && slots[p].Some?
    requires forall k :: lo <= k < hi && k != p ==> Foreign(slots[k], i)
    ensures TakeAll(c, i, slots[..hi]) == Take(TakeAll(c, i, slots[..lo]), i, slots[p].value)
  {
    SkipForeign(c, i, slots, lo, p);
    SkipForeign(c, i, slots, p + 1, hi);
    assert slots[..p + 1][..p] == slots[..p];
  }

  /** Two lists that differ only in slots foreign to `i` do the same to its cell. */
  lemma {:induction false} SameForOthers(c: Option<Cell>, i: nat, xs: seq<Option<Message>>, ys: seq<Option<Message>>)
    requires |xs| <= |ys|
    requires forall k :: 0 <= k < |xs| ==> xs[k] == ys[k] || (Foreign(xs[k], i) && Foreign(ys[k], i))
    requires forall k :: |xs| <= k < |ys| ==> Foreign(ys[k], i)
    ensures TakeAll(c, i, xs) == TakeAll(c, i, ys)
    decreases |xs|
  {
    SkipForeign(c, i, ys, |xs|, |ys|);
    assert ys[..|ys|] == ys;
    if xs != [] {
      var n := |xs| - 1;
      SameForOthers(c, i, xs[..n], ys[..n]);
      assert ys[..n + 1][..n] == ys[..n];
    }
  }

  // ---------------------------------------------------------------------------------------------
  // The pending batch
  // ---------------------------------------------------------------------------------------------

  ghost predicate HasClear(slots: seq<Option<Message>>) {
    exists z :: 0 <= z < |slots| && slots[z] == Some(ClearEntries)
  }

  /** A slot fits a server whose table is `v`: values and flags are about live entries under their own names,
      deletions about dead ones, and a clear has nothing about the table before it. */
  ghost predicate SlotFits(v: View, slots: seq<Option<Message>>, k: nat)
    requires k < |slots|
  {
    slots[k].Some? ==>
      match slots[k].value
      case EntryAssign(name, id, _, _, _) => id in v.faces && v.faces[id].name == name
      case EntryUpdate(id, _, _) => id in v.faces
      case FlagsUpdate(id, _) => id in v.faces
      case EntryDelete(id) => id < v.size && id !in v.faces
      case ClearEntries => forall j :: 0 <= j < k ==> slots[j].None? || !AboutTable(slots[j].value)
      case _ => true
  }

  /** The cell beneath the pending values: a clear at the head of the batch has already been taken. */
  ghost function Under(c: Option<Cell>, i: nat, slots: seq<Option<Message>>): Option<Cell> {
    if HasClear(slots) then Take(c, i, ClearEntries) else c
  }

  /** The pending value and flags of `i` laid over `c`, in the order of their slots. */
  ghost function Over(c: Option<Cell>, i: nat, q: Pending): Option<Cell>
    requires MarkedAt(q, i)
  {
    var mark := Mark(q.marks, i);
    var value := if mark.0 != 0 then q.slots[mark.0 - 1] else None;
    var flags := if mark.1 != 0 then q.slots[mark.1 - 1] else None;
    var first, second := if mark.0 < mark.1 then value else flags, if mark.0 < mark.1 then flags else value;
    var c1 := if first.Some? then Take(c, i, first.value) else c;
    if second.Some? then Take(c1, i, second.value) else c1
  }

  lemma ClearFirst(c: Option<Cell>, v: View, i: nat, slots: seq<Option<Message>>) returns (z: nat)
    requires forall k :: 0 <= k < |slots| ==> SlotFits(v, slots, k)
    ensures z <= |slots| && TakeAll(c, i, slots[..z]) == Under(c, i, slots)
    ensures forall k :: 0 <= k < z ==> slots[k] == Some(ClearEntries) || slots[k].None? || !AboutTable(slots[k].value)
    ensures forall k :: z <= k < |slots| ==> slots[k] != Some(ClearEntries)
  {
    if HasClear(slots) {
      var p :| 0 <= p < |slots| && slots[p] == Some(ClearEntries);
      assert SlotFits(v, slots, p);
      forall k | p < k < |slots|
        ensures slots[k] != Some(ClearEntries)
      {
        assert SlotFits(v, slots, k);
      }
      OneSlot(c, i, slots, 0, p, p + 1);
      z := p + 1;
    } else {
      z := 0;
    }
  }

  lemma TwoSlots(c: Option<Cell>, i: nat, slots: seq<Option<Message>>, z: nat, p: nat, r: nat)
    requires z <= p < r < |slots| && slots[p].Some? && slots[r].Some?
    requires forall k :: z <= k < |slots| && k != p && k != r ==> Foreign(slots[k], i)
    ensures TakeAll(c, i, slots) == Take(Take(TakeAll(c, i, slots[..z]), i, slots[p].value), i, slots[r].value)
  {
    OneSlot(c, i, slots, z, p, p + 1);
    OneSlot(c, i, slots, p + 1, r, |slots|);
    assert slots[..|slots|] == slots;
  }

  /** From slot `z` on, only the marked slots are about `i`; what is before `z` leads to `base`. */
  ghost predicate Behind(c: Option<Cell>, i: nat, q: Pending, z: nat, base: Option<Cell>) {
    var mark := Mark(q.marks, i);
    && z <= |q.slots| && TakeAll(c, i, q.slots[..z]) == base
    && MarkedAt(q, i)
    && (mark.0 != 0 ==> mark.0 > z) && (mark.1 != 0 ==> mark.1 > z)
    && forall k :: z <= k < |q.slots| && k + 1 != mark.0 && k + 1 != mark.1 ==> Foreign(q.slots[k], i)
  }

  /** The batch as the id sees it. */
  lemma WholeBatch(c: Option<Cell>, i: nat, q: Pending, z: nat, base: Option<Cell>)
    requires Behind(c, i, q, z, base)
    ensures TakeAll(c, i, q.slots) == Over(base, i, q)
  {
    hide Take;
    var mark := Mark(q.marks, i);
    assert q.slots[..|q.slots|] == q.slots;
    assert mark.0 != 0 ==> IsValueOf(q.slots[mark.0 - 1], i);
    assert mark.1 != 0 ==> IsFlagsOf(q.slots[mark.1 - 1], i);
    if mark.0 == 0 && mark.1 == 0 {
      SkipForeign(c, i, q.slots, z, |q.slots|);
    } else if mark.0 == 0 {
      OneSlot(c, i, q.slots, z, mark.1 - 1, |q.slots|);
    } else if mark.1 == 0 {
      OneSlot(c, i, q.slots, z, mark.0 - 1, |q.slots|);
    } else if mark.0 < mark.1 {
      TwoSlots(c, i, q.slots, z, mark.0 - 1, mark.1 - 1);
    } else {
      assert mark.0 != mark.1;
      TwoSlots(c, i, q.slots, z, mark.1 - 1, mark.0 - 1);
    }
  }

  /** Where the messages about a live entry are. */
  lemma LiveSlots(c: Option<Cell>, v: View, i: nat, q: Pending) returns (z: nat)
    requires MarkedAt(q, i) && i in v.faces
    requires forall k :: 0 <= k < |q.slots| ==> SlotFits(v, q.slots, k)
    ensures Behind(c, i, q, z, Under(c, i, q.slots))
  {
    z := ClearFirst(c, v, i, q.slots);
    var mark := Mark(q.marks, i);
    assert mark.0 != 0 ==> IsValueOf(q.slots[mark.0 - 1], i);
    assert mark.1 != 0 ==> IsFlagsOf(q.slots[mark.1 - 1], i);
    forall k | z <= k < |q.slots| && k + 1 != Mark(q.marks, i).0 && k + 1 != Mark(q.marks, i).1
      ensures Foreign(q.slots[k], i)
    {
      assert SlotFits(v, q.slots, k);
    }
  }

  /** The batch as a live entry sees it. */
  lemma BatchOnLive(c: Option<Cell>, v: View, i: nat, q: Pending)
    requires MarkedAt(q, i) && i in v.faces
    requires forall k :: 0 <= k < |q.slots| ==> SlotFits(v, q.slots, k)
    ensures TakeAll(c, i, q.slots) == Over(Under(c, i, q.slots), i, q)
  {
    var z := LiveSlots(c, v, i, q);
    WholeBatch(c, i, q, z, Under(c, i, q.slots));
  }

  ghost predicate Deletes(slots: seq<Option<Message>>, i: nat, hi: nat)
    requires hi <= |slots|
  {
    exists d :: 0 <= d < hi && slots[d] == Some(EntryDelete(i))
  }

  /** The batch, up to slot `hi`, as a dead id sees it: it stays as it was beneath until its deletion. */
  lemma BatchOnDead(c: Option<Cell>, v: View, i: nat, slots: seq<Option<Message>>, hi: nat)
    requires i !in v.faces && hi <= |slots|
    requires forall k :: 0 <= k < |slots| ==> SlotFits(v, slots, k)
    requires hi < |slots| ==> slots[hi].Some? && AboutTable(slots[hi].value)
    requires hi < |slots| ==> slots[hi] != Some(ClearEntries)
    ensures TakeAll(c, i, slots[..hi]) == if Deletes(slots, i, hi) then None else Under(c, i, slots)
  {
    var z := ClearFirst(c, v, i, slots);
    assert z <= hi;
    DeadFrom(c, v, i, slots, z, hi);
  }

  lemma {:induction false} DeadFrom(c: Option<Cell>, v: View, i: nat, slots: seq<Option<Message>>, z: nat, hi: nat)
    requires z <= hi <= |slots| && i !in v.faces
    requires forall k :: 0 <= k < |slots| ==> SlotFits(v, slots, k)
    requires TakeAll(c, i, slots[..z]) == Under(c, i, slots)
    requires forall k :: 0 <= k < z ==> slots[k] != Some(EntryDelete(i))
    requires forall k :: z <= k < |slots| ==> slots[k] != Some(ClearEntries)
    ensures TakeAll(c, i, slots[..hi]) == if Deletes(slots, i, hi) then None else Under(c, i, slots)
    decreases hi
  {
    if z < hi {
      DeadFrom(c, v, i, slots, z, hi - 1);
      assert slots[..hi][..hi - 1] == slots[..hi - 1];
      assert SlotFits(v, slots, hi - 1);
      if slots[hi - 1] == Some(EntryDelete(i)) {
        assert Deletes(slots, i, hi);
      } else {
        assert Foreign(slots[hi - 1], i);
        assert Deletes(slots, i, hi) <==> Deletes(slots, i, hi - 1);
      }
    }
  }

  // ---------------------------------------------------------------------------------------------
  // The queue between a server's view and a client's table
  // ---------------------------------------------------------------------------------------------

  /** What the client will hold under `i` when everything posted has arrived. */
  ghost function BaseAt(client: Table, wire: seq<Option<Message>>, i: nat): Option<Cell>
    requires LiveIndex(client)
  {
    TakeAll(CellAt(client, i), i, wire)
  }

  /** A waiting value is one the client will take. */
  ghost predicate SlotAccepted(client: Table, wire: seq<Option<Message>>, slots: seq<Option<Message>>, k: nat)
    requires k < |slots| && LiveIndex(client)
  {
    slots[k].Some? && (slots[k].value.EntryAssign? || slots[k].value.EntryUpdate?) ==>
      var under := Under(BaseAt(client, wire, slots[k].value.id), slots[k].value.id, slots);
      under.Some? ==> Accepts(under.value.seqNum, slots[k].value)
  }

  /** A waiting assignment that will create an entry comes after the deletion of whatever held its name. */
  ghost predicate SlotOrdered(client: Table, wire: seq<Option<Message>>, slots: seq<Option<Message>>, k: nat)
    requires k < |slots| && LiveIndex(client)
  {
    slots[k].Some? && slots[k].value.EntryAssign?
    && Under(BaseAt(client, wire, slots[k].value.id), slots[k].value.id, slots).None? ==>
      forall j: nat :: Holds(client, wire, slots, j, slots[k].value.name) ==> Deletes(slots, j, k)
  }

  ghost predicate Holds(client: Table, wire: seq<Option<Message>>, slots: seq<Option<Message>>, j: nat, name: Bytes)
    requires LiveIndex(client)
  {
    var under := Under(BaseAt(client, wire, j), j, slots);
    under.Some? && under.value.face.name == name
  }

  /** What is posted agrees with the server about which id has which name. */
  ghost predicate BaseFits(v: View, client: Table, wire: seq<Option<Message>>, i: nat)
    requires LiveIndex(client)
  {
    var base := BaseAt(client, wire, i);
    base.Some? ==> i < v.size && (i in v.faces ==> v.faces[i].name == base.value.face.name)
  }

  /** The client, after the posted batches and the pending one, shows what the server shows under `i`. */
  ghost predicate Caught(v: View, client: Table, wire: seq<Option<Message>>, slots: seq<Option<Message>>, i: nat)
    requires LiveIndex(client)
  {
    FaceOf(TakeAll(BaseAt(client, wire, i), i, slots)) == v.At(i)
  }

  ghost predicate FitsAt(v: View, slots: seq<Option<Message>>, k: int) {
    0 <= k < |slots| ==> SlotFits(v, slots, k)
  }

  ghost predicate QueueInv(v: View, client: Table, wire: seq<Option<Message>>, q: Pending)
    requires LiveIndex(client)
  {
    && v.Distinct()
    && Marked(q)
    && (forall k :: 0 <= k < |q.slots| ==> SlotFits(v, q.slots, k))
    && (forall k :: 0 <= k < |q.slots| ==> SlotAccepted(client, wire, q.slots, k))
    && (forall k :: 0 <= k < |q.slots| ==> SlotOrdered(client, wire, q.slots, k))
    && (forall i: nat :: BaseFits(v, client, wire, i))
    && (forall i: nat :: Caught(v, client, wire, q.slots, i))
  }

  /** Merging `m` would put it on the wrong side of a waiting flags update, or a flags update on the wrong side of a
      waiting assignment, and the two disagree on the flags. */
  predicate FlagsOvertaken(q: Pending, m: Message)
    requires Marked(q)
  {
    match m
    case EntryAssign(_, id, _, _, flags) =>
      var mark := Mark(q.marks, id);
      id != UNASSIGNED && mark.0 != 0 && mark.0 < mark.1
      && (assert MarkedAt(q, id); assert IsFlagsOf(q.slots[mark.1 - 1], id); q.slots[mark.1 - 1].value.flags != flags)
    case FlagsUpdate(id, flags) =>
      var mark := Mark(q.marks, id);
      id != UNASSIGNED && mark.1 != 0 && mark.1 < mark.0
      && (assert MarkedAt(q, id); assert IsValueOf(q.slots[mark.0 - 1], id);
          q.slots[mark.0 - 1].value.EntryAssign? && q.slots[mark.0 - 1].value.flags != flags)
    case _ => false
  }

  /** What waits for an entry once the value `m` has joined the batch. */
  function Joined(q: Pending, m: Message): (r: Message)
    requires m.EntryAssign? || m.EntryUpdate?
    ensures (r.EntryAssign? || r.EntryUpdate?) && r.id == m.id && r.seqNum == m.seqNum && r.value == m.value
  {
    var mark := Mark(q.marks, m.id);
    if 0 < mark.0 <= |q.slots| then Merge(q.slots[mark.0 - 1], m) else m
  }

  /** The client will take the value that waits once `m` is merged on top of what is posted: serials are compared with
      the last one posted, and not with those that were merged away. */
  ghost predicate WithinReach(client: Table, wire: seq<Option<Message>>, q: Pending, m: Message)
    requires LiveIndex(client)
  {
    m.EntryAssign? || m.EntryUpdate? ==>
      var under := Under(BaseAt(client, wire, m.id), m.id, q.slots);
      under.Some? ==> Accepts(under.value.seqNum, Joined(q, m))
  }

  /** A value that will be refused over `c` asks for nothing new: the value is the one beneath the batch, and its flags
      are the waiting ones or, if none wait, those beneath. */
  predicate Redundant(c: Cell, q: Pending, m: Message)
    requires Marked(q) && (m.EntryAssign? || m.EntryUpdate?)
  {
    var mark, joined := Mark(q.marks, m.id), Joined(q, m);
    var flags :=
      if m.id != UNASSIGNED && mark.1 != 0 then
        assert MarkedAt(q, m.id); assert IsFlagsOf(q.slots[mark.1 - 1], m.id); q.slots[mark.1 - 1].value.flags
      else c.face.flags;
    && m.value == c.face.value
    && (joined.EntryAssign? && (m.EntryAssign? || mark.1 < mark.0) ==> joined.flags == flags)
  }

  /** An entry that is persistent beneath the pending batch, or after it, is the same before and after. */
  ghost predicate ClearSafe(client: Table, wire: seq<Option<Message>>, q: Pending)
    requires LiveIndex(client)
  {
    forall i: nat :: PersistentKept(FaceOf(BaseAt(client, wire, i)), FaceOf(TakeAll(BaseAt(client, wire, i), i, q.slots)))
  }

  ghost predicate PersistentKept(before: Option<Face>, after: Option<Face>) {
    (before.Some? && Persistent(before.value.flags)) || (after.Some? && Persistent(after.value.flags)) ==> before == after
  }

  /** Queueing `m` does no harm: it is taken in turn or it asks for nothing new, and a clear drops nothing. */
  ghost predicate Harmless(client: Table, wire: seq<Option<Message>>, q: Pending, m: Message)
    requires LiveIndex(client) && Marked(q)
  {
    && (m.ClearEntries? ==> ClearSafe(client, wire, q))
    && (if WithinReach(client, wire, q, m) then !FlagsOvertaken(q, m)
        else Redundant(Under(BaseAt(client, wire, m.id), m.id, q.slots).value, q, m))
  }

  /** Queueing `m` keeps the client on course. */
  ghost predicate Faithful(client: Table, wire: seq<Option<Message>>, q: Pending, m: Message)
    requires LiveIndex(client) && Marked(q)
  {
    && !FlagsOvertaken(q, m)
    && WithinReach(client, wire, q, m)
    && (m.ClearEntries? ==> ClearSafe(client, wire, q))
  }

  lemma LegalKeepsDistinct(v: View, m: Message, u: View)
    requires v.Distinct() && Legal(v, m) && Tells(v, m, u)
    ensures u.Distinct() && v.size <= u.size
    ensures forall i :: i in u.faces && i in v.faces ==> u.faces[i].name == v.faces[i].name
    ensures forall i: nat :: i in u.faces && i !in v.faces ==> i == v.size && m.EntryAssign? && m.id == i
    ensures forall i: nat :: i in v.faces && i !in u.faces ==> m.ClearEntries? || (m.EntryDelete? && m.id == i)
  {
    forall i: nat
      ensures u.At(i) == Absorb(v.At(i), i, m)
    {
    }
    forall i | i in u.faces
      ensures i < u.size && (i in v.faces ==> u.faces[i].name == v.faces[i].name)
      ensures i !in v.faces ==> i == v.size && m.EntryAssign? && m.id == i && u.faces[i].name == m.name
    {
      assert u.At(i) == Absorb(v.At(i), i, m);
    }
    forall i: nat | i in v.faces && i !in u.faces
      ensures m.ClearEntries? || (m.EntryDelete? && m.id == i)
    {
      assert u.At(i) == Absorb(v.At(i), i, m);
    }
  }

  /** How queueing `m` changes the slots: one more at the end, or a merge into the slot of the same entry, or the
      reset of the slots of a deleted entry. */
  lemma EnqueueSlots(q: Pending, m: Message)
    requires Marked(q) && !m.ClearEntries?
    ensures var s, s' := q.slots, Enqueue(q, m).slots;
      && |s| <= |s'| <= |s| + 1
      && (|s'| == |s| + 1 ==> s'[|s|] == Some(m))
      && forall k :: 0 <= k < |s| && s'[k] != s[k] ==>
           && (m.EntryAssign? || m.EntryUpdate? || m.FlagsUpdate? || m.EntryDelete?) && m.id != UNASSIGNED
           && (IsValueOf(s[k], m.id) || IsFlagsOf(s[k], m.id))
           && (|| (m.EntryDelete? && s'[k] == None)
               || (m.FlagsUpdate? && IsFlagsOf(s[k], m.id) && s'[k] == Some(m))
               || ((m.EntryAssign? || m.EntryUpdate?) && IsValueOf(s[k], m.id) && s'[k] == Some(Merge(s[k], m))))
  {
    if (m.EntryAssign? || m.EntryUpdate? || m.FlagsUpdate? || m.EntryDelete?) && m.id != UNASSIGNED {
      assert MarkedAt(q, m.id);
      if m.EntryDelete? {
        ResetSlots(q, m, m.id);
      }
    }
  }

  lemma ClearKept(q: Pending, m: Message)
    requires Marked(q) && !m.ClearEntries?
    ensures HasClear(Enqueue(q, m).slots) <==> HasClear(q.slots)
  {
    EnqueueSlots(q, m);
    var s, s' := q.slots, Enqueue(q, m).slots;
    if HasClear(s) {
      var z :| 0 <= z < |s| && s[z] == Some(ClearEntries);
      assert s'[z] == Some(ClearEntries);
    }
    if HasClear(s') {
      var z :| 0 <= z < |s'| && s'[z] == Some(ClearEntries);
      assert s[z] == Some(ClearEntries);
    }
  }

  lemma SlotsStillFit(v: View, u: View, q: Pending, m: Message)
    requires Marked(q) && v.Distinct() && Legal(v, m) && Tells(v, m, u)
    requires forall k :: 0 <= k < |q.slots| ==> SlotFits(v, q.slots, k)
    ensures forall k :: 0 <= k < |Enqueue(q, m).slots| ==> SlotFits(u, Enqueue(q, m).slots, k)
  {
    var s, s' := q.slots, Enqueue(q, m).slots;
    LegalKeepsDistinct(v, m, u);
    if m.ClearEntries? {
      return;
    }
    EnqueueSlots(q, m);
    assert u.At(m.id) == Absorb(v.At(m.id), m.id, m);
    assert MarkedAt(q, m.id);
    if m.EntryDelete? {
      ResetSlots(q, m, m.id);
    }
    forall k | 0 <= k < |s'|
      ensures SlotFits(u, s', k)
    {
      assert k < |s| ==> SlotFits(v, s, k);
      if k < |s| && s'[k] == s[k] && s[k] == Some(ClearEntries) {
        forall j | 0 <= j < k
          ensures s'[j].None? || !AboutTable(s'[j].value)
        {
          assert s[j].None? || !AboutTable(s[j].value);
        }
      }
    }
  }

  /** Entries other than the one `m` is about see the same batch. */
  lemma OthersSeeTheSame(q: Pending, m: Message, c: Option<Cell>, i: nat)
    requires Marked(q) && !m.ClearEntries? && (AboutTable(m) ==> m.id != i)
    ensures TakeAll(c, i, Enqueue(q, m).slots) == TakeAll(c, i, q.slots)
  {
    EnqueueSlots(q, m);
    SameForOthers(c, i, q.slots, Enqueue(q, m).slots);
  }

  /** The pending messages about `i` are ones a client holding `c` will take, under the entry's name. */
  ghost predicate Sound(c: Option<Cell>, i: nat, q: Pending, name: Bytes)
    requires MarkedAt(q, i)
  {
    var mark := Mark(q.marks, i);
    && (c.Some? ==> c.value.face.name == name)
    && (mark.0 != 0 ==>
          && IsValueOf(q.slots[mark.0 - 1], i)
          && (q.slots[mark.0 - 1].value.EntryAssign? ==> q.slots[mark.0 - 1].value.name == name)
          && (c.Some? ==> Accepts(c.value.seqNum, q.slots[mark.0 - 1].value)))
    && (mark.1 != 0 ==> IsFlagsOf(q.slots[mark.1 - 1], i))
  }

  /** Merging a message into the batch means the same to its entry as sending it behind the batch, except exactly
      when flags are overtaken. */
  lemma MergeOnLive(c: Option<Cell>, i: nat, q: Pending, m: Message, name: Bytes)
    requires Marked(q) && i != UNASSIGNED && MarkedAt(q, i) && Sound(c, i, q, name) && Over(c, i, q).Some?
    requires (m.EntryAssign? || m.EntryUpdate? || m.FlagsUpdate?) && m.id == i && (m.EntryAssign? ==> m.name == name)
    requires (m.EntryAssign? || m.EntryUpdate?) && c.Some? ==> Accepts(c.value.seqNum, Joined(q, m))
    ensures MarkedAt(Enqueue(q, m), i) && Sound(c, i, Enqueue(q, m), name)
    ensures FaceOf(Over(c, i, Enqueue(q, m))) == Absorb(FaceOf(Over(c, i, q)), i, m) <==> !FlagsOvertaken(q, m)
  {
    EnqueueKeepsMarkedAt(q, m, i);
    EnqueueMarks(q, m, i);
    if m.FlagsUpdate? {
      FlagsOnLive(c, i, q, m, name);
    } else {
      ValueOnLive(c, i, q, m, name);
    }
  }

  lemma ValueOnLive(c: Option<Cell>, i: nat, q: Pending, m: Message, name: Bytes)
    requires Marked(q) && i != UNASSIGNED && MarkedAt(q, i) && Sound(c, i, q, name) && Over(c, i, q).Some?
    requires (m.EntryAssign? || m.EntryUpdate?) && m.id == i && (m.EntryAssign? ==> m.name == name)
    requires c.Some? ==> Accepts(c.value.seqNum, Joined(q, m))
    requires MarkedAt(Enqueue(q, m), i)
    ensures Sound(c, i, Enqueue(q, m), name)
    ensures FaceOf(Over(c, i, Enqueue(q, m))) == Absorb(FaceOf(Over(c, i, q)), i, m) <==> !FlagsOvertaken(q, m)
  {
    var q', mark := Enqueue(q, m), Mark(q.marks, i);
    EnqueueMarks(q, m, i);
    assert mark.1 != 0 ==> q'.slots[mark.1 - 1] == q.slots[mark.1 - 1];
    if mark.0 == 0 {
      assert q'.slots[|q.slots|] == Some(m);
    } else {
      assert q'.slots[mark.0 - 1] == Some(Merge(q.slots[mark.0 - 1], m));
    }
  }

  /** A value that joins the batch out of reach is refused, and with it all that was merged into it. */
  lemma RefusedOnLive(c: Option<Cell>, i: nat, q: Pending, m: Message, name: Bytes)
    requires Marked(q) && i != UNASSIGNED && MarkedAt(q, i) && Sound(c, i, q, name) && Over(c, i, q).Some?
    requires (m.EntryAssign? || m.EntryUpdate?) && m.id == i && (m.EntryAssign? ==> m.name == name)
    requires c.Some? && !Accepts(c.value.seqNum, Joined(q, m))
    ensures MarkedAt(Enqueue(q, m), i)
    ensures FaceOf(Over(c, i, Enqueue(q, m))) == Absorb(FaceOf(Over(c, i, q)), i, m) <==> Redundant(c.value, q, m)
  {
    var q', mark := Enqueue(q, m), Mark(q.marks, i);
    EnqueueKeepsMarkedAt(q, m, i);
    EnqueueMarks(q, m, i);
    assert mark.1 != 0 ==> q'.slots[mark.1 - 1] == q.slots[mark.1 - 1];
    if mark.0 == 0 {
      assert q'.slots[|q.slots|] == Some(m);
    } else {
      assert q'.slots[mark.0 - 1] == Some(Joined(q, m));
    }
  }

  lemma FlagsOnLive(c: Option<Cell>, i: nat, q: Pending, m: Message, name: Bytes)
    requires Marked(q) && i != UNASSIGNED && MarkedAt(q, i) && Sound(c, i, q, name) && Over(c, i, q).Some?
    requires m.FlagsUpdate? && m.id == i
    requires MarkedAt(Enqueue(q, m), i)
    ensures Sound(c, i, Enqueue(q, m), name)
    ensures FaceOf(Over(c, i, Enqueue(q, m))) == Absorb(FaceOf(Over(c, i, q)), i, m) <==> !FlagsOvertaken(q, m)
  {
    var q', mark := Enqueue(q, m), Mark(q.marks, i);
    EnqueueMarks(q, m, i);
    assert mark.0 != 0 ==> q'.slots[mark.0 - 1] == q.slots[mark.0 - 1];
    if mark.1 == 0 {
      assert q'.slots[|q.slots|] == Some(m);
    } else {
      assert q'.slots[mark.1 - 1] == Some(m);
    }
  }

  lemma SoundFromInv(v: View, client: Table, wire: seq<Option<Message>>, q: Pending, i: nat)
    requires LiveIndex(client) && QueueInv(v, client, wire, q) && i in v.faces
    ensures MarkedAt(q, i) && i != UNASSIGNED
    ensures var c := Under(BaseAt(client, wire, i), i, q.slots);
      && Sound(c, i, q, v.faces[i].name)
      && TakeAll(BaseAt(client, wire, i), i, q.slots) == Over(c, i, q)
      && Over(c, i, q).Some?
  {
    hide Sound, Over, TakeAll, Under, SlotFits, Take;
    assert MarkedAt(q, i);
    SoundBeneath(v, client, wire, q, i);
    BatchOnLive(BaseAt(client, wire, i), v, i, q);
    assert Caught(v, client, wire, q.slots, i);
  }

  lemma SoundBeneath(v: View, client: Table, wire: seq<Option<Message>>, q: Pending, i: nat)
    requires LiveIndex(client) && QueueInv(v, client, wire, q) && i in v.faces && MarkedAt(q, i)
    ensures Sound(Under(BaseAt(client, wire, i), i, q.slots), i, q, v.faces[i].name)
  {
    hide TakeAll;
    var mark := Mark(q.marks, i);
    assert BaseFits(v, client, wire, i);
    assert mark.0 != 0 ==> SlotFits(v, q.slots, mark.0 - 1) && SlotAccepted(client, wire, q.slots, mark.0 - 1);
  }

  /** After `m` has been queued its own entry is shown as `m` says exactly when it is taken and overtakes no flags, or is
      refused and asks for nothing new. */
  lemma CaughtByOwn(v: View, u: View, client: Table, wire: seq<Option<Message>>, q: Pending, m: Message)
    requires LiveIndex(client) && QueueInv(v, client, wire, q) && Legal(v, m) && Tells(v, m, u)
    requires !m.ClearEntries?
    ensures Caught(u, client, wire, Enqueue(q, m).slots, m.id) <==> Harmless(client, wire, q, m)
  {
    var i, q' := m.id, Enqueue(q, m);
    var base := BaseAt(client, wire, i);
    LegalKeepsDistinct(v, m, u);
    SlotsStillFit(v, u, q, m);
    EnqueueSlots(q, m);
    assert u.At(i) == Absorb(v.At(i), i, m) && Caught(v, client, wire, q.slots, i);
    if m.EntryDelete? {
      assert MarkedAt(q, i);
      assert q'.slots[..|q'.slots| - 1] == q'.slots[..|q.slots|];
    } else if i in v.faces {
      SoundFromInv(v, client, wire, q, i);
      ClearKept(q, m);
      if WithinReach(client, wire, q, m) {
        MergeOnLive(Under(base, i, q.slots), i, q, m, v.faces[i].name);
      } else {
        RefusedOnLive(Under(base, i, q.slots), i, q, m, v.faces[i].name);
      }
      BatchOnLive(base, u, i, q');
    } else {
      NewEntry(v, client, wire, q, m);
    }
  }

  /** An assignment under a new id joins the end of the batch and creates the entry. */
  lemma NewEntry(v: View, client: Table, wire: seq<Option<Message>>, q: Pending, m: Message)
    requires LiveIndex(client) && QueueInv(v, client, wire, q) && m.EntryAssign? && m.id == v.size < UNASSIGNED
    ensures Mark(q.marks, m.id) == (0, 0) && Enqueue(q, m).slots == q.slots + [Some(m)]
    ensures Under(BaseAt(client, wire, m.id), m.id, q.slots) == None
    ensures TakeAll(BaseAt(client, wire, m.id), m.id, Enqueue(q, m).slots) == Some(Cell(Face(m.name, m.value, m.flags), 0))
  {
    var mark := Mark(q.marks, m.id);
    assert MarkedAt(q, m.id);
    var first: int, second: int := mark.0, mark.1;
    assert FitsAt(v, q.slots, first - 1) && FitsAt(v, q.slots, second - 1);
    assert BaseFits(v, client, wire, m.id) && Caught(v, client, wire, q.slots, m.id);
    assert (q.slots + [Some(m)])[..|q.slots|] == q.slots;
  }

  lemma CaughtByOthers(v: View, u: View, client: Table, wire: seq<Option<Message>>, q: Pending, m: Message, i: nat)
    requires LiveIndex(client) && QueueInv(v, client, wire, q) && Legal(v, m) && Tells(v, m, u)
    requires !m.ClearEntries? && m.id != i
    ensures Caught(u, client, wire, Enqueue(q, m).slots, i)
  {
    assert u.At(i) == Absorb(v.At(i), i, m) && Caught(v, client, wire, q.slots, i);
    OthersSeeTheSame(q, m, BaseAt(client, wire, i), i);
  }

  lemma CaughtByClear(v: View, u: View, client: Table, wire: seq<Option<Message>>, q: Pending, i: nat)
    requires LiveIndex(client) && QueueInv(v, client, wire, q) && Tells(v, ClearEntries, u)
    ensures Caught(u, client, wire, Enqueue(q, ClearEntries).slots, i) <==>
      PersistentKept(FaceOf(BaseAt(client, wire, i)), FaceOf(TakeAll(BaseAt(client, wire, i), i, q.slots)))
  {
    var base, s' := BaseAt(client, wire, i), Enqueue(q, ClearEntries).slots;
    assert u.At(i) == Absorb(v.At(i), i, ClearEntries) && Caught(v, client, wire, q.slots, i);
    OneSlot(base, i, s', 0, |q.slots|, |s'|);
    assert s'[..0] == [] && s'[..|s'|] == s';
  }

  /** Merging never changes what the client will show, except exactly when flags are overtaken, when serials were merged
      away whose absence puts the last of them out of the client's reach, or when a clear drops pending news of
      persistent entries. */
  lemma MergeIsFaithful(v: View, u: View, client: Table, wire: seq<Option<Message>>, q: Pending, m: Message)
    requires LiveIndex(client) && QueueInv(v, client, wire, q) && Legal(v, m) && Tells(v, m, u)
    ensures (forall i: nat :: Caught(u, client, wire, Enqueue(q, m).slots, i)) <==> Harmless(client, wire, q, m)
  {
    if m.ClearEntries? {
      forall i: nat
        ensures Caught(u, client, wire, Enqueue(q, m).slots, i) <==>
          PersistentKept(FaceOf(BaseAt(client, wire, i)), FaceOf(TakeAll(BaseAt(client, wire, i), i, q.slots)))
      {
        CaughtByClear(v, u, client, wire, q, i);
      }
    } else {
      CaughtByOwn(v, u, client, wire, q, m);
      forall i: nat | i != m.id
        ensures Caught(u, client, wire, Enqueue(q, m).slots, i)
      {
        CaughtByOthers(v, u, client, wire, q, m, i);
      }
    }
  }

  /** The batch of `ms`, merged from nothing. */
  ghost function Batch(ms: seq<Message>): (q: Pending)
    ensures Marked(q)
  {
    if ms == [] then IDLE
    else
      var q := Batch(ms[..|ms| - 1]);
      EnqueueKeepsMarked(q, ms[|ms| - 1]);
      Enqueue(q, ms[|ms| - 1])
  }

  /** An update, new flags and a new assignment, queued in that order, leave the flags of the second and not those of the
      third. */
  lemma FlagsOvertakenFails(name: Bytes, v0: Value, v1: Value, v2: Value)
    ensures var c := Some(Cell(Face(name, v0, 0), 1));
      var ms := [EntryUpdate(0, 2, v1), FlagsUpdate(0, 1), EntryAssign(name, 0, 3, v2, 0)];
      && TakeAll(c, 0, [Some(ms[0]), Some(ms[1]), Some(ms[2])]) == Some(Cell(Face(name, v2, 0), 3))
      && TakeAll(c, 0, Batch(ms).slots) == Some(Cell(Face(name, v2, 1), 3))
  {
    hide TakeAll, Batch, Enqueue;
    var u, f, a := EntryUpdate(0, 2, v1), FlagsUpdate(0, 1), EntryAssign(name, 0, 3, v2, 0);
    Three(Some(Cell(Face(name, v0, 0), 1)), 0, Some(u), Some(f), Some(a));
    Two(Some(Cell(Face(name, v0, 0), 1)), 0, Some(u), Some(f));
    Two(Some(Cell(Face(name, v0, 0), 1)), 0, Some(a), Some(f));
    OvertakenBatch(u, f, a);
  }

  lemma OvertakenBatch(u: Message, f: Message, a: Message)
    requires u.EntryUpdate? && f.FlagsUpdate? && a.EntryAssign? && u.id == f.id == a.id == 0
    ensures Batch([u, f, a]).slots == [Some(a), Some(f)]
  {
    assert [u, f, a][..2] == [u, f] && [u, f][..1] == [u] && [u][..0] == [];
    assert Batch([u]).slots == [Some(u)] && Mark(Batch([u]).marks, 0) == (1, 0);
    assert Batch([u, f]).slots == [Some(u), Some(f)] && Mark(Batch([u, f]).marks, 0) == (1, 2);
  }

  /** A new value of a persistent entry, queued just before a clear, is lost, though the clear spares the entry. */
  lemma ClearDropsUpdate(name: Bytes, v0: Value, v1: Value)
    ensures var c := Some(Cell(Face(name, v0, 1), 1));
      var ms := [EntryUpdate(0, 2, v1), ClearEntries];
      && TakeAll(c, 0, [Some(ms[0]), Some(ms[1])]) == Some(Cell(Face(name, v1, 1), 2))
      && TakeAll(c, 0, Batch(ms).slots) == c
  {
    hide TakeAll, Batch, Enqueue;
    var u := EntryUpdate(0, 2, v1);
    Two(Some(Cell(Face(name, v0, 1), 1)), 0, Some(u), Some(ClearEntries));
    Two(Some(Cell(Face(name, v0, 1), 1)), 0, None, Some(ClearEntries));
    ClearedBatch(u);
  }

  /** Three updates, each of which a client would take after the one before, are merged into one that it refuses: the
      last value never arrives. */
  lemma OutOfReachFails(name: Bytes, v0: Value, v1: Value, v2: Value, v3: Value)
    ensures var c := Some(Cell(Face(name, v0, 0), 0));
      var ms := [EntryUpdate(0, 0x4000, v1), EntryUpdate(0, 0x8000, v2), EntryUpdate(0, 0xC000, v3)];
      && TakeAll(c, 0, [Some(ms[0]), Some(ms[1]), Some(ms[2])]) == Some(Cell(Face(name, v3, 0), 0xC000))
      && TakeAll(c, 0, Batch(ms).slots) == c
  {
    hide TakeAll, Batch, Enqueue;
    var c, a, b := Some(Cell(Face(name, v0, 0), 0)), EntryUpdate(0, 0x4000, v1), EntryUpdate(0, 0x8000, v2);
    var d := EntryUpdate(0, 0xC000, v3);
    Three(c, 0, Some(a), Some(b), Some(d));
    Two(c, 0, Some(a), Some(b));
    ReplacedBatch(a, b, d);
    One(c, 0, d);
  }

  lemma One(c: Option<Cell>, i: nat, m: Message)
    ensures TakeAll(c, i, [Some(m)]) == Take(c, i, m)
  {
    assert [Some(m)][..0] == [];
  }

  lemma ReplacedBatch(a: Message, b: Message, d: Message)
    requires a.EntryUpdate? && b.EntryUpdate? && d.EntryUpdate? && a.id == b.id == d.id == 0
    ensures Batch([a, b, d]).slots == [Some(d)]
  {
    assert [a, b, d][..2] == [a, b] && [a, b][..1] == [a] && [a][..0] == [];
    assert Batch([a]).slots == [Some(a)] && Mark(Batch([a]).marks, 0) == (1, 0);
    assert Batch([a, b]).slots == [Some(b)] && Mark(Batch([a, b]).marks, 0) == (1, 0);
  }

  /** An entry that is created and changed within one batch reaches the client at serial 0, however far its serial has
      come at the server; the next value can be one that the server takes and the client does not. */
  lemma MergedCreationLags(name: Bytes, v0: Value, v1: Value, v2: Value)
    ensures var ms, next := [EntryAssign(name, 0, 1, v0, 0), EntryUpdate(0, 5, v1)], EntryUpdate(0, 0x8003, v2);
      var client := TakeAll(None, 0, Batch(ms).slots);
      && client == Some(Cell(Face(name, v1, 0), 0)) && Take(client, 0, next) == client
      && Take(Some(Cell(Face(name, v1, 0), 5)), 0, next) == Some(Cell(Face(name, v2, 0), 0x8003))
  {
    hide TakeAll;
    var a, b := EntryAssign(name, 0, 1, v0, 0), EntryUpdate(0, 5, v1);
    assert [a, b][..1] == [a] && [a][..0] == [];
    assert Batch([a]).slots == [Some(a)] && Mark(Batch([a]).marks, 0) == (1, 0);
    assert Batch([a, b]).slots == [Some(EntryAssign(name, 0, 5, v1, 0))];
    One(None, 0, EntryAssign(name, 0, 5, v1, 0));
  }

  lemma ClearedBatch(u: Message)
    requires u.EntryUpdate? && u.id == 0
    ensures Batch([u, ClearEntries]).slots == [None, Some(ClearEntries)]
  {
    assert [u, ClearEntries][..1] == [u] && [u][..0] == [];
    assert Batch([u]).slots == [Some(u)];
    assert KnockOut([Some(u)]) == [None];
  }

  lemma Two(c: Option<Cell>, i: nat, a: Option<Message>, b: Option<Message>)
    ensures var one := if a.Some? then Take(c, i, a.value) else c;
      TakeAll(c, i, [a, b]) == if b.Some? then Take(one, i, b.value) else one
  {
    assert [a, b][..1] == [a] && [a][..0] == [];
    assert TakeAll(c, i, [a]) == if a.Some? then Take(c, i, a.value) else c;
  }

  lemma Three(c: Option<Cell>, i: nat, a: Option<Message>, b: Option<Message>, d: Option<Message>)
    ensures var two := TakeAll(c, i, [a, b]);
      TakeAll(c, i, [a, b, d]) == if d.Some? then Take(two, i, d.value) else two
  {
    hide Take;
    assert [a, b, d][..2] == [a, b];
  }

  lemma UnderKept(q: Pending, m: Message, c: Option<Cell>, i: nat)
    requires Marked(q) && !m.ClearEntries?
    ensures Under(c, i, Enqueue(q, m).slots) == Under(c, i, q.slots)
  {
    ClearKept(q, m);
  }

  lemma SlotsStillAccepted(v: View, client: Table, wire: seq<Option<Message>>, q: Pending, m: Message, k: nat)
    requires LiveIndex(client) && QueueInv(v, client, wire, q) && Legal(v, m) && WithinReach(client, wire, q, m)
    requires k < |Enqueue(q, m).slots|
    ensures SlotAccepted(client, wire, Enqueue(q, m).slots, k)
  {
    var s, s' := q.slots, Enqueue(q, m).slots;
    if !m.ClearEntries? && s'[k].Some? && (s'[k].value.EntryAssign? || s'[k].value.EntryUpdate?) {
      EnqueueSlots(q, m);
      UnderKept(q, m, BaseAt(client, wire, s'[k].value.id), s'[k].value.id);
      if k < |s| && s'[k] == s[k] {
        assert SlotAccepted(client, wire, s, k);
      }
    }
  }

  /** A name that no live entry carries is held beneath only by entries whose deletion is pending. */
  lemma HolderIsDoomed(v: View, client: Table, wire: seq<Option<Message>>, q: Pending, j: nat, name: Bytes)
    requires LiveIndex(client) && QueueInv(v, client, wire, q) && Holds(client, wire, q.slots, j, name)
    requires j in v.faces ==> v.faces[j].name != name
    ensures Deletes(q.slots, j, |q.slots|)
  {
    assert BaseFits(v, client, wire, j) && Caught(v, client, wire, q.slots, j);
    assert q.slots[..|q.slots|] == q.slots;
    BatchOnDead(BaseAt(client, wire, j), v, j, q.slots, |q.slots|);
  }

  lemma SlotsStillOrdered(v: View, client: Table, wire: seq<Option<Message>>, q: Pending, m: Message, k: nat)
    requires LiveIndex(client) && QueueInv(v, client, wire, q) && Legal(v, m) && k < |Enqueue(q, m).slots|
    ensures SlotOrdered(client, wire, Enqueue(q, m).slots, k)
  {
    var s, s' := q.slots, Enqueue(q, m).slots;
    if m.ClearEntries? || s'[k].None? || !s'[k].value.EntryAssign? {
      return;
    }
    EnqueueSlots(q, m);
    var i, name := s'[k].value.id, s'[k].value.name;
    UnderKept(q, m, BaseAt(client, wire, i), i);
    if Under(BaseAt(client, wire, i), i, s').Some? {
      return;
    }
    forall j: nat | Holds(client, wire, s', j, name)
      ensures Deletes(s', j, k)
    {
      UnderKept(q, m, BaseAt(client, wire, j), j);
      var h: nat := if k < |s| then k else |s|;
      assert Deletes(s, j, h) by {
        if k < |s| {
          AlreadyOrdered(v, client, wire, q, m, k, j);
        } else {
          AppendedOrdered(v, client, wire, q, m, j);
        }
      }
      var d :| 0 <= d < h && s[d] == Some(EntryDelete(j));
      assert s'[d] == s[d];
    }
  }

  lemma AlreadyOrdered(v: View, client: Table, wire: seq<Option<Message>>, q: Pending, m: Message, k: nat, j: nat)
    requires LiveIndex(client) && QueueInv(v, client, wire, q) && Legal(v, m) && !m.ClearEntries?
    requires k < |q.slots| && k < |Enqueue(q, m).slots| && Enqueue(q, m).slots[k].Some?
    requires Enqueue(q, m).slots[k].value.EntryAssign?
    requires var a := Enqueue(q, m).slots[k].value;
      Under(BaseAt(client, wire, a.id), a.id, q.slots).None? && Holds(client, wire, q.slots, j, a.name)
    ensures Deletes(q.slots, j, k)
  {
    var s, a := q.slots, Enqueue(q, m).slots[k].value;
    EnqueueSlots(q, m);
    assert SlotFits(v, s, k);
    assert SlotOrdered(client, wire, s, k);
    if s[k].value.EntryUpdate? {
      // an update cannot bring to life an entry that is not there beneath it
      SoundFromInv(v, client, wire, q, a.id);
      assert false;
    }
  }

  lemma AppendedOrdered(v: View, client: Table, wire: seq<Option<Message>>, q: Pending, m: Message, j: nat)
    requires LiveIndex(client) && QueueInv(v, client, wire, q) && Legal(v, m) && m.EntryAssign?
    requires |Enqueue(q, m).slots| == |q.slots| + 1
    requires Under(BaseAt(client, wire, m.id), m.id, q.slots).None? && Holds(client, wire, q.slots, j, m.name)
    ensures Deletes(q.slots, j, |q.slots|)
  {
    if m.id in v.faces {
      SoundFromInv(v, client, wire, q, m.id);
      assert false;
    }
    HolderIsDoomed(v, client, wire, q, j, m.name);
  }

  lemma BaseStillFits(v: View, u: View, client: Table, wire: seq<Option<Message>>, q: Pending, m: Message, i: nat)
    requires LiveIndex(client) && QueueInv(v, client, wire, q) && Legal(v, m) && Tells(v, m, u)
    ensures BaseFits(u, client, wire, i)
  {
    LegalKeepsDistinct(v, m, u);
    assert BaseFits(v, client, wire, i);
  }

  /** Every legal message can join the queue without the client losing course, under the condition of
      `MergeIsFaithful`. */
  lemma EnqueueKeepsInv(v: View, u: View, client: Table, wire: seq<Option<Message>>, q: Pending, m: Message)
    requires LiveIndex(client) && QueueInv(v, client, wire, q) && Legal(v, m) && Tells(v, m, u)
    requires Faithful(client, wire, q, m)
    ensures QueueInv(u, client, wire, Enqueue(q, m))
  {
    var q' := Enqueue(q, m);
    LegalKeepsDistinct(v, m, u);
    EnqueueKeepsMarked(q, m);
    SlotsStillFit(v, u, q, m);
    MergeIsFaithful(v, u, client, wire, q, m);
    forall k | 0 <= k < |q'.slots|
      ensures SlotAccepted(client, wire, q'.slots, k) && SlotOrdered(client, wire, q'.slots, k)
    {
      SlotsStillAccepted(v, client, wire, q, m, k);
      SlotsStillOrdered(v, client, wire, q, m, k);
    }
    forall i: nat
      ensures BaseFits(u, client, wire, i)
    {
      BaseStillFits(v, u, client, wire, q, m, i);
    }
  }

  // ---------------------------------------------------------------------------------------------
  // Posting and receiving
  // ---------------------------------------------------------------------------------------------

  /** When slot `k` of the wire arrives and creates an entry, no other entry has its name. */
  ghost predicate ArrivesFree(client: Table, wire: seq<Option<Message>>, k: nat)
    requires LiveIndex(client) && k < |wire|
  {
    wire[k].Some? && wire[k].value.EntryAssign? ==>
      var m := wire[k].value;
      && m.id < UNASSIGNED
      && (TakeAll(CellAt(client, m.id), m.id, wire[..k]).None? ==> forall j: nat :: !NamedAt(client, wire[..k], j, m.name))
  }

  ghost predicate NamedAt(client: Table, slots: seq<Option<Message>>, j: nat, name: Bytes)
    requires LiveIndex(client)
  {
    var c := TakeAll(CellAt(client, j), j, slots);
    c.Some? && c.value.face.name == name
  }

  /** A live entry keeps its name throughout the batch. */
  lemma {:induction false} NameStays(c: Option<Cell>, v: View, j: nat, slots: seq<Option<Message>>, hi: nat)
    requires j in v.faces && hi <= |slots| && (c.Some? ==> c.value.face.name == v.faces[j].name)
    requires forall k :: 0 <= k < |slots| ==> SlotFits(v, slots, k)
    ensures var r := TakeAll(c, j, slots[..hi]); r.Some? ==> r.value.face.name == v.faces[j].name
    decreases hi
  {
    if hi > 0 {
      NameStays(c, v, j, slots, hi - 1);
      assert slots[..hi][..hi - 1] == slots[..hi - 1];
      assert SlotFits(v, slots, hi - 1);
    }
  }

  /** Up to the slot of its assignment, a live entry without one earlier is only cleared or gets its flags. */
  lemma AbsentBefore(c: Option<Cell>, v: View, i: nat, q: Pending, k: nat)
    requires Marked(q) && i in v.faces && i != UNASSIGNED && k < |q.slots| && IsValueOf(q.slots[k], i)
    requires forall k :: 0 <= k < |q.slots| ==> SlotFits(v, q.slots, k)
    ensures TakeAll(c, i, q.slots[..k]).None? ==> Under(c, i, q.slots).None?
  {
    assert MarkedAt(q, i);
    var z := LiveSlots(c, v, i, q);
    var mark := Mark(q.marks, i);
    if mark.1 == 0 || mark.1 > k {
      SkipForeign(c, i, q.slots, z, k);
    } else {
      OneSlot(c, i, q.slots, z, mark.1 - 1, k);
    }
  }

  lemma PostedArrivesFree(v: View, client: Table, wire: seq<Option<Message>>, q: Pending, k: nat)
    requires LiveIndex(client) && QueueInv(v, client, wire, q) && k < |q.slots|
    ensures ArrivesFree(client, wire + q.slots, |wire| + k)
  {
    var slots := q.slots;
    if slots[k].None? || !slots[k].value.EntryAssign? {
      return;
    }
    var i, name := slots[k].value.id, slots[k].value.name;
    assert SlotFits(v, slots, k) && SlotOrdered(client, wire, slots, k);
    assert (wire + slots)[..|wire| + k] == wire + slots[..k];
    TakeAllSplits(CellAt(client, i), i, wire, slots[..k]);
    if TakeAll(BaseAt(client, wire, i), i, slots[..k]).None? {
      AbsentBefore(BaseAt(client, wire, i), v, i, q, k);
      forall j: nat
        ensures !NamedAt(client, wire + slots[..k], j, name)
      {
        TakeAllSplits(CellAt(client, j), j, wire, slots[..k]);
        assert BaseFits(v, client, wire, j);
        if j in v.faces {
          NameStays(BaseAt(client, wire, j), v, j, slots, k);
        } else {
          BatchOnDead(BaseAt(client, wire, j), v, j, slots, k);
        }
      }
    }
  }

  /** The state of the whole system. */
  datatype System = System(server: Table, pending: Pending, wire: seq<Option<Message>>, client: Table)

  ghost predicate Inv(s: System) {
    && Linked(s.server) && AllAssigned(s.server)
    && Linked(s.client) && AllAssigned(s.client)
    && QueueInv(ViewOf(s.server), s.client, s.wire, s.pending)
    && forall k :: 0 <= k < |s.wire| ==> ArrivesFree(s.client, s.wire, k)
  }

  datatype Event =
    /** The server runs an operation of its own, or processes a message from another connection. */
    | Serve(op: Op)
    /** PostOutgoing: the pending batch goes onto the wire. */
    | Post
    /** The client processes the next message on the wire. */
    | Arrive

  /** QueueOutgoing for each message the server broadcasts. */
  ghost function EnqueueAll(q: Pending, out: seq<Out>): (r: Pending)
    requires Marked(q)
    ensures Marked(r)
    decreases |out|
  {
    if out == [] then q
    else
      EnqueueKeepsMarked(q, out[0].msg);
      EnqueueAll(Enqueue(q, out[0].msg), out[1..])
  }

  ghost function Advance(s: System, e: Event): System
    requires Inv(s)
  {
    match e
    case Serve(op) =>
      var (t, out) := Step(s.server, SERVER, op);
      s.(server := t, pending := EnqueueAll(s.pending, out))
    case Post => s.(pending := IDLE, wire := s.wire + s.pending.slots)
    case Arrive =>
      if s.wire == [] then s
      else if s.wire[0].None? then s.(wire := s.wire[1..])
      else s.(client := Receive(s.client, CLIENT, PROTO_3, s.wire[0].value).0, wire := s.wire[1..])
  }

  ghost predicate AllFaithful(client: Table, wire: seq<Option<Message>>, q: Pending, out: seq<Out>)
    requires LiveIndex(client) && Marked(q)
    decreases |out|
  {
    out != [] ==>
      && Faithful(client, wire, q, out[0].msg)
      && (EnqueueKeepsMarked(q, out[0].msg); AllFaithful(client, wire, Enqueue(q, out[0].msg), out[1..]))
  }

  /** The step stays within 16-bit ids, and what it queues is merged faithfully. */
  ghost predicate Allowed(s: System, e: Event)
    requires Inv(s)
  {
    e.Serve? ==>
      var (t, out) := Step(s.server, SERVER, e.op);
      |t.index| <= UNASSIGNED && AllFaithful(s.client, s.wire, s.pending, out)
  }

  lemma {:induction false} StoryKeepsInv(v: View, out: seq<Out>, u: View, client: Table, wire: seq<Option<Message>>,
                                         q: Pending)
    requires LiveIndex(client) && QueueInv(v, client, wire, q) && Story(v, out, u) && AllFaithful(client, wire, q, out)
    ensures QueueInv(u, client, wire, EnqueueAll(q, out))
    decreases |out|
  {
    if out != [] {
      var w :| Legal(v, out[0].msg) && Tells(v, out[0].msg, w) && Story(w, out[1..], u);
      EnqueueKeepsInv(v, w, client, wire, q, out[0].msg);
      StoryKeepsInv(w, out[1..], u, client, wire, Enqueue(q, out[0].msg));
    }
  }

  lemma PostKeepsInv(s: System)
    requires Inv(s)
    ensures Inv(Advance(s, Post))
  {
    var s', v := Advance(s, Post), ViewOf(s.server);
    forall i: nat
      ensures BaseFits(v, s'.client, s'.wire, i) && Caught(v, s'.client, s'.wire, [], i)
    {
      TakeAllSplits(CellAt(s.client, i), i, s.wire, s.pending.slots);
      assert Caught(v, s.client, s.wire, s.pending.slots, i);
    }
    forall k | 0 <= k < |s'.wire|
      ensures ArrivesFree(s'.client, s'.wire, k)
    {
      if k < |s.wire| {
        assert ArrivesFree(s.client, s.wire, k);
        assert s'.wire[..k] == s.wire[..k];
      } else {
        PostedArrivesFree(v, s.client, s.wire, s.pending, k - |s.wire|);
      }
    }
    forall id: nat | id != UNASSIGNED
      ensures MarkedAt(IDLE, id)
    {
    }
  }

  /** The first message on the wire, taken by the client, leaves the rest of the pipeline as it was. */
  lemma HeadTaken(t: Table, t': Table, wire: seq<Option<Message>>, i: nat, hi: nat)
    requires LiveIndex(t) && LiveIndex(t') && 1 <= hi <= |wire|
    requires CellAt(t', i) == if wire[0].Some? then Take(CellAt(t, i), i, wire[0].value) else CellAt(t, i)
    ensures TakeAll(CellAt(t', i), i, wire[1..][..hi - 1]) == TakeAll(CellAt(t, i), i, wire[..hi])
  {
    assert wire[..hi] == wire[..1] + wire[1..][..hi - 1];
    TakeAllSplits(CellAt(t, i), i, wire[..1], wire[1..][..hi - 1]);
    assert wire[..1][..0] == [];
  }

  lemma ArriveKeepsInv(s: System)
    requires Inv(s) && s.wire != []
    ensures Inv(Advance(s, Arrive))
  {
    var s', t, w := Advance(s, Arrive), s.client, s.wire;
    assert ArrivesFree(t, w, 0);
    if w[0].Some? {
      HeadIsFree(t, w);
      ClientTakes(t, w[0].value);
    }
    var t', w' := s'.client, s'.wire;
    forall i: nat
      ensures BaseAt(t', w', i) == BaseAt(t, w, i)
    {
      HeadTaken(t, t', w, i, |w|);
      assert w'[..|w'|] == w' && w[..|w|] == w;
    }
    forall k | 0 <= k < |w'|
      ensures ArrivesFree(t', w', k)
    {
      StillArrivesFree(t, t', w, k);
    }
    SameBase(ViewOf(s.server), t, w, t', w', s.pending);
  }

  /** Taking the head of the wire, the client stays silent and what it will hold does not change. */
  lemma ArriveKeepsBase(s: System, i: nat)
    requires Inv(s) && s.wire != [] && LiveIndex(Advance(s, Arrive).client)
    ensures var s' := Advance(s, Arrive); BaseAt(s'.client, s'.wire, i) == BaseAt(s.client, s.wire, i)
    ensures s.wire[0].Some? ==> Receive(s.client, CLIENT, PROTO_3, s.wire[0].value).1 == []
  {
    var s', w := Advance(s, Arrive), s.wire;
    assert ArrivesFree(s.client, w, 0);
    if w[0].Some? {
      HeadIsFree(s.client, w);
      ClientTakes(s.client, w[0].value);
    }
    HeadTaken(s.client, s'.client, w, i, |w|);
    assert s'.wire[..|s'.wire|] == s'.wire && w[..|w|] == w;
  }

  lemma HeadIsFree(t: Table, w: seq<Option<Message>>)
    requires Linked(t) && AllAssigned(t) && w != [] && w[0].Some? && ArrivesFree(t, w, 0)
    ensures NameFree(t, w[0].value)
  {
    var m := w[0].value;
    if m.EntryAssign? && CellAt(t, m.id).None? && m.name in t.rows {
      var j := t.rows[m.name].id;
      assert Lookup(t.index, j) == Some(m.name);
      assert w[..0] == [];
      assert NamedAt(t, w[..0], j, m.name);
    }
  }

  lemma StillArrivesFree(t: Table, t': Table, w: seq<Option<Message>>, k: nat)
    requires LiveIndex(t) && LiveIndex(t') && w != [] && k < |w[1..]|
    requires ArrivesFree(t, w, k + 1)
    requires forall i: nat :: CellAt(t', i) == if w[0].Some? then Take(CellAt(t, i), i, w[0].value) else CellAt(t, i)
    ensures ArrivesFree(t', w[1..], k)
  {
    var w' := w[1..];
    if w'[k].Some? && w'[k].value.EntryAssign? {
      var m := w'[k].value;
      HeadTaken(t, t', w, m.id, k + 1);
      forall j: nat
        ensures NamedAt(t', w'[..k], j, m.name) <==> NamedAt(t, w[..k + 1], j, m.name)
      {
        HeadTaken(t, t', w, j, k + 1);
      }
    }
  }

  lemma SameBase(v: View, t: Table, w: seq<Option<Message>>, t': Table, w': seq<Option<Message>>, q: Pending)
    requires LiveIndex(t) && LiveIndex(t') && QueueInv(v, t, w, q)
    requires forall i: nat :: BaseAt(t', w', i) == BaseAt(t, w, i)
    ensures QueueInv(v, t', w', q)
  {
    forall k | 0 <= k < |q.slots|
      ensures SlotAccepted(t', w', q.slots, k) && SlotOrdered(t', w', q.slots, k)
    {
      assert SlotAccepted(t, w, q.slots, k) && SlotOrdered(t, w, q.slots, k);
      forall j: nat, name
        ensures Holds(t', w', q.slots, j, name) <==> Holds(t, w, q.slots, j, name)
      {
        assert BaseAt(t', w', j) == BaseAt(t, w, j);
      }
    }
    forall i: nat
      ensures BaseFits(v, t', w', i) && Caught(v, t', w', q.slots, i)
    {
      assert BaseFits(v, t, w, i) && Caught(v, t, w, q.slots, i);
    }
  }

  lemma AdvanceKeepsInv(s: System, e: Event)
    requires Inv(s) && Allowed(s, e)
    ensures Inv(Advance(s, e))
  {
    match e {
      case Serve(op) =>
        ServerTells(s.server, op);
        var (t, out) := Step(s.server, SERVER, op);
        StoryKeepsInv(ViewOf(s.server), out, ViewOf(t), s.client, s.wire, s.pending);
      case Post => PostKeepsInv(s);
      case Arrive =>
        if s.wire != [] {
          ArriveKeepsInv(s);
        }
    }
  }

  /** Client and server show the same entries under the same names and ids. */
  ghost predicate Agree(client: Table, server: Table) {
    && client.rows.Keys == server.rows.Keys
    && forall n :: n in server.rows ==>
         && client.rows[n].value == server.rows[n].value
         && client.rows[n].flags == server.rows[n].flags
         && client.rows[n].id == server.rows[n].id
  }

  lemma CaughtUpAgrees(client: Table, server: Table)
    requires Linked(client) && AllAssigned(client) && Linked(server) && AllAssigned(server)
    requires forall i: nat :: FaceOf(CellAt(client, i)) == ViewOf(server).At(i)
    ensures Agree(client, server)
  {
    ViewIsDistinct(server);
    forall n
      ensures n in server.rows ==>
                && n in client.rows && client.rows[n].id == server.rows[n].id
                && client.rows[n].value == server.rows[n].value && client.rows[n].flags == server.rows[n].flags
      ensures n in client.rows ==> n in server.rows
    {
      if n in server.rows {
        var i := server.rows[n].id;
        assert FaceOf(CellAt(client, i)) == ViewOf(server).At(i);
        assert Lookup(client.index, i) == Some(n);
      }
      if n in client.rows {
        var i := client.rows[n].id;
        assert Lookup(client.index, i) == Some(n);
        assert FaceOf(CellAt(client, i)) == ViewOf(server).At(i) == FaceOf(CellAt(server, i));
        assert Lookup(server.index, i) == Some(n);
      }
    }
  }

  ghost function RunSystem(s: System, es: seq<Event>): System
    requires Inv(s)
    decreases |es|
  {
    if es == [] then s
    else
      var s' := Advance(s, es[0]);
      if Inv(s') then RunSystem(s', es[1..]) else s'
  }

  ghost predicate AllAllowed(s: System, es: seq<Event>)
    requires Inv(s)
    decreases |es|
  {
    es != [] ==> Allowed(s, es[0]) && (Inv(Advance(s, es[0])) ==> AllAllowed(Advance(s, es[0]), es[1..]))
  }

  /** Over every run, the client followed by what is on its way is the server; once nothing is on its way, they
      agree. */
  lemma {:induction false} ReplicaRun(s: System, es: seq<Event>)
    requires Inv(s) && AllAllowed(s, es)
    ensures var r := RunSystem(s, es);
      && Inv(r)
      && (forall i: nat :: FaceOf(TakeAll(CellAt(r.client, i), i, r.wire + r.pending.slots)) == FaceOf(CellAt(r.server, i)))
      && (r.wire == [] && r.pending == IDLE ==> Agree(r.client, r.server))
    decreases |es|
  {
    if es == [] {
      ViewIsDistinct(s.server);
      forall i: nat
        ensures FaceOf(TakeAll(CellAt(s.client, i), i, s.wire + s.pending.slots)) == FaceOf(CellAt(s.server, i))
      {
        TakeAllSplits(CellAt(s.client, i), i, s.wire, s.pending.slots);
        assert Caught(ViewOf(s.server), s.client, s.wire, s.pending.slots, i);
      }
      if s.wire == [] && s.pending == IDLE {
        forall i: nat
          ensures FaceOf(CellAt(s.client, i)) == ViewOf(s.server).At(i)
        {
          assert Caught(ViewOf(s.server), s.client, s.wire, s.pending.slots, i);
        }
        CaughtUpAgrees(s.client, s.server);
      }
    } else {
      AdvanceKeepsInv(s, es[0]);
      ReplicaRun(Advance(s, es[0]), es[1..]);
    }
  }
}
