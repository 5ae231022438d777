/** What merging means for a batch as a whole, whoever sends and whoever receives it: one id is followed from any cell
    through the messages as they were queued, and through what is left of them in the queue. */
module Coalescing {
  import opened Basics
  import opened Messages
  import opened Serials
  import opened OutgoingQueue
  import opened Mirror
  import opened Replica

  /** The messages as they would be sent without merging. */
  function Sent(ms: seq<Message>): (r: seq<Option<Message>>)
    ensures |r| == |ms|
  {
    if ms == [] then [] else Sent(ms[..|ms| - 1]) + [Some(ms[|ms| - 1])]
  }

  predicate Deleted(ms: seq<Message>, i: nat) {
    EntryDelete(i) in ms
  }

  /** The next message: no clear; a value is one that the receiver takes after all the messages before it; and an
      assignment keeps the entry's name. */
  ghost predicate InOrder(now: Option<Cell>, i: nat, m: Message) {
    && !m.ClearEntries?
    && ((m.EntryAssign? || m.EntryUpdate?) && m.id == i && now.Some? ==>
          Accepts(now.value.seqNum, m) && (m.EntryAssign? ==> m.name == now.value.face.name))
  }

  /** Each serial is ahead of the one before it, and an entry has one name until it is deleted. */
  ghost predicate Orderly(c: Option<Cell>, i: nat, ms: seq<Message>) {
    ms != [] ==>
      var before := ms[..|ms| - 1];
      Orderly(c, i, before) && InOrder(TakeAll(c, i, Sent(before)), i, ms[|ms| - 1])
  }

  /** Same presence, name and value; same flags too if `clean`. */
  ghost predicate Same(a: Option<Face>, b: Option<Face>, clean: bool) {
    && (a.Some? <==> b.Some?)
    && (a.Some? ==>
          && a.value.name == b.value.name && a.value.value == b.value.value
          && (clean ==> a.value.flags == b.value.flags))
  }

  // ---------------------------------------------------------------------------------------------
  // The queue as one id sees it
  // ---------------------------------------------------------------------------------------------

  /** What the waiting messages about `i` mean, serials aside: they are laid over `f` in the order of their slots. */
  ghost function Meant(f: Option<Face>, i: nat, q: Pending): Option<Face>
    requires MarkedAt(q, i)
  {
    var mark := Mark(q.marks, i);
    var value := if mark.0 != 0 then q.slots[mark.0 - 1] else None;
    var flags := if mark.1 != 0 then q.slots[mark.1 - 1] else None;
    var first, second := if mark.0 < mark.1 then value else flags, if mark.0 < mark.1 then flags else value;
    var f1 := if first.Some? then Absorb(f, i, first.value) else f;
    if second.Some? then Absorb(f1, i, second.value) else f1
  }

  /** The waiting value of `i`. */
  function Waiting(q: Pending, i: nat): (r: Option<Message>)
    ensures r.Some? ==> IsValueOf(r, i)
  {
    var mark := Mark(q.marks, i);
    if 0 < mark.0 <= |q.slots| && IsValueOf(q.slots[mark.0 - 1], i) then q.slots[mark.0 - 1] else None
  }

  /** A waiting assignment has the name that the entry has in `base`. */
  ghost predicate Named(base: Option<Cell>, i: nat, q: Pending) {
    base.Some? && Waiting(q, i).Some? && Waiting(q, i).value.EntryAssign? ==>
      Waiting(q, i).value.name == base.value.face.name
  }

  /** The receiver takes the waiting value on top of `base`. */
  ghost predicate Arrives(base: Option<Cell>, i: nat, q: Pending) {
    base.Some? && Waiting(q, i).Some? ==> Accepts(base.value.seqNum, Waiting(q, i).value)
  }

  /** What the receiver shows is what is meant, unless the waiting value is refused: then the value stays. */
  lemma OverMeant(base: Option<Cell>, i: nat, q: Pending)
    requires MarkedAt(q, i) && Named(base, i, q)
    ensures Arrives(base, i, q) ==> FaceOf(Over(base, i, q)) == Meant(FaceOf(base), i, q)
    ensures !Arrives(base, i, q) ==>
      && Meant(FaceOf(base), i, q).Some? && Meant(FaceOf(base), i, q).value.value == Waiting(q, i).value.value
      && Meant(FaceOf(base), i, q).value.name == base.value.face.name
      && Over(base, i, q).Some? && Over(base, i, q).value.face.name == base.value.face.name
      && Over(base, i, q).value.face.value == base.value.face.value
  {
    hide Less, LessEq;
    var mark := Mark(q.marks, i);
    assert mark.0 != 0 ==> IsValueOf(q.slots[mark.0 - 1], i);
    assert mark.1 != 0 ==> IsFlagsOf(q.slots[mark.1 - 1], i);
  }

  /** A message about another id, or about none. */
  lemma BehindOthers(c: Option<Cell>, i: nat, q: Pending, z: nat, base: Option<Cell>, m: Message)
    requires Marked(q) && i != UNASSIGNED && Behind(c, i, q, z, base) && !m.ClearEntries? && (AboutTable(m) ==> m.id != i)
    ensures Marked(Enqueue(q, m)) && Behind(c, i, Enqueue(q, m), z, base)
    ensures Meant(FaceOf(base), i, Enqueue(q, m)) == Meant(FaceOf(base), i, q) && Waiting(Enqueue(q, m), i) == Waiting(q, i)
  {
    hide Enqueue, TakeAll, Take, Meant, Waiting;
    var q' := Enqueue(q, m);
    EnqueueKeepsMarked(q, m);
    OthersLeave(q, m, i);
    MeantKept(FaceOf(base), i, q, q');
    SameForOthers(c, i, q.slots[..z], q'.slots[..z]);
  }

  lemma MeantKept(f: Option<Face>, i: nat, q: Pending, q': Pending)
    requires MarkedAt(q, i) && MarkedAt(q', i) && Mark(q'.marks, i) == Mark(q.marks, i)
    requires var mark := Mark(q.marks, i);
      && (mark.0 != 0 ==> q'.slots[mark.0 - 1] == q.slots[mark.0 - 1])
      && (mark.1 != 0 ==> q'.slots[mark.1 - 1] == q.slots[mark.1 - 1])
    ensures Meant(f, i, q') == Meant(f, i, q) && Waiting(q', i) == Waiting(q, i)
  {
    hide Absorb;
  }

  /** Such a message leaves the slots of `i` alone. */
  lemma OthersLeave(q: Pending, m: Message, i: nat)
    requires Marked(q) && i != UNASSIGNED && !m.ClearEntries? && (AboutTable(m) ==> m.id != i)
    ensures var q', mark := Enqueue(q, m), Mark(q.marks, i);
      && Mark(q'.marks, i) == mark && |q.slots| <= |q'.slots| && MarkedAt(q, i) && MarkedAt(q', i)
      && (mark.0 != 0 ==> q'.slots[mark.0 - 1] == q.slots[mark.0 - 1])
      && (mark.1 != 0 ==> q'.slots[mark.1 - 1] == q.slots[mark.1 - 1])
      && (forall k :: 0 <= k < |q.slots| ==> q'.slots[k] == q.slots[k] || (Foreign(q.slots[k], i) && Foreign(q'.slots[k], i)))
      && (forall k :: |q.slots| <= k < |q'.slots| ==> Foreign(q'.slots[k], i))
  {
    EnqueueMarks(q, m, i);
    EnqueueKeepsMarkedAt(q, m, i);
    EnqueueSlots(q, m);
    assert MarkedAt(q, i);
  }

  /** A deletion starts afresh from nothing. */
  lemma BehindDelete(c: Option<Cell>, i: nat, q: Pending)
    requires Marked(q) && i != UNASSIGNED
    ensures var q' := Enqueue(q, EntryDelete(i));
      && Marked(q') && Behind(c, i, q', |q'.slots|, None) && Mark(q'.marks, i) == (0, 0)
  {
    var m, q' := EntryDelete(i), Enqueue(q, EntryDelete(i));
    EnqueueKeepsMarked(q, m);
    EnqueueMarks(q, m, i);
    EnqueueSlots(q, m);
    assert MarkedAt(q, i) && MarkedAt(q', i);
    assert q'.slots[..|q'.slots|] == q'.slots == q'.slots[..|q.slots|] + [Some(m)];
    assert q'.slots[..|q'.slots| - 1] == q'.slots[..|q.slots|];
  }

  /** Where a value or flags of `i` go: behind `z`. */
  lemma BehindOwn(c: Option<Cell>, i: nat, q: Pending, z: nat, base: Option<Cell>, m: Message)
    requires Marked(q) && i != UNASSIGNED && Behind(c, i, q, z, base)
    requires (m.EntryAssign? || m.EntryUpdate? || m.FlagsUpdate?) && m.id == i
    ensures Marked(Enqueue(q, m)) && Behind(c, i, Enqueue(q, m), z, base)
  {
    hide TakeAll, Take;
    var q' := Enqueue(q, m);
    EnqueueKeepsMarked(q, m);
    EnqueueMarks(q, m, i);
    EnqueueSlots(q, m);
    assert MarkedAt(q, i) && MarkedAt(q', i);
    assert q'.slots[..z] == q.slots[..z];
  }

  /** `m` is about `i` and its flags would be merged out of turn. */
  predicate Overtakes(q: Pending, m: Message, i: nat)
    requires Marked(q)
  {
    (m.EntryAssign? || m.FlagsUpdate?) && m.id == i && FlagsOvertaken(q, m)
  }

  /** A value that joins the batch means for its entry what it would mean behind the batch. */
  lemma ValueJoins(base: Option<Cell>, i: nat, q: Pending, m: Message, now: Option<Cell>, clean: bool)
    requires Marked(q) && i != UNASSIGNED && MarkedAt(q, i) && Named(base, i, q)
    requires Same(Meant(FaceOf(base), i, q), FaceOf(now), clean)
    requires (m.EntryAssign? || m.EntryUpdate?) && m.id == i && MarkedAt(Enqueue(q, m), i)
    requires now.Some? ==> Accepts(now.value.seqNum, m) && (m.EntryAssign? ==> m.name == now.value.face.name)
    ensures Named(base, i, Enqueue(q, m)) && Waiting(Enqueue(q, m), i) == Some(Joined(q, m))
    ensures Same(Meant(FaceOf(base), i, Enqueue(q, m)), FaceOf(Take(now, i, m)), clean && !Overtakes(q, m, i))
  {
    hide Less, LessEq, Marked;
    var q', mark := Enqueue(q, m), Mark(q.marks, i);
    EnqueueMarks(q, m, i);
    assert mark.1 != 0 ==> q'.slots[mark.1 - 1] == q.slots[mark.1 - 1];
    if mark.0 == 0 {
      assert q'.slots[|q.slots|] == Some(m);
    } else {
      assert q'.slots[mark.0 - 1] == Some(Merge(q.slots[mark.0 - 1], m));
    }
  }

  /** So do flags. */
  lemma FlagsJoin(base: Option<Cell>, i: nat, q: Pending, m: Message, now: Option<Cell>, clean: bool)
    requires Marked(q) && i != UNASSIGNED && MarkedAt(q, i)
    requires Same(Meant(FaceOf(base), i, q), FaceOf(now), clean)
    requires m.FlagsUpdate? && m.id == i && MarkedAt(Enqueue(q, m), i)
    ensures Waiting(Enqueue(q, m), i) == Waiting(q, i)
    ensures Same(Meant(FaceOf(base), i, Enqueue(q, m)), FaceOf(Take(now, i, m)), clean && !Overtakes(q, m, i))
  {
    var q', mark := Enqueue(q, m), Mark(q.marks, i);
    EnqueueMarks(q, m, i);
    assert mark.0 != 0 ==> q'.slots[mark.0 - 1] == q.slots[mark.0 - 1];
    if mark.1 == 0 {
      assert q'.slots[|q.slots|] == Some(m);
    } else {
      assert q'.slots[mark.1 - 1] == Some(m);
    }
  }

  // ---------------------------------------------------------------------------------------------
  // The whole batch
  // ---------------------------------------------------------------------------------------------

  /** No message about `i` so far overtook flags. */
  ghost predicate NoneOvertaken(ms: seq<Message>, i: nat) {
    ms != [] ==>
      var before := ms[..|ms| - 1];
      NoneOvertaken(before, i) && !Overtakes(Batch(before), ms[|ms| - 1], i)
  }

  lemma {:induction false} BatchFollows(c: Option<Cell>, i: nat, ms: seq<Message>) returns (z: nat, base: Option<Cell>)
    requires i != UNASSIGNED && Orderly(c, i, ms)
    ensures base == if Deleted(ms, i) then None else c
    ensures Behind(c, i, Batch(ms), z, base) && Named(base, i, Batch(ms))
    ensures Same(Meant(FaceOf(base), i, Batch(ms)), FaceOf(TakeAll(c, i, Sent(ms))), NoneOvertaken(ms, i))
    decreases |ms|
  {
    if ms == [] {
      z, base := 0, c;
      assert IDLE.slots[..0] == [];
    } else {
      var before, m := ms[..|ms| - 1], ms[|ms| - 1];
      assert ms == before + [m];
      z, base := BatchFollows(c, i, before);
      EnqueueKeepsMarked(Batch(before), m);
      assert Batch(ms) == Enqueue(Batch(before), m);
      LastSent(c, i, before, m);
      z, base := OneMore(c, i, Batch(before), z, base, m, TakeAll(c, i, Sent(before)), NoneOvertaken(before, i));
    }
  }

  lemma LastSent(c: Option<Cell>, i: nat, before: seq<Message>, m: Message)
    ensures TakeAll(c, i, Sent(before + [m])) == Take(TakeAll(c, i, Sent(before)), i, m)
    ensures NoneOvertaken(before + [m], i) == (NoneOvertaken(before, i) && !Overtakes(Batch(before), m, i))
  {
    assert (before + [m])[..|before|] == before;
    assert (Sent(before) + [Some(m)])[..|before|] == Sent(before);
  }

  lemma OneMore(c: Option<Cell>, i: nat, q: Pending, z: nat, base: Option<Cell>, m: Message, now: Option<Cell>,
                clean: bool)
    returns (z': nat, base': Option<Cell>)
    requires Marked(q) && i != UNASSIGNED && Behind(c, i, q, z, base) && Named(base, i, q)
    requires Same(Meant(FaceOf(base), i, q), FaceOf(now), clean)
    requires InOrder(now, i, m)
    ensures base' == if m == EntryDelete(i) then None else base
    ensures Marked(Enqueue(q, m)) && Behind(c, i, Enqueue(q, m), z', base') && Named(base', i, Enqueue(q, m))
    ensures Same(Meant(FaceOf(base'), i, Enqueue(q, m)), FaceOf(Take(now, i, m)), clean && !Overtakes(q, m, i))
  {
    z', base' := z, base;
    if m == EntryDelete(i) {
      z', base' := |Enqueue(q, m).slots|, None;
      BehindDelete(c, i, q);
    } else if AboutTable(m) && m.id == i {
      BehindOwn(c, i, q, z, base, m);
      if m.FlagsUpdate? {
        FlagsJoin(base, i, q, m, now, clean);
      } else {
        ValueJoins(base, i, q, m, now, clean);
      }
    } else {
      BehindOthers(c, i, q, z, base, m);
    }
  }

  /** No flags update of `i` comes before an assignment of `i`, unless a deletion comes between them. */
  ghost predicate FlagsInOrder(ms: seq<Message>, i: nat) {
    forall j, k :: 0 <= j < k < |ms| && ms[j].FlagsUpdate? && ms[j].id == i && ms[k].EntryAssign? && ms[k].id == i ==>
      exists d :: j < d < k && ms[d] == EntryDelete(i)
  }

  /** A flags update waits whose id has not been deleted since. */
  ghost predicate FlagsWait(ms: seq<Message>, i: nat) {
    exists j :: 0 <= j < |ms| && ms[j].FlagsUpdate? && ms[j].id == i && forall d :: j < d < |ms| ==> ms[d] != EntryDelete(i)
  }

  lemma WaitEndsAssigns(ms: seq<Message>, i: nat, m: Message)
    requires FlagsInOrder(ms + [m], i)
    ensures FlagsInOrder(ms, i)
    ensures m.EntryAssign? && m.id == i ==> !FlagsWait(ms, i)
    ensures m.FlagsUpdate? && m.id == i ==> FlagsWait(ms + [m], i)
    ensures FlagsWait(ms, i) && m != EntryDelete(i) ==> FlagsWait(ms + [m], i)
  {
    var all := ms + [m];
    forall j, k | 0 <= j < k < |ms| && ms[j].FlagsUpdate? && ms[j].id == i && ms[k].EntryAssign? && ms[k].id == i
      ensures exists d :: j < d < k && ms[d] == EntryDelete(i)
    {
      assert all[j] == ms[j] && all[k] == ms[k];
      var d :| j < d < k && all[d] == EntryDelete(i);
      assert ms[d] == EntryDelete(i);
    }
    if FlagsWait(ms, i) {
      var j :| 0 <= j < |ms| && ms[j].FlagsUpdate? && ms[j].id == i && forall d :: j < d < |ms| ==> ms[d] != EntryDelete(i);
      assert all[j] == ms[j] && all[|ms|] == m;
      assert forall d :: j < d < |ms| ==> all[d] == ms[d];
    }
    assert all[|ms|] == m;
  }

  /** The flags of `i` wait behind its assignment. */
  ghost predicate FlagsLast(q: Pending, i: nat)
    requires MarkedAt(q, i)
  {
    var mark := Mark(q.marks, i);
    mark.0 != 0 && mark.1 != 0 && q.slots[mark.0 - 1].Some? && q.slots[mark.0 - 1].value.EntryAssign? ==> mark.0 < mark.1
  }

  /** In that case flags wait behind the assignment, and none are overtaken. */
  lemma {:induction false} NothingOvertakes(i: nat, ms: seq<Message>)
    requires i != UNASSIGNED && FlagsInOrder(ms, i)
    ensures NoneOvertaken(ms, i)
    ensures MarkedAt(Batch(ms), i) && FlagsLast(Batch(ms), i) && (Mark(Batch(ms).marks, i).1 != 0 ==> FlagsWait(ms, i))
    decreases |ms|
  {
    if ms != [] {
      var before, m := ms[..|ms| - 1], ms[|ms| - 1];
      assert ms == before + [m];
      WaitEndsAssigns(before, i, m);
      NothingOvertakes(i, before);
      EnqueueKeepsMarked(Batch(before), m);
      NextOvertakesNot(i, Batch(before), m);
    }
  }

  lemma NextOvertakesNot(i: nat, q: Pending, m: Message)
    requires Marked(q) && i != UNASSIGNED && MarkedAt(q, i) && FlagsLast(q, i)
    requires m.EntryAssign? && m.id == i ==> Mark(q.marks, i).1 == 0
    ensures !Overtakes(q, m, i) && MarkedAt(Enqueue(q, m), i) && FlagsLast(Enqueue(q, m), i)
    ensures Mark(Enqueue(q, m).marks, i).1 != 0 ==> Mark(q.marks, i).1 != 0 || (m.FlagsUpdate? && m.id == i)
    ensures m == EntryDelete(i) || m.ClearEntries? ==> Mark(Enqueue(q, m).marks, i).1 == 0
  {
    EnqueueMarks(q, m, i);
    EnqueueKeepsMarkedAt(q, m, i);
    if !m.ClearEntries? {
      EnqueueSlots(q, m);
    }
  }

  /** For any batch without a clear in which each serial is ahead of the one before it and an entry keeps its name until
      it is deleted: what is left of the batch leaves every id with the same presence, name and value as the whole batch
      if and only if the value that is left is one the receiver takes over what it held before the batch, or shows
      already. If it is taken, flags are the same too as long as no flags update comes before an assignment of its
      entry. */
  lemma CoalescingKeepsMeaning(c: Option<Cell>, i: nat, ms: seq<Message>)
    requires i != UNASSIGNED && Orderly(c, i, ms)
    ensures var q, base := Batch(ms), if Deleted(ms, i) then None else c;
      var merged, whole := FaceOf(TakeAll(c, i, q.slots)), FaceOf(TakeAll(c, i, Sent(ms)));
      && (Same(merged, whole, false) <==> Arrives(base, i, q) || Waiting(q, i).value.value == base.value.face.value)
      && (Arrives(base, i, q) ==> Same(merged, whole, FlagsInOrder(ms, i)))
  {
    var z, base := BatchFollows(c, i, ms);
    WholeBatch(c, i, Batch(ms), z, base);
    OverMeant(base, i, Batch(ms));
    if FlagsInOrder(ms, i) {
      NothingOvertakes(i, ms);
    }
  }

  // ---------------------------------------------------------------------------------------------
  // What the sender can see of it
  // ---------------------------------------------------------------------------------------------

  /** The counter from which the serials of `i` go up: a deleted entry begins again at 0. */
  function Floor(floor: nat, i: nat, ms: seq<Message>): nat {
    if Deleted(ms, i) then 0 else floor
  }

  /** The counter that the serials of `i` have reached. */
  ghost function Top(floor: nat, i: nat, ms: seq<Message>, counters: seq<nat>): nat
    requires |counters| == |ms|
  {
    if ms == [] then floor
    else
      var n := |ms| - 1;
      if ms[n] == EntryDelete(i) then 0
      else if IsValueOf(Some(ms[n]), i) then counters[n]
      else Top(floor, i, ms[..n], counters[..n])
  }

  /** No clear; all assignments of `i` carry `name`; its serials are those of counters that go up, by 2^15 at most in
      all. */
  ghost predicate Rising(name: Bytes, floor: nat, i: nat, ms: seq<Message>, counters: seq<nat>)
    requires |counters| == |ms|
  {
    ms != [] ==>
      var n := |ms| - 1;
      var m, low, top := ms[n], Floor(floor, i, ms[..n]), Top(floor, i, ms[..n], counters[..n]);
      && Rising(name, floor, i, ms[..n], counters[..n])
      && !m.ClearEntries?
      && (IsValueOf(Some(m), i) ==>
            && m.seqNum == Wrap(counters[n]) && top <= counters[n] <= low + HALF
            && (m.EntryAssign? ==> m.name == name)
            && (m.EntryUpdate? ==> top < counters[n]))
  }

  /** Where the receiver and the queue are after `ms`. */
  ghost predicate Reached(name: Bytes, low: nat, top: nat, now: Option<Cell>, waiting: Option<Message>) {
    && low <= top <= low + HALF
    && (now.None? ==> Wrap(low) == 0)
    && (now.Some? ==> now.value.face.name == name && (now.value.seqNum == Wrap(low) || now.value.seqNum == Wrap(top)))
    && (waiting.Some? && (waiting.value.EntryAssign? || waiting.value.EntryUpdate?) ==>
          waiting.value.seqNum == Wrap(top) && (waiting.value.EntryUpdate? ==> low < top))
  }

  lemma RisesTo(name: Bytes, low: nat, top: nat, now: Option<Cell>, waiting: Option<Message>, m: Message, counter: nat)
    requires Reached(name, low, top, now, waiting) && (m.EntryAssign? || m.EntryUpdate?)
    requires m.seqNum == Wrap(counter) && top <= counter <= low + HALF && (m.EntryUpdate? ==> top < counter)
    ensures now.Some? ==> Accepts(now.value.seqNum, m) && now.value.face.name == name
  {
    if now.Some? {
      var from := if now.value.seqNum == Wrap(low) then low else top;
      WrapDistance(from, counter);
      BehindIsDistance(now.value.seqNum, m.seqNum);
    }
  }

  lemma Begins(c: Option<Cell>, name: Bytes, floor: nat, i: nat)
    requires if c.Some? then c.value.seqNum == Wrap(floor) && c.value.face.name == name else floor == 0
    ensures Reached(name, Floor(floor, i, []), Top(floor, i, [], []), TakeAll(c, i, Sent([])), Waiting(Batch([]), i))
  {
  }

  lemma {:induction false} RisingIsOrderly(c: Option<Cell>, name: Bytes, floor: nat, i: nat, ms: seq<Message>,
                                           counters: seq<nat>)
    requires i != UNASSIGNED && |counters| == |ms| && Rising(name, floor, i, ms, counters)
    requires if c.Some? then c.value.seqNum == Wrap(floor) && c.value.face.name == name else floor == 0
    ensures Orderly(c, i, ms)
    ensures Reached(name, Floor(floor, i, ms), Top(floor, i, ms, counters), TakeAll(c, i, Sent(ms)), Waiting(Batch(ms), i))
    decreases |ms|
  {
    hide Waiting, Enqueue, Take, Reached;
    if ms == [] {
      Begins(c, name, floor, i);
    } else {
      var n := |ms| - 1;
      var before, m, now := ms[..n], ms[n], TakeAll(c, i, Sent(ms[..n]));
      assert ms == before + [m];
      RisingIsOrderly(c, name, floor, i, before, counters[..n]);
      LastSent(c, i, before, m);
      var low, top := Floor(floor, i, before), Top(floor, i, before, counters[..n]);
      if IsValueOf(Some(m), i) {
        RisesTo(name, low, top, now, Waiting(Batch(before), i), m, counters[n]);
      }
      EnqueueKeepsMarked(Batch(before), m);
      assert Deleted(ms, i) <==> Deleted(before, i) || m == EntryDelete(i);
      NextReached(name, low, top, now, i, Batch(before), m, counters[n]);
    }
  }

  lemma WaitingMoves(q: Pending, m: Message, i: nat)
    requires Marked(q) && i != UNASSIGNED && !m.ClearEntries?
    ensures Waiting(Enqueue(q, m), i) ==
      if m == EntryDelete(i) then None else if IsValueOf(Some(m), i) then Some(Joined(q, m)) else Waiting(q, i)
  {
    EnqueueMarks(q, m, i);
    EnqueueSlots(q, m);
    EnqueueKeepsMarkedAt(q, m, i);
    assert MarkedAt(q, i);
  }

  lemma NextReached(name: Bytes, low: nat, top: nat, now: Option<Cell>, i: nat, q: Pending, m: Message, counter: nat)
    requires Marked(q) && i != UNASSIGNED && Reached(name, low, top, now, Waiting(q, i)) && !m.ClearEntries?
    requires IsValueOf(Some(m), i) ==>
      && m.seqNum == Wrap(counter) && top <= counter <= low + HALF
      && (m.EntryAssign? ==> m.name == name) && (m.EntryUpdate? ==> top < counter)
      && (now.Some? ==> Accepts(now.value.seqNum, m))
    ensures Reached(name, if m == EntryDelete(i) then 0 else low,
                    if m == EntryDelete(i) then 0 else if IsValueOf(Some(m), i) then counter else top,
                    Take(now, i, m), Waiting(Enqueue(q, m), i))
  {
    hide Less, LessEq, Waiting, Enqueue, MarkedAt;
    WaitingMoves(q, m, i);
    assert MarkedAt(q, i);
  }

  /** A condition the sender can check: when the serials queued for an entry since the last post, together with the one
      last posted, come from counters that go up by no more than 2^15, merging keeps presence, name and value, and the
      flags too if no flags update comes before an assignment. */
  lemma {:induction false} SpanKeepsMeaning(c: Option<Cell>, name: Bytes, floor: nat, i: nat, ms: seq<Message>,
                                            counters: seq<nat>)
    requires i != UNASSIGNED && |counters| == |ms| && Rising(name, floor, i, ms, counters)
    requires if c.Some? then c.value.seqNum == Wrap(floor) && c.value.face.name == name else floor == 0
    ensures Same(FaceOf(TakeAll(c, i, Batch(ms).slots)), FaceOf(TakeAll(c, i, Sent(ms))), FlagsInOrder(ms, i))
  {
    RisingIsOrderly(c, name, floor, i, ms, counters);
    CoalescingKeepsMeaning(c, i, ms);
    if !Deleted(ms, i) && c.Some? && Waiting(Batch(ms), i).Some? {
      var top := Top(floor, i, ms, counters);
      WrapDistance(floor, top);
      BehindIsDistance(c.value.seqNum, Waiting(Batch(ms), i).value.seqNum);
    }
  }

  /** Values of different entries are not merged at all. */
  lemma {:induction false} DifferentUnmerged(ms: seq<Message>)
    requires forall k :: 0 <= k < |ms| ==> (ms[k].EntryAssign? || ms[k].EntryUpdate?) && ms[k].id != UNASSIGNED
    requires forall j, k :: 0 <= j < k < |ms| ==> ms[j].id != ms[k].id
    ensures Batch(ms).slots == Sent(ms)
    ensures forall k :: 0 <= k < |ms| ==> Sent(ms)[k] == Some(ms[k])
    decreases |ms|
  {
    if ms != [] {
      var before, m := ms[..|ms| - 1], ms[|ms| - 1];
      DifferentUnmerged(before);
      var q := Batch(before);
      assert MarkedAt(q, m.id);
    }
  }

  // ---------------------------------------------------------------------------------------------
  // What is never merged
  // ---------------------------------------------------------------------------------------------

  /** All but the values and flags of an entry with an id. */
  predicate Lasting(m: Message) {
    !((m.EntryAssign? || m.EntryUpdate? || m.FlagsUpdate?) && m.id != UNASSIGNED)
  }

  /** The lasting messages of a batch that no clear behind them takes along. */
  function Spared(ms: seq<Message>): seq<Message> {
    if ms == [] then [] else SparedBy(ms[0], ms[1..]) + Spared(ms[1..])
  }

  function SparedBy(m: Message, behind: seq<Message>): seq<Message> {
    if Lasting(m) && (AboutTable(m) ==> ClearEntries !in behind) then [m] else []
  }

  /** The lasting messages still waiting. */
  function Waits(slots: seq<Option<Message>>): seq<Message> {
    if slots == [] then []
    else (if slots[0].Some? && Lasting(slots[0].value) then [slots[0].value] else []) + Waits(slots[1..])
  }

  /** Those of them that a clear leaves alone. */
  function OffTable(ms: seq<Message>): seq<Message> {
    if ms == [] then [] else (if AboutTable(ms[0]) then [] else [ms[0]]) + OffTable(ms[1..])
  }

  lemma {:induction false} OffTableParts(xs: seq<Message>, ys: seq<Message>)
    ensures OffTable(xs + ys) == OffTable(xs) + OffTable(ys)
    decreases |xs|
  {
    if xs == [] {
      assert xs + ys == ys;
    } else {
      assert (xs + ys)[1..] == xs[1..] + ys;
      OffTableParts(xs[1..], ys);
    }
  }

  lemma {:induction false} SparedNext(ms: seq<Message>, m: Message)
    ensures Spared(ms + [m]) ==
      (if m.ClearEntries? then OffTable(Spared(ms)) else Spared(ms)) + (if Lasting(m) then [m] else [])
  {
    hide SparedBy, OffTable, AboutTable, Lasting;
    if ms == [] {
      assert ms + [m] == [m];
      SparedOne(m);
    } else {
      var rest, tail := ms[1..], if Lasting(m) then [m] else [];
      var head := SparedBy(ms[0], rest);
      assert (ms + [m])[0] == ms[0] && (ms + [m])[1..] == rest + [m];
      SparedNext(rest, m);
      SparedByNext(ms[0], rest, m);
      OffTableParts(head, Spared(rest));
      Associates(head, Spared(rest), tail);
      Associates(OffTable(head), OffTable(Spared(rest)), tail);
    }
  }

  lemma SparedOne(m: Message)
    ensures Spared([m]) == if Lasting(m) then [m] else []
    ensures Spared([]) == [] && OffTable([]) == []
  {
    assert [m][1..] == [];
  }

  lemma Associates(a: seq<Message>, b: seq<Message>, c: seq<Message>)
    ensures a + (b + c) == a + b + c
  {
  }

  lemma SparedByNext(x: Message, rest: seq<Message>, m: Message)
    ensures SparedBy(x, rest + [m]) == if m.ClearEntries? then OffTable(SparedBy(x, rest)) else SparedBy(x, rest)
  {
    assert ClearEntries in rest + [m] <==> ClearEntries in rest || m == ClearEntries;
    assert OffTable([]) == [] && [x][1..] == [];
  }

  lemma {:induction false} WaitsNext(slots: seq<Option<Message>>, m: Message)
    ensures Waits(slots + [Some(m)]) == Waits(slots) + if Lasting(m) then [m] else []
  {
    if slots == [] {
      assert slots + [Some(m)] == [Some(m)] && [Some(m)][1..] == [];
    } else {
      assert (slots + [Some(m)])[1..] == slots[1..] + [Some(m)];
      WaitsNext(slots[1..], m);
    }
  }

  /** Changing slots that hold nothing lasting, into others that hold nothing lasting, changes nothing here. */
  lemma {:induction false} WaitsSame(xs: seq<Option<Message>>, ys: seq<Option<Message>>)
    requires |xs| == |ys|
    requires forall k :: 0 <= k < |xs| ==>
      xs[k] == ys[k] || ((xs[k].Some? ==> !Lasting(xs[k].value)) && (ys[k].Some? ==> !Lasting(ys[k].value)))
    ensures Waits(xs) == Waits(ys)
    decreases |xs|
  {
    if xs != [] {
      WaitsSame(xs[1..], ys[1..]);
    }
  }

  lemma {:induction false} WaitsCleared(slots: seq<Option<Message>>)
    ensures Waits(KnockOut(slots)) == OffTable(Waits(slots))
    decreases |slots|
  {
    if slots != [] {
      assert KnockOut(slots)[1..] == KnockOut(slots[1..]);
      WaitsCleared(slots[1..]);
      var head := if slots[0].Some? && Lasting(slots[0].value) then [slots[0].value] else [];
      OffTableParts(head, Waits(slots[1..]));
      if head != [] {
        assert head[1..] == [];
      }
    }
  }

  lemma EnqueueWaits(q: Pending, m: Message)
    requires Marked(q)
    ensures Waits(Enqueue(q, m).slots) ==
      (if m.ClearEntries? then OffTable(Waits(q.slots)) else Waits(q.slots)) + (if Lasting(m) then [m] else [])
  {
    hide Waits, OffTable, Lasting;
    if m.ClearEntries? {
      WaitsCleared(q.slots);
      WaitsNext(KnockOut(q.slots), m);
    } else {
      var s, s' := q.slots, Enqueue(q, m).slots;
      EnqueueSlots(q, m);
      OnlyMergedChange(q, m);
      WaitsSame(s, s'[..|s|]);
      if |s'| == |s| {
        assert s'[..|s|] == s' && Waits(s) + [] == Waits(s);
      } else {
        assert s' == s'[..|s|] + [Some(m)];
        WaitsNext(s'[..|s|], m);
      }
    }
  }

  lemma OnlyMergedChange(q: Pending, m: Message)
    requires Marked(q) && !m.ClearEntries?
    ensures var s, s' := q.slots, Enqueue(q, m).slots;
      && |s| <= |s'| && (|s'| == |s| ==> !Lasting(m))
      && forall k :: 0 <= k < |s| ==>
           s[k] == s'[k] || ((s[k].Some? ==> !Lasting(s[k].value)) && (s'[k].Some? ==> !Lasting(s'[k].value)))
  {
    EnqueueSlots(q, m);
  }

  /** Requests for an id, deletions, clears, calls, responses and control messages are never merged: after any batch, those
      that wait are exactly those that were queued, in their order, but for messages about the table that a clear behind
      them makes pointless. */
  lemma {:induction false} LastingKept(ms: seq<Message>)
    ensures Waits(Batch(ms).slots) == Spared(ms)
    decreases |ms|
  {
    if ms != [] {
      var before, m := ms[..|ms| - 1], ms[|ms| - 1];
      assert ms == before + [m];
      LastingKept(before);
      SparedNext(before, m);
      EnqueueKeepsMarked(Batch(before), m);
      EnqueueWaits(Batch(before), m);
    }
  }
}
