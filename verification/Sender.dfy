/**
  The merging queue as the sender can judge it: from its own table now, its own table at the last post, and what waits
  in the queue. No condition here looks at a listener or at the wire.
 */
module Sender {
  import opened Basics
  import opened Messages
  import opened Serials
  import opened Tables
  import opened TableRuns
  import opened OutgoingQueue
  import opened Mirror
  import opened Replica
  import opened Coalescing
  import opened Direct
  import opened Handshake

  /** The sender's record of what it has posted: its table as users saw it at the last post, and the serial last posted
      for each entry of it, or 0 for an entry of which a single value has been posted: the one that created it. */
  datatype Posted = Posted(view: View, serials: map<nat, Serial>)

  /** The record after another post. */
  function AfterPost(p: Posted, v: View, q: Pending): Posted {
    Posted(v, map i: nat | i in v.faces ::
      if i !in p.serials then 0 else if Waiting(q, i).Some? then Waiting(q, i).value.seqNum else p.serials[i])
  }

  /** The record is true of the listener: it will hold what was posted. */
  ghost predicate Kept(s: System, p: Posted)
    requires Inv(s)
  {
    forall i: nat :: KeptAt(s, p, i)
  }

  ghost predicate KeptAt(s: System, p: Posted, i: nat)
    requires Inv(s)
  {
    var base := BaseAt(s.client, s.wire, i);
    && FaceOf(base) == p.view.At(i)
    && (base.Some? <==> i in p.serials)
    && (base.Some? ==> base.value.seqNum == p.serials[i])
    && (HasClear(s.pending.slots) && i in p.view.faces && i in ViewOf(s.server).faces ==> Persistent(p.view.faces[i].flags))
  }

  // ---------------------------------------------------------------------------------------------
  // Conditions on the sender
  // ---------------------------------------------------------------------------------------------

  /** At most 2^15 increments lead from the serial last posted for the entry to that of `m`. */
  predicate InSpan(p: Posted, q: Pending, m: Message) {
    (m.EntryAssign? || m.EntryUpdate?) && m.id in p.serials ==>
      var d := Distance(p.serials[m.id], m.seqNum);
      d <= HALF && (d == 0 ==> Joined(q, m).EntryAssign?)
  }

  /** Entries that were persistent at the last post, or are persistent now, have not changed since. */
  ghost predicate SparedUnchanged(posted: View, now: View) {
    forall i: nat :: PersistentKept(posted.At(i), now.At(i))
  }

  ghost predicate Sendable(p: Posted, v: View, q: Pending, m: Message)
    requires Marked(q)
  {
    !FlagsOvertaken(q, m) && InSpan(p, q, m) && (m.ClearEntries? ==> SparedUnchanged(p.view, v))
  }

  /** With a true record the sender can tell exactly whether merging a message keeps the listener on course. */
  lemma SenderKnows(s: System, p: Posted, m: Message)
    requires Inv(s) && Kept(s, p) && Legal(ViewOf(s.server), m)
    ensures Faithful(s.client, s.wire, s.pending, m) <==> Sendable(p, ViewOf(s.server), s.pending, m)
  {
    hide Take, TakeAll;
    var v, q := ViewOf(s.server), s.pending;
    if m.ClearEntries? {
      SafeIsUnchanged(s, p);
    } else if m.EntryAssign? || m.EntryUpdate? {
      assert KeptAt(s, p, m.id) && BaseFits(v, s.client, s.wire, m.id);
      UnderIsBase(s, p, m.id);
      if m.id in p.serials {
        BehindIsDistance(p.serials[m.id], m.seqNum);
      }
    }
  }

  /** What the listener holds of the entry of a value that was posted, as the sender knows it. */
  function PostedCell(p: Posted, i: nat): Cell
    requires i in p.view.faces && i in p.serials
  {
    Cell(p.view.faces[i], p.serials[i])
  }

  /** Queueing `m` loses nothing: a value in the span overtakes no flags, one out of the span asks for nothing that was
      not posted, and a clear drops nothing. */
  ghost predicate LosesNothing(p: Posted, v: View, q: Pending, m: Message)
    requires Marked(q)
  {
    && (m.ClearEntries? ==> SparedUnchanged(p.view, v))
    && (if InSpan(p, q, m) then !FlagsOvertaken(q, m)
        else m.id in p.view.faces && Redundant(PostedCell(p, m.id), q, m))
  }

  /** And it can tell exactly what the listener will show: after the merge it still ends with the server's entry under
      every id if and only if the sender sees that nothing is lost. */
  lemma SenderKnowsLoss(s: System, p: Posted, m: Message, u: View)
    requires Inv(s) && Kept(s, p) && Legal(ViewOf(s.server), m) && Tells(ViewOf(s.server), m, u)
    ensures (forall i: nat :: Caught(u, s.client, s.wire, Enqueue(s.pending, m).slots, i)) <==>
      LosesNothing(p, ViewOf(s.server), s.pending, m)
  {
    hide Caught, Enqueue, Redundant, FlagsOvertaken, Take, TakeAll, SlotFits, SlotAccepted, SlotOrdered;
    var v, q := ViewOf(s.server), s.pending;
    MergeIsFaithful(v, u, s.client, s.wire, q, m);
    if m.ClearEntries? {
      SafeIsUnchanged(s, p);
    } else if m.EntryAssign? || m.EntryUpdate? {
      assert KeptAt(s, p, m.id) && BaseFits(v, s.client, s.wire, m.id);
      UnderIsBase(s, p, m.id);
      if m.id in p.serials {
        BehindIsDistance(p.serials[m.id], m.seqNum);
      }
    }
  }

  /** A clear drops nothing exactly when it has nothing to drop. */
  lemma SafeIsUnchanged(s: System, p: Posted)
    requires Inv(s) && Kept(s, p)
    ensures ClearSafe(s.client, s.wire, s.pending) <==> SparedUnchanged(p.view, ViewOf(s.server))
  {
    hide Take, TakeAll;
    forall i: nat
      ensures FaceOf(BaseAt(s.client, s.wire, i)) == p.view.At(i)
      ensures FaceOf(TakeAll(BaseAt(s.client, s.wire, i), i, s.pending.slots)) == ViewOf(s.server).At(i)
    {
      assert KeptAt(s, p, i) && Caught(ViewOf(s.server), s.client, s.wire, s.pending.slots, i);
    }
  }

  /** Nothing stands between a live entry, or an id not given out yet, and its base. */
  lemma UnderIsBase(s: System, p: Posted, i: nat)
    requires Inv(s) && KeptAt(s, p, i) && (i in ViewOf(s.server).faces || i >= ViewOf(s.server).size)
    ensures Under(BaseAt(s.client, s.wire, i), i, s.pending.slots) == BaseAt(s.client, s.wire, i)
  {
    hide TakeAll;
    assert BaseFits(ViewOf(s.server), s.client, s.wire, i);
  }

  /** No message waits about an entry that was persistent at the last post or is persistent now. */
  ghost predicate Quiet(posted: View, now: View, q: Pending) {
    forall k :: 0 <= k < |q.slots| && q.slots[k].Some? && AboutTable(q.slots[k].value)
                && !q.slots[k].value.ClearEntries? ==>
      var i := q.slots[k].value.id;
      && (i in posted.faces ==> !Persistent(posted.faces[i].flags))
      && (i in now.faces ==> !Persistent(now.faces[i].flags))
  }

  /** Then a clear drops nothing. */
  lemma QuietIsSafe(s: System, p: Posted)
    requires Inv(s) && Kept(s, p) && Quiet(p.view, ViewOf(s.server), s.pending)
    ensures SparedUnchanged(p.view, ViewOf(s.server))
  {
    var v := ViewOf(s.server);
    forall i: nat
      ensures PersistentKept(p.view.At(i), v.At(i))
    {
      assert KeptAt(s, p, i) && Caught(v, s.client, s.wire, s.pending.slots, i);
      if (i in p.view.faces && Persistent(p.view.faces[i].flags)) || (i in v.faces && Persistent(v.faces[i].flags)) {
        UntouchedBatch(s, p, i);
      }
    }
  }

  /** The converse fails only for messages that repeat what was posted: where a clear drops nothing though something about
      such an entry waits, it is no deletion, the value is the posted one, and so are the flags unless an assignment
      waits behind them. */
  lemma LoudRepeats(s: System, p: Posted, k: nat)
    requires Inv(s) && Kept(s, p) && SparedUnchanged(p.view, ViewOf(s.server)) && k < |s.pending.slots|
    requires s.pending.slots[k].Some? && AboutTable(s.pending.slots[k].value) && !s.pending.slots[k].value.ClearEntries?
    requires var i, v := s.pending.slots[k].value.id, ViewOf(s.server);
      (i in p.view.faces && Persistent(p.view.faces[i].flags)) || (i in v.faces && Persistent(v.faces[i].flags))
    ensures var m := s.pending.slots[k].value;
      && !m.EntryDelete? && m.id in p.view.faces
      && (m.EntryAssign? || m.EntryUpdate? ==> p.view.faces[m.id].value == m.value)
      && (m.FlagsUpdate? && Mark(s.pending.marks, m.id).0 < k + 1 ==> p.view.faces[m.id].flags == m.flags)
  {
    hide TakeAll;
    var v, q := ViewOf(s.server), s.pending;
    var m := q.slots[k].value;
    assert SlotFits(v, q.slots, k) && PersistentKept(p.view.At(m.id), v.At(m.id));
    SoundFromInv(v, s.client, s.wire, q, m.id);
    assert Caught(v, s.client, s.wire, q.slots, m.id);
    assert IsValueOf(q.slots[k], m.id) || IsFlagsOf(q.slots[k], m.id);
    OverShows(Under(BaseAt(s.client, s.wire, m.id), m.id, q.slots), m.id, q, v.faces[m.id].name, k);
  }

  /** What waits at `k` is shown after the batch. */
  lemma OverShows(c: Option<Cell>, i: nat, q: Pending, name: Bytes, k: nat)
    requires MarkedAt(q, i) && Sound(c, i, q, name) && Over(c, i, q).Some? && k < |q.slots|
    requires IsValueOf(q.slots[k], i) || IsFlagsOf(q.slots[k], i)
    ensures IsValueOf(q.slots[k], i) ==> Over(c, i, q).value.face.value == q.slots[k].value.value
    ensures IsFlagsOf(q.slots[k], i) && Mark(q.marks, i).0 < k + 1 ==>
      Over(c, i, q).value.face.flags == q.slots[k].value.flags
  {
    hide Less, LessEq;
  }

  lemma UntouchedBatch(s: System, p: Posted, i: nat)
    requires Inv(s) && KeptAt(s, p, i) && Quiet(p.view, ViewOf(s.server), s.pending)
    requires var v := ViewOf(s.server);
      (i in p.view.faces && Persistent(p.view.faces[i].flags)) || (i in v.faces && Persistent(v.faces[i].flags))
    ensures TakeAll(BaseAt(s.client, s.wire, i), i, s.pending.slots) == BaseAt(s.client, s.wire, i)
  {
    hide TakeAll;
    var base, slots := BaseAt(s.client, s.wire, i), s.pending.slots;
    var z := ClearFirst(base, ViewOf(s.server), i, slots);
    SkipForeign(base, i, slots, z, |slots|);
    assert slots[..|slots|] == slots;
    if i in ViewOf(s.server).faces {
      UnderIsBase(s, p, i);
    }
  }

  // ---------------------------------------------------------------------------------------------
  // Runs
  // ---------------------------------------------------------------------------------------------

  ghost function NextPosted(s: System, p: Posted, e: Replica.Event): Posted
    requires Inv(s)
  {
    if e.Post? then AfterPost(p, ViewOf(s.server), s.pending) else p
  }

  /** No file is loaded, ids stay 16-bit, and whatever is said is sendable. */
  ghost predicate Minded(s: System, p: Posted, e: Replica.Event)
    requires Inv(s)
  {
    e.Serve? ==>
      var (t, out) := Step(s.server, SERVER, e.op);
      && !e.op.OpLoad? && |t.index| <= UNASSIGNED
      && forall o :: o in out ==> Sendable(p, ViewOf(s.server), s.pending, o.msg)
  }

  /** The serial that a listener holds after a batch. */
  lemma SerialAfter(c: Option<Cell>, i: nat, q: Pending, name: Bytes)
    requires MarkedAt(q, i) && Sound(c, i, q, name) && Over(c, i, q).Some?
    ensures Over(c, i, q).value.seqNum ==
      if c.None? then 0 else if Waiting(q, i).Some? then Waiting(q, i).value.seqNum else c.value.seqNum
  {
  }

  lemma PostKept(s: System, p: Posted)
    requires Inv(s) && Kept(s, p)
    ensures Inv(Advance(s, Post)) && Kept(Advance(s, Post), NextPosted(s, p, Post))
  {
    hide TakeAll, Over, Sound, Under, Waiting, QueueInv;
    PostKeepsInv(s);
    var s', p', v := Advance(s, Post), NextPosted(s, p, Post), ViewOf(s.server);
    forall i: nat
      ensures KeptAt(s', p', i)
    {
      TakeAllSplits(CellAt(s.client, i), i, s.wire, s.pending.slots);
      CaughtNow(s, i);
      assert KeptAt(s, p, i);
      if i in v.faces {
        SoundFromInv(v, s.client, s.wire, s.pending, i);
        UnderIsBase(s, p, i);
        SerialAfter(BaseAt(s.client, s.wire, i), i, s.pending, v.faces[i].name);
      }
    }
  }

  lemma CaughtNow(s: System, i: nat)
    requires Inv(s)
    ensures Caught(ViewOf(s.server), s.client, s.wire, s.pending.slots, i)
  {
  }

  lemma ArriveKept(s: System, p: Posted)
    requires Inv(s) && Kept(s, p)
    ensures Inv(Advance(s, Arrive)) && Kept(Advance(s, Arrive), p)
  {
    hide QueueInv;
    if s.wire != [] {
      ArriveKeepsInv(s);
      var s' := Advance(s, Arrive);
      forall i: nat
        ensures KeptAt(s', p, i)
      {
        assert KeptAt(s, p, i);
        ArriveKeepsBase(s, i);
      }
    }
  }

  /** What an operation that loads no file says is one message at most, and merging it is faithful if it is sendable. */
  lemma MindedIsAllowed(s: System, p: Posted, op: Op)
    requires Inv(s) && Kept(s, p) && Minded(s, p, Serve(op))
    ensures Allowed(s, Serve(op)) && |Step(s.server, SERVER, op).1| <= 1
    ensures var (t', out) := Step(s.server, SERVER, op);
      && LiveIndex(t')
      && (if out == [] then ViewOf(t') == ViewOf(s.server)
          else Legal(ViewOf(s.server), out[0].msg) && Tells(ViewOf(s.server), out[0].msg, ViewOf(t')))
      && EnqueueAll(s.pending, out) == if out == [] then s.pending else Enqueue(s.pending, out[0].msg)
  {
    hide Step, Faithful, Sendable, Enqueue, Caught, SlotFits, SlotAccepted, SlotOrdered, BaseFits;
    ServerTells(s.server, op);
    ServerSerials(s.server, op, 0);
    var (t', out) := Step(s.server, SERVER, op);
    if out != [] {
      assert out == [out[0]] && out[1..] == [];
      var v, m := ViewOf(s.server), out[0].msg;
      var u :| Legal(v, m) && Tells(v, m, u) && Story(u, out[1..], ViewOf(t'));
      assert u == ViewOf(t');
      SenderKnows(s, p, out[0].msg);
      OneQueued(s.client, s.wire, s.pending, out[0]);
    }
  }

  lemma OneQueued(client: Table, wire: seq<Option<Message>>, q: Pending, o: Out)
    requires LiveIndex(client) && Marked(q) && Faithful(client, wire, q, o.msg)
    ensures AllFaithful(client, wire, q, [o]) && EnqueueAll(q, [o]) == Enqueue(q, o.msg)
  {
    hide Faithful, Enqueue;
    EnqueueKeepsMarked(q, o.msg);
    assert [o][1..] == [];
    assert EnqueueAll(Enqueue(q, o.msg), []) == Enqueue(q, o.msg);
  }

  lemma ServeKept(s: System, p: Posted, op: Op)
    requires Inv(s) && Kept(s, p) && Minded(s, p, Serve(op))
    ensures Inv(Advance(s, Serve(op))) && Kept(Advance(s, Serve(op)), p)
  {
    hide Step, QueueInv, EnqueueAll, Enqueue;
    MindedIsAllowed(s, p, op);
    AdvanceKeepsInv(s, Serve(op));
    var s', out := Advance(s, Serve(op)), Step(s.server, SERVER, op).1;
    forall i: nat
      ensures KeptAt(s', p, i)
    {
      assert KeptAt(s, p, i);
      if out != [] {
        StillPersistent(s, s', p, out[0].msg, i);
      }
    }
  }

  /** An entry that has outlived a waiting clear was persistent when it was posted. */
  lemma StillPersistent(s: System, s': System, p: Posted, m: Message, i: nat)
    requires Inv(s) && Inv(s') && KeptAt(s, p, i) && Sendable(p, ViewOf(s.server), s.pending, m)
    requires Legal(ViewOf(s.server), m) && Tells(ViewOf(s.server), m, ViewOf(s'.server))
    requires s'.pending == Enqueue(s.pending, m) && s'.client == s.client && s'.wire == s.wire
    ensures KeptAt(s', p, i)
  {
    hide Enqueue, TakeAll;
    var v, u := ViewOf(s.server), ViewOf(s'.server);
    assert u.At(i) == Absorb(v.At(i), i, m);
    assert BaseFits(v, s.client, s.wire, i);
    if m.ClearEntries? {
      assert PersistentKept(p.view.At(i), v.At(i));
    } else {
      ClearKept(s.pending, m);
      LegalKeepsDistinct(v, m, u);
    }
  }

  /** Every step of a run is minded. */
  ghost predicate AllMinded(s: System, p: Posted, es: seq<Replica.Event>)
    requires Inv(s)
    decreases |es|
  {
    es != [] ==>
      && Minded(s, p, es[0])
      && (Inv(Advance(s, es[0])) ==> AllMinded(Advance(s, es[0]), NextPosted(s, p, es[0]), es[1..]))
  }

  lemma StepKept(s: System, p: Posted, e: Replica.Event)
    requires Inv(s) && Kept(s, p) && Minded(s, p, e)
    ensures Allowed(s, e) && Inv(Advance(s, e)) && Kept(Advance(s, e), NextPosted(s, p, e))
  {
    match e {
      case Serve(op) =>
        MindedIsAllowed(s, p, op);
        ServeKept(s, p, op);
      case Post => PostKept(s, p);
      case Arrive => ArriveKept(s, p);
    }
  }

  lemma {:induction false} MindedRunIsAllowed(s: System, p: Posted, es: seq<Replica.Event>)
    requires Inv(s) && Kept(s, p) && AllMinded(s, p, es)
    ensures AllAllowed(s, es)
    decreases |es|
  {
    if es != [] {
      StepKept(s, p, es[0]);
      MindedRunIsAllowed(Advance(s, es[0]), NextPosted(s, p, es[0]), es[1..]);
    }
  }

  /** The mirror over every run with merging: as long as the sender minds the order of flags, the span of serials since
      its last post, and clears that would drop news of persistent entries, the listener's table followed by what is
      posted and what waits is the server's table. */
  lemma MergingRun(s: System, p: Posted, es: seq<Replica.Event>)
    requires Inv(s) && Kept(s, p) && AllMinded(s, p, es)
    ensures var r := RunSystem(s, es);
      && Inv(r)
      && (forall i: nat :: FaceOf(TakeAll(CellAt(r.client, i), i, r.wire + r.pending.slots)) == FaceOf(CellAt(r.server, i)))
      && (r.wire == [] && r.pending == IDLE ==> Agree(r.client, r.server))
  {
    MindedRunIsAllowed(s, p, es);
    ReplicaRun(s, es);
  }

  /** The record at the beginning, when both sides hold the same and nothing is on its way. */
  ghost function Opening(server: Table): Posted
    requires LiveIndex(server)
  {
    Posted(ViewOf(server), map i: nat | i < |server.index| && CellAt(server, i).Some? :: CellAt(server, i).value.seqNum)
  }

  lemma OpeningIsKept(server: Table, client: Table)
    requires Linked(server) && AllAssigned(server) && Linked(client) && AllAssigned(client)
    requires forall i: nat :: CellAt(client, i) == CellAt(server, i)
    ensures Inv(System(server, IDLE, [], client)) && Kept(System(server, IDLE, [], client), Opening(server))
  {
    BeginsInStep(server, client);
    var s, p := System(server, IDLE, [], client), Opening(server);
    ViewIsDistinct(server);
    forall i: nat
      ensures KeptAt(s, p, i)
    {
      assert CellAt(client, i) == CellAt(server, i);
    }
  }

  // ---------------------------------------------------------------------------------------------
  // Counting serial steps
  // ---------------------------------------------------------------------------------------------

  /** How far the serials of a sender may move between two posts. */
  const BUDGET := 0x3fff

  /** How far an operation moves the serial of an entry that is there already. */
  function Steps(t: Table, out: seq<Out>): nat
    requires LiveIndex(t)
  {
    if out != [] && (out[0].msg.EntryAssign? || out[0].msg.EntryUpdate?) && CellAt(t, out[0].msg.id).Some? then
      Distance(CellAt(t, out[0].msg.id).value.seqNum, out[0].msg.seqNum)
    else 0
  }

  /** After `k` steps since the last post: a waiting value has the entry's serial, and that is not far from the one
      posted; of an entry posted only once, all steps of the batch that brought it count still. */
  ghost predicate Paced(s: System, p: Posted, k: nat)
    requires Inv(s)
  {
    && k <= BUDGET
    && forall i: nat :: CellAt(s.server, i).Some? ==> PacedAt(p, s.pending, k, i, CellAt(s.server, i).value.seqNum)
  }

  ghost predicate PacedAt(p: Posted, q: Pending, k: nat, i: nat, seqNum: Serial) {
    var w := Waiting(q, i);
    && (w.Some? ==> w.value.seqNum == seqNum)
    && (if i in p.serials then Distance(p.serials[i], seqNum) <= BUDGET + 1 + (if w.Some? then k else 0)
        else seqNum <= k + 1)
  }

  ghost predicate Unhurried(s: System, p: Posted, k: nat, e: Replica.Event)
    requires Inv(s)
  {
    e.Serve? ==>
      var (t, out) := Step(s.server, SERVER, e.op);
      && !e.op.OpLoad? && |t.index| <= UNASSIGNED
      && k + Steps(s.server, out) <= BUDGET
      && forall o :: o in out ==>
           !FlagsOvertaken(s.pending, o.msg) && (o.msg.ClearEntries? ==> Quiet(p.view, ViewOf(s.server), s.pending))
  }

  ghost function NextSteps(s: System, k: nat, e: Replica.Event): nat
    requires Inv(s)
  {
    match e
    case Serve(op) => k + Steps(s.server, Step(s.server, SERVER, op).1)
    case Post => 0
    case Arrive => k
  }

  lemma StepsAdd(a: Serial, b: Serial, c: Serial)
    requires Distance(a, b) + Distance(b, c) < MODULUS
    ensures Distance(a, c) == Distance(a, b) + Distance(b, c)
  {
  }

  /** The serial of a value moves on by its steps, and stays in the span. */
  lemma ValuePaced(p: Posted, q: Pending, k: nat, i: nat, seqNum: Serial, m: Message)
    requires Marked(q) && i != UNASSIGNED && PacedAt(p, q, k, i, seqNum) && IsValueOf(Some(m), i) && Accepts(seqNum, m)
    requires k + Distance(seqNum, m.seqNum) <= BUDGET
    ensures InSpan(p, q, m) && PacedAt(p, Enqueue(q, m), k + Distance(seqNum, m.seqNum), i, m.seqNum)
  {
    hide Enqueue, Waiting, Marked, Less, LessEq;
    WaitingMoves(q, m, i);
    BehindIsDistance(seqNum, m.seqNum);
    if i in p.serials {
      StepsAdd(p.serials[i], seqNum, m.seqNum);
    } else {
      StepsAdd(0, seqNum, m.seqNum);
    }
  }

  lemma UnhurriedIsMinded(s: System, p: Posted, k: nat, op: Op)
    requires Inv(s) && Kept(s, p) && Paced(s, p, k) && Unhurried(s, p, k, Serve(op))
    ensures Minded(s, p, Serve(op))
  {
    hide Step, Enqueue, Accepts;
    var (t', out) := Step(s.server, SERVER, op);
    ServerTells(s.server, op);
    ServerSerials(s.server, op, 0);
    if out != [] {
      var m := out[0].msg;
      assert out == [out[0]];
      if m.ClearEntries? {
        QuietIsSafe(s, p);
      } else if m.EntryAssign? || m.EntryUpdate? {
        assert KeptAt(s, p, m.id);
        ServerSerials(s.server, op, m.id);
        SaidIsShown(s.server, t', out);
        var u :| Legal(ViewOf(s.server), m) && Tells(ViewOf(s.server), m, u) && Story(u, out[1..], ViewOf(t'));
        if CellAt(s.server, m.id).Some? {
          ValuePaced(p, s.pending, k, m.id, CellAt(s.server, m.id).value.seqNum, m);
        } else {
          assert BaseFits(ViewOf(s.server), s.client, s.wire, m.id);
        }
      }
    }
  }

  /** A message that says nothing of the serial of `i` leaves its pace alone. */
  lemma OthersPaced(p: Posted, q: Pending, k: nat, k': nat, i: nat, seqNum: Serial, m: Message)
    requires Marked(q) && i != UNASSIGNED && PacedAt(p, q, k, i, seqNum) && k <= k'
    requires !IsValueOf(Some(m), i) && m != EntryDelete(i) && (m.ClearEntries? ==> Waiting(q, i).None?)
    ensures PacedAt(p, Enqueue(q, m), k', i, seqNum)
  {
    hide Enqueue, Marked;
    if m.ClearEntries? {
      EnqueueMarks(q, m, i);
    } else {
      hide Waiting;
      WaitingMoves(q, m, i);
    }
  }

  /** An assignment that creates it begins in pace. */
  lemma NewPaced(p: Posted, q: Pending, k: nat, i: nat, m: Message)
    requires Marked(q) && i != UNASSIGNED && m.EntryAssign? && m.id == i && m.seqNum <= 1 && i !in p.serials
    ensures PacedAt(p, Enqueue(q, m), k, i, m.seqNum)
  {
    hide Enqueue, Marked, Waiting;
    WaitingMoves(q, m, i);
  }

  lemma ServePaced(s: System, p: Posted, k: nat, op: Op)
    requires Inv(s) && Kept(s, p) && Paced(s, p, k) && Unhurried(s, p, k, Serve(op))
    ensures Inv(Advance(s, Serve(op))) && Kept(Advance(s, Serve(op)), p)
    ensures Paced(Advance(s, Serve(op)), p, NextSteps(s, k, Serve(op)))
  {
    hide Step, Enqueue, EnqueueAll, QueueInv, PacedAt, Steps, KeptAt;
    UnhurriedIsMinded(s, p, k, op);
    ServeKept(s, p, op);
    MindedIsAllowed(s, p, op);
    var s', k' := Advance(s, Serve(op)), NextSteps(s, k, Serve(op));
    forall i: nat | CellAt(s'.server, i).Some?
      ensures PacedAt(p, s'.pending, k', i, CellAt(s'.server, i).value.seqNum)
    {
      ServePacedAt(s, s', p, k, op, i);
    }
  }

  lemma ServePacedAt(s: System, s': System, p: Posted, k: nat, op: Op, i: nat)
    requires Inv(s) && Kept(s, p) && Paced(s, p, k) && Unhurried(s, p, k, Serve(op))
    requires Inv(s') && s'.server == Step(s.server, SERVER, op).0 && CellAt(s'.server, i).Some?
    requires var out := Step(s.server, SERVER, op).1;
      && |out| <= 1
      && s'.pending == (if out == [] then s.pending else Enqueue(s.pending, out[0].msg))
      && (if out == [] then ViewOf(s'.server) == ViewOf(s.server)
          else Legal(ViewOf(s.server), out[0].msg) && Tells(ViewOf(s.server), out[0].msg, ViewOf(s'.server)))
    ensures PacedAt(p, s'.pending, NextSteps(s, k, Serve(op)), i, CellAt(s'.server, i).value.seqNum)
  {
    hide Step, Enqueue, EnqueueAll, PacedAt, QueueInv, Waiting;
    var out, v := Step(s.server, SERVER, op).1, ViewOf(s.server);
    ServerSerials(s.server, op, i);
    if out != [] {
      var m := out[0].msg;
      assert ViewOf(s'.server).At(i) == Absorb(v.At(i), i, m);
      NewIsUnposted(s, p, i);
      if m.ClearEntries? {
        PersistentIsQuiet(p, v, s.pending, i);
      }
      CellPaced(p, s.pending, k, NextSteps(s, k, Serve(op)), i, CellAt(s.server, i), CellAt(s'.server, i), out);
    }
  }

  lemma NewIsUnposted(s: System, p: Posted, i: nat)
    requires Inv(s) && Kept(s, p)
    ensures Marked(s.pending) && (i >= ViewOf(s.server).size ==> i !in p.serials)
  {
    assert KeptAt(s, p, i) && BaseFits(ViewOf(s.server), s.client, s.wire, i);
  }

  lemma CellPaced(p: Posted, q: Pending, k: nat, k': nat, i: nat, before: Option<Cell>, after: Option<Cell>, out: seq<Out>)
    requires Marked(q) && i != UNASSIGNED && out != [] && SerialMoved(before, after, i, out) && after.Some?
    requires out[0].msg != EntryDelete(i) && (out[0].msg.ClearEntries? ==> Waiting(q, i).None?)
    requires if before.Some? then PacedAt(p, q, k, i, before.value.seqNum) else i !in p.serials
    requires k <= k' <= BUDGET
    requires before.Some? && IsValueOf(Some(out[0].msg), i) ==> k' == k + Distance(before.value.seqNum, out[0].msg.seqNum)
    ensures PacedAt(p, Enqueue(q, out[0].msg), k', i, after.value.seqNum)
  {
    hide Enqueue, PacedAt, Distance, Waiting, Marked, Accepts;
    var m := out[0].msg;
    if !IsValueOf(Some(m), i) {
      OthersPaced(p, q, k, k', i, before.value.seqNum, m);
    } else if before.Some? {
      ValuePaced(p, q, k, i, before.value.seqNum, m);
    } else {
      NewPaced(p, q, k', i, m);
    }
  }

  lemma PersistentIsQuiet(p: Posted, v: View, q: Pending, i: nat)
    requires Quiet(p.view, v, q) && i in v.faces && Persistent(v.faces[i].flags)
    ensures Waiting(q, i).None?
  {
  }

  lemma PostPaced(s: System, p: Posted, k: nat)
    requires Inv(s) && Kept(s, p) && Paced(s, p, k)
    ensures Inv(Advance(s, Post)) && Kept(Advance(s, Post), NextPosted(s, p, Post))
    ensures Paced(Advance(s, Post), NextPosted(s, p, Post), 0)
  {
    hide QueueInv, KeptAt, TakeAll, Waiting;
    PostKept(s, p);
    var s', p' := Advance(s, Post), NextPosted(s, p, Post);
    forall i: nat | CellAt(s'.server, i).Some?
      ensures PacedAt(p', IDLE, 0, i, CellAt(s'.server, i).value.seqNum)
    {
      assert PacedAt(p, s.pending, k, i, CellAt(s.server, i).value.seqNum);
      assert i in ViewOf(s.server).faces && i in p'.serials;
      NoneWaits(i);
    }
  }

  lemma NoneWaits(i: nat)
    ensures Waiting(IDLE, i).None?
  {
  }

  ghost predicate AllUnhurried(s: System, p: Posted, k: nat, es: seq<Replica.Event>)
    requires Inv(s)
    decreases |es|
  {
    es != [] ==>
      && Unhurried(s, p, k, es[0])
      && (Inv(Advance(s, es[0])) ==>
            AllUnhurried(Advance(s, es[0]), NextPosted(s, p, es[0]), NextSteps(s, k, es[0]), es[1..]))
  }

  lemma StepPaced(s: System, p: Posted, k: nat, e: Replica.Event)
    requires Inv(s) && Kept(s, p) && Paced(s, p, k) && Unhurried(s, p, k, e)
    ensures Minded(s, p, e) && Inv(Advance(s, e)) && Kept(Advance(s, e), NextPosted(s, p, e))
    ensures Paced(Advance(s, e), NextPosted(s, p, e), NextSteps(s, k, e))
  {
    match e {
      case Serve(op) =>
        UnhurriedIsMinded(s, p, k, op);
        ServePaced(s, p, k, op);
      case Post => PostPaced(s, p, k);
      case Arrive => ArriveKept(s, p);
    }
  }

  lemma {:induction false} UnhurriedRunIsMinded(s: System, p: Posted, k: nat, es: seq<Replica.Event>)
    requires Inv(s) && Kept(s, p) && Paced(s, p, k) && AllUnhurried(s, p, k, es)
    ensures AllMinded(s, p, es)
    decreases |es|
  {
    if es != [] {
      StepPaced(s, p, k, es[0]);
      UnhurriedRunIsMinded(Advance(s, es[0]), NextPosted(s, p, es[0]), NextSteps(s, k, es[0]), es[1..]);
    }
  }

  /** The mirror over every run with merging, by count: whatever the server does and whatever other clients send it, as
      long as serials move by fewer than 2^14 in all between two posts, flags and assignments of one entry are queued in
      turn, and no clear is queued while news of a persistent entry waits, the listener's table followed by what is
      posted and what waits is the server's table. */
  lemma PacedRun(s: System, p: Posted, k: nat, es: seq<Replica.Event>)
    requires Inv(s) && Kept(s, p) && Paced(s, p, k) && AllUnhurried(s, p, k, es)
    ensures var r := RunSystem(s, es);
      && Inv(r)
      && (forall i: nat :: FaceOf(TakeAll(CellAt(r.client, i), i, r.wire + r.pending.slots)) == FaceOf(CellAt(r.server, i)))
      && (r.wire == [] && r.pending == IDLE ==> Agree(r.client, r.server))
  {
    UnhurriedRunIsMinded(s, p, k, es);
    MergingRun(s, p, es);
  }

  /** A handshake leaves both sides where such runs begin. */
  lemma HandshakeStartsMerging(server: Table, client: Table)
    requires Linked(server) && AllAssigned(server) && Linked(client) && AllAssigned(client)
    requires SameTable(server, client)
    ensures var s, p := System(server, IDLE, [], client), Opening(server);
      Inv(s) && Kept(s, p) && Paced(s, p, 0)
  {
    forall i: nat
      ensures CellAt(client, i) == CellAt(server, i)
    {
      assert Lookup(client.index, i) == Lookup(server.index, i);
    }
    OpeningIsKept(server, client);
    OpeningIsPaced(System(server, IDLE, [], client), Opening(server));
  }

  lemma OpeningIsPaced(s: System, p: Posted)
    requires Inv(s) && s.pending == IDLE && p == Opening(s.server)
    ensures Paced(s, p, 0)
  {
  }

  /** A write of the server's own moves a serial by one step at most. */
  lemma OwnStepIsOne(t: Table, op: Op)
    requires Linked(t) && AllAssigned(t) && !op.OpReceive? && !op.OpLoad?
    ensures Steps(t, Step(t, SERVER, op).1) <= 1
  {
  }

  /** The server only runs operations of its own, at most `BUDGET` of them between two posts; `w` is how many since the
      last. */
  ghost predicate FewWrites(s: System, p: Posted, w: nat, es: seq<Replica.Event>)
    requires Inv(s)
    decreases |es|
  {
    es != [] ==>
      && (es[0].Serve? ==>
            var (t, out) := Step(s.server, SERVER, es[0].op);
            && w < BUDGET && !es[0].op.OpReceive? && !es[0].op.OpLoad? && |t.index| <= UNASSIGNED
            && forall o :: o in out ==>
                 !FlagsOvertaken(s.pending, o.msg) && (o.msg.ClearEntries? ==> Quiet(p.view, ViewOf(s.server), s.pending)))
      && (Inv(Advance(s, es[0])) ==>
            FewWrites(Advance(s, es[0]), NextPosted(s, p, es[0]),
                      if es[0].Serve? then w + 1 else if es[0].Post? then 0 else w, es[1..]))
  }

  lemma {:induction false} FewWritesAreUnhurried(s: System, p: Posted, k: nat, w: nat, es: seq<Replica.Event>)
    requires Inv(s) && k <= w && FewWrites(s, p, w, es)
    ensures AllUnhurried(s, p, k, es)
    decreases |es|
  {
    hide Step, Advance, Steps, FlagsOvertaken, Quiet, QueueInv;
    if es != [] {
      if es[0].Serve? {
        OwnStepIsOne(s.server, es[0].op);
      }
      if Inv(Advance(s, es[0])) {
        FewWritesAreUnhurried(Advance(s, es[0]), NextPosted(s, p, es[0]), NextSteps(s, k, es[0]),
                              if es[0].Serve? then w + 1 else if es[0].Post? then 0 else w, es[1..]);
      }
    }
  }

  /** The mirror of a server that is not written to from outside: fewer than 2^14 operations of its own between two posts
      are few enough. */
  lemma OwnWritesRun(s: System, p: Posted, es: seq<Replica.Event>)
    requires Inv(s) && Kept(s, p) && Paced(s, p, 0) && FewWrites(s, p, 0, es)
    ensures var r := RunSystem(s, es);
      && Inv(r)
      && (forall i: nat :: FaceOf(TakeAll(CellAt(r.client, i), i, r.wire + r.pending.slots)) == FaceOf(CellAt(r.server, i)))
      && (r.wire == [] && r.pending == IDLE ==> Agree(r.client, r.server))
  {
    FewWritesAreUnhurried(s, p, 0, 0, es);
    PacedRun(s, p, 0, es);
  }
}
