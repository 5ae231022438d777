/** `DispatcherBase` (Dispatcher.cpp): who receives a broadcast, and the control flow of the two handshakes. */
module Dispatching {
  import opened Basics
  import opened Messages
  import opened Tables
  import opened TableRuns
  import opened OutgoingQueue
  import opened StorageClass
  import opened Mirror
  import opened Replica
  import opened Coalescing
  import opened Handshake

  datatype State = Created | Init | InHandshake | Synchronized | Active | Dead

  // ---------------------------------------------------------------------------------------------
  // Broadcasts
  // ---------------------------------------------------------------------------------------------

  /** DispatcherBase::QueueOutgoing: a broadcast reaches every synchronized or active connection, or `only` that one, but
      never `except`. */
  method QueueOutgoing(connections: seq<NetworkConnection>, states: seq<State>, msg: Message,
                       only: NetworkConnection?, except: NetworkConnection?)
    requires |states| == |connections|
    requires forall i, j :: 0 <= i < j < |connections| ==> connections[i] != connections[j]
    requires forall i :: 0 <= i < |connections| ==> Marked(connections[i].Queue())
    modifies connections
    ensures forall i :: 0 <= i < |connections| ==>
      var conn := connections[i];
      var reached := (states[i].Synchronized? || states[i].Active?) && conn != except && (only == null || conn == only);
      && Marked(conn.Queue()) && conn.outgoing == old(conn.outgoing)
      && conn.Queue() == if reached then Enqueue(old(conn.Queue()), msg) else old(conn.Queue())
  {
    for k := 0 to |connections|
      invariant forall i :: 0 <= i < |connections| ==>
        Marked(connections[i].Queue()) && connections[i].outgoing == old(connections[i].outgoing)
      invariant forall i :: 0 <= i < k ==>
        var conn := connections[i];
        var reached := (states[i].Synchronized? || states[i].Active?) && conn != except && (only == null || conn == only);
        conn.Queue() == if reached then Enqueue(old(conn.Queue()), msg) else old(conn.Queue())
      invariant forall i :: k <= i < |connections| ==> connections[i].Queue() == old(connections[i].Queue())
    {
      var conn := connections[k];
      if conn == except {
        continue;
      }
      if only != null && conn != only {
        continue;
      }
      if states[k] != Synchronized && states[k] != Active {
        continue;
      }
      conn.QueueOutgoing(msg);
    }
  }

  /** One message after the other. */
  ghost function EnqueueEach(q: Pending, ms: seq<Message>): (r: Pending)
    requires Marked(q)
    ensures Marked(r)
  {
    if ms == [] then q
    else
      var before := EnqueueEach(q, ms[..|ms| - 1]);
      EnqueueKeepsMarked(before, ms[|ms| - 1]);
      Enqueue(before, ms[|ms| - 1])
  }

  lemma {:induction false} AddressedNext(out: seq<Out>, k: nat, originator: bool)
    requires k < |out|
    ensures Addressed(out[..k + 1], originator) ==
      Addressed(out[..k], originator) + if originator && out[k].exceptSender then [] else [out[k].msg]
    decreases k
  {
    if k > 0 {
      assert out[1..][..k] == out[..k + 1][1..] && out[1..][..k - 1] == out[..k][1..];
      AddressedNext(out[1..], k - 1, originator);
    }
  }

  lemma EnqueueNext(q: Pending, ms: seq<Message>, m: Message)
    requires Marked(q)
    ensures EnqueueEach(q, ms + [m]) == Enqueue(EnqueueEach(q, ms), m)
  {
    assert (ms + [m])[..|ms|] == ms;
  }

  /** What a storage sends, on its way: every synchronized or active connection gets what is addressed to it, the one
      whose message caused it only what it is not left out of. */
  method Broadcast(connections: seq<NetworkConnection>, states: seq<State>, out: seq<Out>, originator: NetworkConnection?)
    requires |states| == |connections|
    requires forall i, j :: 0 <= i < j < |connections| ==> connections[i] != connections[j]
    requires forall i :: 0 <= i < |connections| ==> Marked(connections[i].Queue())
    modifies connections
    ensures forall i :: 0 <= i < |connections| ==>
      var conn, q := connections[i], old(connections[i].Queue());
      && Marked(conn.Queue()) && conn.outgoing == old(conn.outgoing)
      && conn.Queue() == if states[i].Synchronized? || states[i].Active?
                         then EnqueueEach(q, Addressed(out, conn == originator)) else q
  {
    for k := 0 to |out|
      invariant forall i :: 0 <= i < |connections| ==>
        var conn, q := connections[i], old(connections[i].Queue());
        && Marked(conn.Queue()) && conn.outgoing == old(conn.outgoing)
        && conn.Queue() == if states[i].Synchronized? || states[i].Active?
                           then EnqueueEach(q, Addressed(out[..k], conn == originator)) else q
    {
      forall i | 0 <= i < |connections|
        ensures
          var q, to := old(connections[i].Queue()), connections[i] == originator;
          EnqueueEach(q, Addressed(out[..k + 1], to)) ==
            if to && out[k].exceptSender then EnqueueEach(q, Addressed(out[..k], to))
            else Enqueue(EnqueueEach(q, Addressed(out[..k], to)), out[k].msg)
      {
        var q, to := old(connections[i].Queue()), connections[i] == originator;
        AddressedNext(out, k, to);
        if to && out[k].exceptSender {
          assert Addressed(out[..k], to) + [] == Addressed(out[..k], to);
        } else {
          EnqueueNext(q, Addressed(out[..k], to), out[k].msg);
        }
      }
      QueueOutgoing(connections, states, out[k].msg, null, if out[k].exceptSender then originator else null);
    }
    assert out[..|out|] == out;
  }

  // ---------------------------------------------------------------------------------------------
  // Reading the other side's assignments
  // ---------------------------------------------------------------------------------------------

  /** The messages of `inbox` without its keep-alives. */
  function Quiet(inbox: seq<Message>): seq<Message> {
    if inbox == [] then []
    else Quiet(inbox[..|inbox| - 1]) + if inbox[|inbox| - 1].KeepAlive? then [] else [inbox[|inbox| - 1]]
  }

  /** The closing message comes at `k`, after nothing but assignments and keep-alives. */
  ghost predicate Closes(inbox: seq<Message>, done: Message, k: nat) {
    && k < |inbox| && inbox[k] == done
    && forall j :: 0 <= j < k ==> inbox[j].KeepAlive? || inbox[j].EntryAssign?
  }

  /** The loop of both handshakes over the messages get_msg yields; it ends badly when the other side goes away or
      sends anything else. */
  method ReceiveAssignments(inbox: seq<Message>, done: Message) returns (ok: bool, incoming: seq<Message>)
    requires !done.KeepAlive? && !done.EntryAssign?
    ensures ok <==> exists k: nat :: Closes(inbox, done, k)
    ensures forall k: nat :: Closes(inbox, done, k) ==> incoming == Quiet(inbox[..k])
  {
    incoming := [];
    var next := 0;
    while true
      invariant next <= |inbox| && incoming == Quiet(inbox[..next])
      invariant forall j :: 0 <= j < next ==> inbox[j].KeepAlive? || inbox[j].EntryAssign?
      decreases |inbox| - next
    {
      if next == |inbox| {
        return false, incoming;
      }
      var msg := inbox[next];
      if msg == done {
        assert Closes(inbox, done, next);
        return true, incoming;
      }
      assert inbox[..next + 1][..next] == inbox[..next];
      if msg.KeepAlive? {
        next := next + 1;
        continue;
      }
      if !msg.EntryAssign? {
        return false, incoming;
      }
      incoming := incoming + [msg];
      next := next + 1;
    }
  }

  /** What `inbox` brings up to `done`: None when it never properly gets there. */
  ghost function Brought(inbox: seq<Message>, done: Message): Option<seq<Message>> {
    if exists k: nat :: Closes(inbox, done, k) then
      var k: nat :| Closes(inbox, done, k);
      Some(Quiet(inbox[..k]))
    else None
  }

  lemma WhatIsBrought(inbox: seq<Message>, done: Message, ok: bool, incoming: seq<Message>)
    requires ok <==> exists k: nat :: Closes(inbox, done, k)
    requires forall k: nat :: Closes(inbox, done, k) ==> incoming == Quiet(inbox[..k])
    ensures Brought(inbox, done) == if ok then Some(incoming) else None
  {
  }

  /** A batch of assignments comes through whole and in order, whatever keep-alives fall between. */
  lemma {:induction false} BatchComesThrough(inbox: seq<Message>, batch: seq<Message>, done: Message)
    requires !done.KeepAlive? && !done.EntryAssign? && forall j :: 0 <= j < |batch| ==> batch[j].EntryAssign?
    requires Quiet(inbox) == batch + [done]
    ensures Brought(inbox, done) == Some(batch)
    decreases |inbox|
  {
    var k := CloseOf(inbox, batch, done);
    assert Closes(inbox, done, k);
    forall h: nat | Closes(inbox, done, h)
      ensures h == k
    {
      assert inbox[h] == done == inbox[k];
    }
  }

  lemma {:induction false} CloseOf(inbox: seq<Message>, batch: seq<Message>, done: Message) returns (k: nat)
    requires !done.KeepAlive? && !done.EntryAssign? && forall j :: 0 <= j < |batch| ==> batch[j].EntryAssign?
    requires Quiet(inbox) == batch + [done]
    ensures Closes(inbox, done, k) && Quiet(inbox[..k]) == batch
    decreases |inbox|
  {
    var n := |inbox| - 1;
    if inbox[n].KeepAlive? {
      assert Quiet(inbox[..n]) == batch + [done];
      k := CloseOf(inbox[..n], batch, done);
      assert inbox[..n][..k] == inbox[..k];
    } else {
      k := n;
      assert Quiet(inbox) == Quiet(inbox[..n]) + [inbox[n]];
      SameEnds(Quiet(inbox[..n]), inbox[n], batch, done);
      OnlyThese(inbox[..n]);
    }
  }

  lemma SameEnds(xs: seq<Message>, x: Message, ys: seq<Message>, y: Message)
    requires xs + [x] == ys + [y]
    ensures xs == ys && x == y
  {
    assert |xs| == |ys|;
    assert x == (xs + [x])[|xs|] == (ys + [y])[|ys|] == y;
    assert xs == (xs + [x])[..|xs|] == (ys + [y])[..|ys|] == ys;
  }

  lemma {:induction false} OnlyThese(inbox: seq<Message>)
    requires forall j :: 0 <= j < |Quiet(inbox)| ==> Quiet(inbox)[j].EntryAssign?
    ensures forall j :: 0 <= j < |inbox| ==> inbox[j].KeepAlive? || inbox[j].EntryAssign?
    decreases |inbox|
  {
    if inbox != [] {
      var n := |inbox| - 1;
      var q := Quiet(inbox[..n]);
      assert forall j :: 0 <= j < |q| ==> q[j] == Quiet(inbox)[j];
      OnlyThese(inbox[..n]);
      if !inbox[n].KeepAlive? {
        assert Quiet(inbox)[|q|] == inbox[n];
      }
    }
  }

  // ---------------------------------------------------------------------------------------------
  // The two handshakes
  // ---------------------------------------------------------------------------------------------

  const PROTO_2: nat := 0x0200

  /** How the client's side ends: turned away, perhaps to come back with protocol 2.0, or with the server's
      assignments in hand. */
  datatype ClientEnd = Away(comeBack: bool) | Joined(newServer: bool, incoming: seq<Message>)

  ghost function ClientReads(protoRev: nat, inbox: seq<Message>): ClientEnd {
    if inbox == [] then Away(false)
    else if inbox[0].ProtoUnsup? then Away(inbox[0].protoRev == PROTO_2)
    else if protoRev < PROTO_3 then Assigned(true, Brought(inbox, ServerHelloDone))
    else if inbox[0].ServerHello? then Assigned(inbox[0].helloFlags % 2 == 0, Brought(inbox[1..], ServerHelloDone))
    else Away(false)
  }

  function Assigned(newServer: bool, brought: Option<seq<Message>>): ClientEnd {
    if brought.Some? then Joined(newServer, brought.value) else Away(false)
  }

  /** DispatcherBase::ClientHandshake. `batches` are the lists handed to send_msgs; `order` is the iteration order of
      the hash table when the client asks for ids, `updates` what goes to the outgoing queue. */
  method ClientHandshake(storage: Storage, protoRev: nat, identity: Bytes, inbox: seq<Message>)
    returns (ok: bool, comeBack: bool, batches: seq<seq<Message>>, updates: seq<Message>, order: seq<Bytes>)
    requires storage.Shape() && !storage.server
    modifies storage, storage.entries.Values
    ensures storage.Shape()
    ensures ok <==> ClientReads(protoRev, inbox).Joined?
    ensures !ok ==>
      && comeBack == ClientReads(protoRev, inbox).comeBack
      && storage.Abs() == old(storage.Abs()) && batches == [[ClientHello(protoRev, identity)]] && updates == []
    ensures ok ==>
      var end, t := ClientReads(protoRev, inbox), storage.Abs();
      && (t, updates) == ApplyAll(ForgetIds(old(storage.Abs())), end.newServer, protoRev, end.incoming)
      && Lists(order, Unassigned(t))
      && var last := AssignsOf(t.rows, order) + if protoRev >= PROTO_3 then [ClientHelloDone] else [];
         batches == [[ClientHello(protoRev, identity)]] + if last != [] then [last] else []
  {
    hide ApplyAll, Unassigned, AssignsOf, ForgetIds, Brought;
    batches, updates, order, comeBack := [[ClientHello(protoRev, identity)]], [], [], false;
    if inbox == [] {
      return false, false, batches, updates, order;
    }
    var msg := inbox[0];
    if msg.ProtoUnsup? {
      return false, msg.protoRev == PROTO_2, batches, updates, order;
    }
    var newServer, rest := true, inbox;
    if protoRev >= PROTO_3 {
      // revision 3.0 begins with a server hello
      if !msg.ServerHello? {
        return false, false, batches, updates, order;
      }
      if msg.helloFlags % 2 == 1 {
        newServer := false;
      }
      rest := inbox[1..];
    }
    var incoming;
    ok, incoming := ReceiveAssignments(rest, ServerHelloDone);
    WhatIsBrought(rest, ServerHelloDone, ok, incoming);
    if !ok {
      return;
    }
    var outgoing;
    outgoing, updates, order := storage.ApplyInitialAssignments(incoming, newServer, protoRev);
    assert outgoing + [] == outgoing;
    if protoRev >= PROTO_3 {
      outgoing := outgoing + [ClientHelloDone];
    }
    if outgoing != [] {
      batches := batches + [outgoing];
    }
  }

  /** What the server sends first. */
  function FirstBatch(protoRev: nat, identity: Bytes, assigns: seq<Message>): seq<Message> {
    (if protoRev >= PROTO_3 then [ServerHello(0, identity)] else []) + assigns + [ServerHelloDone]
  }

  /** DispatcherBase::ServerHandshake. `connRev` is the revision of the connection before the client's hello, `out`
      what the client's assignments make the storage send. */
  method ServerHandshake(storage: Storage, connRev: nat, identity: Bytes, inbox: seq<Message>)
    returns (ok: bool, batches: seq<seq<Message>>, out: seq<Message>, order: seq<Bytes>)
    requires storage.Valid() && storage.server
    requires |storage.Abs().index| + |inbox| <= UNASSIGNED
    modifies storage, storage.entries.Values
    ensures storage.Valid()
    ensures ok <==>
      && inbox != [] && inbox[0].ClientHello? && inbox[0].protoRev <= PROTO_3
      && (inbox[0].protoRev < PROTO_3 || Brought(inbox[1..], ClientHelloDone).Some?)
    ensures inbox == [] || !inbox[0].ClientHello? ==> batches == []
    ensures inbox != [] && inbox[0].ClientHello? && inbox[0].protoRev > PROTO_3 ==> batches == [[ProtoUnsup(connRev)]]
    ensures inbox != [] && inbox[0].ClientHello? && inbox[0].protoRev <= PROTO_3 ==>
      && Lists(order, old(storage.Abs()).rows.Keys)
      && batches == [FirstBatch(inbox[0].protoRev, identity, AssignsOf(old(storage.Abs()).rows, order))]
    ensures (storage.Abs(), out) ==
      if ok && inbox[0].protoRev >= PROTO_3
      then ReceiveAll(old(storage.Abs()), storage.TheRole(), Brought(inbox[1..], ClientHelloDone).value)
      else (old(storage.Abs()), [])
  {
    hide *;
    batches, out, order := [], [], [];
    if inbox == [] || !inbox[0].ClientHello? {
      return false, batches, out, order;
    }
    var protoRev := inbox[0].protoRev;
    if protoRev > PROTO_3 {
      return false, [[ProtoUnsup(connRev)]], out, order;
    }
    batches, order := SendAssignments(storage, protoRev, identity);
    ok := true;
    if protoRev >= PROTO_3 {
      ok, out := ReceiveRequests(storage, inbox[1..]);
    }
  }

  /** The batch that ServerHandshake sends. */
  method SendAssignments(storage: Storage, protoRev: nat, identity: Bytes)
    returns (batches: seq<seq<Message>>, order: seq<Bytes>)
    requires storage.Valid()
    ensures Lists(order, storage.Abs().rows.Keys)
    ensures batches == [FirstBatch(protoRev, identity, AssignsOf(storage.Abs().rows, order))]
  {
    var msgs;
    msgs, order := storage.GetInitialAssignments();
    batches := [FirstBatch(protoRev, identity, msgs)];
  }

  /** The part of ServerHandshake that revision 3.0 adds: the client's assignments are collected, and then processed. */
  method ReceiveRequests(storage: Storage, inbox: seq<Message>) returns (ok: bool, out: seq<Message>)
    requires storage.Valid() && storage.server && |storage.Abs().index| + |inbox| <= UNASSIGNED
    modifies storage, storage.entries.Values
    ensures storage.Valid() && storage.TheRole() == old(storage.TheRole())
    ensures ok <==> Brought(inbox, ClientHelloDone).Some?
    ensures (storage.Abs(), out) ==
      if ok then ReceiveAll(old(storage.Abs()), storage.TheRole(), Brought(inbox, ClientHelloDone).value)
      else (old(storage.Abs()), [])
  {
    hide Brought, ReceiveAll;
    var incoming;
    out := [];
    ok, incoming := ReceiveAssignments(inbox, ClientHelloDone);
    WhatIsBrought(inbox, ClientHelloDone, ok, incoming);
    if ok {
      QuietIsShorter(inbox);
      out := ProcessAll(storage, incoming);
    }
  }

  lemma {:induction false} QuietIsShorter(inbox: seq<Message>)
    ensures forall k :: 0 <= k <= |inbox| ==> |Quiet(inbox[..k])| <= k
    ensures forall k :: 0 <= k <= |inbox| ==> forall j :: 0 <= j < |Quiet(inbox[..k])| ==> Quiet(inbox[..k])[j] in inbox[..k]
    decreases |inbox|
  {
    if inbox != [] {
      var n := |inbox| - 1;
      QuietIsShorter(inbox[..n]);
      forall k | 0 <= k <= |inbox|
        ensures |Quiet(inbox[..k])| <= k
        ensures forall j :: 0 <= j < |Quiet(inbox[..k])| ==> Quiet(inbox[..k])[j] in inbox[..k]
      {
        if k <= n {
          assert inbox[..n][..k] == inbox[..k];
        } else {
          assert inbox[..k][..n] == inbox[..n] == inbox[..n][..n];
        }
      }
    }
  }

  /** The last loop of ServerHandshake. */
  method ProcessAll(storage: Storage, incoming: seq<Message>) returns (out: seq<Message>)
    requires storage.Valid() && storage.server && |storage.Abs().index| + |incoming| <= UNASSIGNED
    modifies storage, storage.entries.Values
    ensures storage.Valid() && storage.TheRole() == old(storage.TheRole())
    ensures (storage.Abs(), out) == ReceiveAll(old(storage.Abs()), storage.TheRole(), incoming)
  {
    out := [];
    for i := 0 to |incoming|
      invariant storage.Valid() && storage.TheRole() == old(storage.TheRole())
      invariant |storage.Abs().index| + |incoming| - i <= UNASSIGNED
      invariant forall e :: e in storage.entries.Values ==> e in old(storage.entries).Values || fresh(e)
      invariant (storage.Abs(), out) == ReceiveAll(old(storage.Abs()), storage.TheRole(), incoming[..i])
    {
      ghost var t := storage.Abs();
      var sent := storage.ProcessIncoming(incoming[i], PROTO_3);
      ReceiveAllStep(old(storage.Abs()), storage.TheRole(), incoming, i);
      out := out + Addressed(sent, true);
      OneMoreId(t, storage.TheRole(), incoming[i]);
    }
    assert incoming[..|incoming|] == incoming;
  }

  /** A server's message uses up one id at most, and keeps the index in order. */
  lemma OneMoreId(t: Table, role: Role, m: Message)
    requires Linked(t) && role.server && |t.index| < UNASSIGNED
    ensures var t' := Receive(t, role, PROTO_3, m).0;
      |t'.index| <= |t.index| + 1 && Linked(t')
  {
    StepKeepsLinked(t, role, OpReceive(PROTO_3, m));
  }

  /** When each side's messages reach the other, with any keep-alives between them, both handshakes succeed, and once
      the server's answers and the client's updates are taken the two tables are the same, except for entries that have
      no id at the server. */
  lemma TranscriptConverges(s: Table, c: Table, serverId: Bytes, clientId: Bytes, toClient: seq<Bytes>,
                            toServer: seq<Bytes>,
                            clientInbox: seq<Message>, serverInbox: seq<Message>)
    requires Linked(s) && Lists(toClient, s.rows.Keys)
    requires forall n :: n in toClient ==> n in s.rows
    requires clientInbox != []
    requires [clientInbox[0]] + Quiet(clientInbox[1..]) == FirstBatch(PROTO_3, serverId, AssignsOf(s.rows, toClient))
    requires Lists(toServer, Unassigned(ApplyAll(ForgetIds(c), true, PROTO_3, AssignsOf(s.rows, toClient)).0))
    requires |s.index| + |OwnAmong(toServer, s)| <= UNASSIGNED
    requires serverInbox != [] && serverInbox[0] == ClientHello(PROTO_3, clientId)
    requires var c1 := ApplyAll(ForgetIds(c), true, PROTO_3, AssignsOf(s.rows, toClient)).0;
      (forall n :: n in toServer ==> n in c1.rows) && Quiet(serverInbox[1..]) == AssignsOf(c1.rows, toServer) + [ClientHelloDone]
    ensures ClientReads(PROTO_3, clientInbox).Joined?
    ensures Brought(serverInbox[1..], ClientHelloDone).Some?
    ensures var end := ClientReads(PROTO_3, clientInbox);
      var (c1, kept) := ApplyAll(ForgetIds(c), end.newServer, PROTO_3, end.incoming);
      var (s1, answers) := ReceiveAll(s, SERVER, Brought(serverInbox[1..], ClientHelloDone).value);
      var (c2, updates) := ReceiveAll(c1, CLIENT, answers);
      var s2 := ReceiveAll(s1, SERVER, kept + updates).0;
      && Union(s, c, s2) && Settles(s, c, true, s2, c2) && Linked(s2) && Linked(c2)
      && (SameTable(s2, c2) <==> NothingApart(s, c, true)) && (AllAssigned(s) ==> SameTable(s2, c2))
  {
    hide ApplyAll, Unassigned, ForgetIds, SameTable, Union, Settles, Linked, ReceiveAll;
    var assigns := AssignsOf(s.rows, toClient);
    var batch := FirstBatch(PROTO_3, serverId, assigns);
    assert batch == [ServerHello(0, serverId)] + (assigns + [ServerHelloDone]);
    assert clientInbox[0] == batch[0] && Quiet(clientInbox[1..]) == batch[1..] == assigns + [ServerHelloDone];
    BatchComesThrough(clientInbox[1..], assigns, ServerHelloDone);
    var c1 := ApplyAll(ForgetIds(c), true, PROTO_3, assigns).0;
    BatchComesThrough(serverInbox[1..], AssignsOf(c1.rows, toServer), ClientHelloDone);
    HandshakeEnds(s, c, true, toClient, toServer);
    NoStranger(c1.rows, toServer);
  }

  /** How a client fares in revision 3.0, by the first message: turned away by a server that does not speak it, with
      another try in 2.0 when that is what the server offers; refused when there is no hello; or told by the lowest bit of
      the hello whether the server knows it, and given the batch that follows. */
  lemma ClientFares3(m: Message, inbox: seq<Message>, batch: seq<Message>)
    ensures m.ProtoUnsup? ==> ClientReads(0x0300, [m] + inbox) == Away(m.protoRev == 0x0200)
    ensures !m.ProtoUnsup? && !m.ServerHello? ==> ClientReads(0x0300, [m] + inbox) == Away(false)
    ensures m.ServerHello? && Quiet(inbox) == batch + [ServerHelloDone] && (forall a :: a in batch ==> a.EntryAssign?) ==>
      ClientReads(0x0300, [m] + inbox) == Joined(m.helloFlags % 2 == 0, batch)
    ensures m.ServerHello? && ServerHelloDone !in inbox ==> ClientReads(0x0300, [m] + inbox) == Away(false)
    ensures ClientReads(0x0300, []) == Away(false)
  {
    hide Quiet;
    assert ([m] + inbox)[1..] == inbox;
    if Quiet(inbox) == batch + [ServerHelloDone] && forall a :: a in batch ==> a.EntryAssign? {
      BatchComesThrough(inbox, batch, ServerHelloDone);
    }
  }

  /** In revision 2.0 the batch comes at once, and every server is taken for a new one. */
  lemma ClientFares2(inbox: seq<Message>, batch: seq<Message>)
    ensures inbox != [] && inbox[0].ProtoUnsup? ==> ClientReads(0x0200, inbox) == Away(inbox[0].protoRev == 0x0200)
    ensures Quiet(inbox) == batch + [ServerHelloDone] && (forall a :: a in batch ==> a.EntryAssign?) ==>
      ClientReads(0x0200, inbox) == Joined(true, batch)
    ensures ServerHelloDone !in inbox && (inbox == [] || !inbox[0].ProtoUnsup?) ==> ClientReads(0x0200, inbox) == Away(false)
  {
    if Quiet(inbox) == batch + [ServerHelloDone] && forall a :: a in batch ==> a.EntryAssign? {
      BatchComesThrough(inbox, batch, ServerHelloDone);
      var k := CloseOf(inbox, batch, ServerHelloDone);
      assert inbox[0] == inbox[k] || inbox[0].KeepAlive? || inbox[0].EntryAssign?;
    }
  }

  /** Anything but an assignment or a keep-alive ahead of the closing message ends a handshake. */
  lemma Interrupted(inbox: seq<Message>, done: Message, k: nat)
    requires k < |inbox| && !inbox[k].KeepAlive? && !inbox[k].EntryAssign? && done !in inbox[..k + 1]
    ensures Brought(inbox, done) == None
  {
    assert inbox[k] == inbox[..k + 1][k];
    forall h: nat
      ensures !Closes(inbox, done, h)
    {
      if h <= k {
        assert inbox[h] == inbox[..k + 1][h];
      }
    }
  }

  /** A server's batch of revision 2.0 is what a client of that revision reads; a client of 3.0 that meets it as it stands
      gives up, for there is no hello. */
  lemma OldBatchJoins(inbox: seq<Message>, identity: Bytes, assigns: seq<Message>)
    requires forall a :: a in assigns ==> a.EntryAssign?
    requires Quiet(inbox) == FirstBatch(0x0200, identity, assigns)
    ensures ClientReads(0x0200, inbox) == Joined(true, assigns) && ClientReads(0x0300, inbox) == Away(false)
  {
    assert Quiet(inbox) == assigns + [ServerHelloDone];
    ClientFares2(inbox, assigns);
    var k := CloseOf(inbox, assigns, ServerHelloDone);
    assert inbox[0] == inbox[k] || inbox[0].KeepAlive? || inbox[0].EntryAssign?;
  }

  /** The server's answers and the client's updates leave their queues as they went in. */
  lemma RepliesUnmerged(s: Table, c: Table, own: seq<Bytes>, answers: seq<Message>)
    requires AreAnswers(s, c, own, answers) && |s.index| + |own| <= UNASSIGNED
    requires forall j :: 0 <= j < |own| ==> own[j] in c.rows
    ensures Batch(answers).slots == Sent(answers)
    ensures Batch(Updates(s, c, own, |own|)).slots == Sent(Updates(s, c, own, |own|))
  {
    DifferentUnmerged(answers);
    UpdateIds(s, c, own, |own|);
    DifferentUnmerged(Updates(s, c, own, |own|));
  }

  /** Updates of different entries, all with ids below `bound`. */
  ghost predicate Different(ms: seq<Message>, bound: nat) {
    && (forall j :: 0 <= j < |ms| ==> ms[j].EntryUpdate? && ms[j].id < bound)
    && (forall i, j :: 0 <= i < j < |ms| ==> ms[i].id != ms[j].id)
  }

  lemma {:induction false} UpdateIds(s: Table, c: Table, own: seq<Bytes>, k: nat)
    requires k <= |own| && forall j :: 0 <= j < |own| ==> own[j] in c.rows
    ensures Different(Updates(s, c, own, k), |s.index| + k)
    decreases k
  {
    if k > 0 {
      UpdateIds(s, c, own, k - 1);
    }
  }

  lemma NoStranger(rows: map<Bytes, Row>, order: seq<Bytes>)
    requires forall n :: n in order ==> n in rows
    ensures !exists n :: n in order && n !in rows
  {
  }
}
