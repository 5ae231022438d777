/**
  The protocol 3.0 handshake between a server and a connecting client (Dispatcher.cpp), with nobody else writing:
  the server's assignments, the client's requests, the server's answers and the client's last updates, each list in
  whatever order the hash tables yield.
 */
module Handshake {
  import opened Basics
  import opened Messages
  import opened Serials
  import opened Tables
  import opened TableRuns
  import opened OutgoingQueue
  import opened Mirror
  import opened Replica
  import opened Direct

  /** Process `ms` in order; the second component is everything sent meanwhile to the connection they come from. */
  ghost function ReceiveAll(t: Table, role: Role, ms: seq<Message>): (Table, seq<Message>) {
    if ms == [] then (t, [])
    else
      var (t1, sent) := ReceiveAll(t, role, ms[..|ms| - 1]);
      if !LiveIndex(t1) then (t1, sent)
      else
        var (t2, out) := Receive(t1, role, PROTO_3, ms[|ms| - 1]);
        (t2, sent + Addressed(out, true))
  }

  lemma NothingReceived(t: Table, role: Role)
    ensures ReceiveAll(t, role, []) == (t, [])
  {
  }

  lemma ReceiveAllStep(t: Table, role: Role, ms: seq<Message>, k: nat)
    requires k < |ms|
    ensures var (t1, sent) := ReceiveAll(t, role, ms[..k]);
      LiveIndex(t1) ==>
        var (t2, out) := Receive(t1, role, PROTO_3, ms[k]);
        ReceiveAll(t, role, ms[..k + 1]) == (t2, sent + Addressed(out, true))
  {
    assert ms[..k + 1][..k] == ms[..k];
  }

  /** `rank` gives each name of `order` its position; the list has no repetitions. */
  ghost predicate Ranks(rank: map<Bytes, nat>, order: seq<Bytes>) {
    && (forall j :: 0 <= j < |order| ==> order[j] in rank && rank[order[j]] == j)
    && (forall n :: n in rank ==> rank[n] < |order| && order[rank[n]] == n)
  }

  lemma RankExists(order: seq<Bytes>, names: set<Bytes>) returns (rank: map<Bytes, nat>)
    requires Lists(order, names)
    ensures Ranks(rank, order) && rank.Keys == names
  {
    rank := map n | n in names :: IndexOf(order, n);
    forall j | 0 <= j < |order|
      ensures order[j] in rank && rank[order[j]] == j
    {
      assert order[j] in order;
    }
  }

  ghost function IndexOf(order: seq<Bytes>, n: Bytes): (j: nat)
    ensures n in order ==> j < |order| && order[j] == n
  {
    if n in order then (var j: nat :| j < |order| && order[j] == n; j) else 0
  }

  /** `n` is the one name at position `k`. */
  ghost predicate At(rank: map<Bytes, nat>, n: Bytes, k: nat) {
    n in rank && rank[n] == k && forall o :: o in rank && rank[o] == k ==> o == n
  }

  // ---------------------------------------------------------------------------------------------
  // 1. The client takes over the server's table
  // ---------------------------------------------------------------------------------------------

  /** The client keeps what it has under a name: it reconnects, and the server's serial is not ahead of its own. */
  predicate Keeps(s: Table, c: Table, newServer: bool, n: Bytes)
    requires n in s.rows
  {
    !newServer && s.rows[n].id != UNASSIGNED && n in c.rows && LessEq(s.rows[n].seqNum, c.rows[n].seqNum)
  }

  /** What the client has under a name of the server's afterwards, if anything: a name that has no id at the server is
      not announced under one, and passes the client by. */
  function RowTaken(s: Table, c: Table, newServer: bool, n: Bytes): Row
    requires n in s.rows && (s.rows[n].id == UNASSIGNED ==> n in c.rows)
  {
    if s.rows[n].id == UNASSIGNED then c.rows[n].(id := UNASSIGNED)
    else if Keeps(s, c, newServer, n) then c.rows[n].(id := s.rows[n].id)
    else s.rows[n]
  }

  /** The server's table as the client takes it. */
  ghost function AsTaken(s: Table, c: Table, newServer: bool): Table {
    s.(rows := map n | n in s.rows && (s.rows[n].id == UNASSIGNED ==> n in c.rows) :: RowTaken(s, c, newServer, n))
  }

  lemma TakenIsLinked(s: Table, c: Table, newServer: bool)
    requires Linked(s)
    ensures Linked(AsTaken(s, c, newServer)) && (AllAssigned(s) ==> AllAssigned(AsTaken(s, c, newServer)))
    ensures c.rows.Keys - AsTaken(s, c, newServer).rows.Keys == c.rows.Keys - s.rows.Keys
  {
  }

  /** The client's rows after the first `k` assignments; `rank` orders the server's names, `v` is its table as taken. */
  ghost function AdoptedRows(v: Table, c: Table, rank: map<Bytes, nat>, k: nat): map<Bytes, Row>
    requires v.rows.Keys <= rank.Keys
  {
    map n | n in c.rows.Keys + v.rows.Keys && (n in c.rows || rank[n] < k) ::
      if n in v.rows && rank[n] < k then v.rows[n] else c.rows[n].(id := UNASSIGNED)
  }

  ghost predicate Adopted(s: Table, c: Table, newServer: bool, rank: map<Bytes, nat>, k: nat, t: Table)
    requires rank.Keys == s.rows.Keys && Linked(s)
  {
    && t.rows == AdoptedRows(AsTaken(s, c, newServer), c, rank, k)
    && |t.index| <= UNASSIGNED
    && forall i: nat :: Lookup(t.index, i) ==
         (if Lookup(s.index, i).Some? && rank[Lookup(s.index, i).value] < k then Lookup(s.index, i) else None)
  }

  /** The updates for the kept names among `names`: their id has just been forgotten. */
  function KeptUpdates(s: Table, c: Table, newServer: bool, names: seq<Bytes>): seq<Message>
    requires forall n :: n in names ==> n in s.rows
  {
    if names == [] then []
    else
      var n := names[|names| - 1];
      KeptUpdates(s, c, newServer, names[..|names| - 1])
      + if Keeps(s, c, newServer, n) then [EntryUpdate(UNASSIGNED, c.rows[n].seqNum, c.rows[n].value)] else []
  }

  lemma {:induction false} ClientAdopts(s: Table, c: Table, newServer: bool, order: seq<Bytes>, rank: map<Bytes, nat>,
                                        k: nat)
    requires Linked(s) && Ranks(rank, order) && rank.Keys == s.rows.Keys && k <= |order|
    requires forall n :: n in order ==> n in s.rows
    ensures var (t, updates) := ApplyAll(ForgetIds(c), newServer, PROTO_3, AssignsOf(s.rows, order)[..k]);
      Adopted(s, c, newServer, rank, k, t) && updates == KeptUpdates(s, c, newServer, order[..k])
    decreases k
  {
    hide Keeps, ApplyOne, ApplyAll, Adopted, AssignsOf, Linked, ForgetIds;
    if k == 0 {
      NothingAdopted(s, c, newServer, rank);
      NothingApplied(ForgetIds(c), newServer);
    } else {
      ClientAdopts(s, c, newServer, order, rank, k - 1);
      var ms := AssignsOf(s.rows, order);
      LastApplied(ForgetIds(c), newServer, ms, k);
      assert order[..k][..k - 1] == order[..k - 1];
      AdoptOne(s, c, newServer, rank, order[k - 1], k - 1, ApplyAll(ForgetIds(c), newServer, PROTO_3, ms[..k - 1]).0);
    }
  }

  lemma NothingApplied(t: Table, newServer: bool)
    ensures ApplyAll(t, newServer, PROTO_3, []) == (t, [])
  {
  }

  lemma LastApplied(t: Table, newServer: bool, ms: seq<Message>, k: nat)
    requires 0 < k <= |ms|
    ensures var (t1, us) := ApplyAll(t, newServer, PROTO_3, ms[..k - 1]);
      var (t2, u) := ApplyOne(t1, newServer, PROTO_3, ms[k - 1]);
      ApplyAll(t, newServer, PROTO_3, ms[..k]) == (t2, us + u)
  {
    hide ApplyOne;
    assert ms[..k][..k - 1] == ms[..k - 1];
  }

  lemma NothingAdopted(s: Table, c: Table, newServer: bool, rank: map<Bytes, nat>)
    requires Linked(s) && rank.Keys == s.rows.Keys
    ensures Adopted(s, c, newServer, rank, 0, ForgetIds(c))
  {
    assert ForgetIds(c).rows == AdoptedRows(AsTaken(s, c, newServer), c, rank, 0);
  }

  lemma AdoptOne(s: Table, c: Table, newServer: bool, rank: map<Bytes, nat>, n: Bytes, k: nat, t: Table)
    requires Linked(s) && rank.Keys == s.rows.Keys && At(rank, n, k)
    requires Adopted(s, c, newServer, rank, k, t)
    ensures var (t', updates) := ApplyOne(t, newServer, PROTO_3, AssignOf(s.rows, n));
      && Adopted(s, c, newServer, rank, k + 1, t')
      && updates == if Keeps(s, c, newServer, n) then [EntryUpdate(UNASSIGNED, c.rows[n].seqNum, c.rows[n].value)] else []
  {
    hide ApplyAll, AdoptedRows, AsTaken, RowTaken, LessEq;
    AdoptRow(s, c, newServer, rank, n, k);
    if s.rows[n].id != UNASSIGNED {
      IdInIndex(s, n);
      assert Lookup(s.index, s.rows[n].id) == Some(n);
      AdoptAssigned(s, c, newServer, n, t);
    } else {
      assert forall i: nat :: Lookup(s.index, i) != Some(n);
    }
  }

  lemma AdoptAssigned(s: Table, c: Table, newServer: bool, n: Bytes, t: Table)
    requires n in s.rows && s.rows[n].id != UNASSIGNED
    requires (n in t.rows <==> n in c.rows) && (n in c.rows ==> t.rows[n] == c.rows[n].(id := UNASSIGNED))
    ensures var (t', updates) := ApplyOne(t, newServer, PROTO_3, AssignOf(s.rows, n));
      && t'.rows == t.rows[n := RowTaken(s, c, newServer, n)] && t'.index == SetSlot(t.index, s.rows[n].id, Some(n))
      && updates == if Keeps(s, c, newServer, n) then [EntryUpdate(UNASSIGNED, c.rows[n].seqNum, c.rows[n].value)] else []
  {
  }

  /** What the client has under `n` before, and all it has after. */
  lemma AdoptRow(s: Table, c: Table, newServer: bool, rank: map<Bytes, nat>, n: Bytes, k: nat)
    requires rank.Keys == s.rows.Keys && At(rank, n, k)
    ensures var v := AsTaken(s, c, newServer);
      var before, after := AdoptedRows(v, c, rank, k), AdoptedRows(v, c, rank, k + 1);
      && (n in before <==> n in c.rows) && (n in c.rows ==> before[n] == c.rows[n].(id := UNASSIGNED))
      && (if s.rows[n].id == UNASSIGNED then after == before else after == before[n := RowTaken(s, c, newServer, n)])
  {
    hide AdoptedRows, Keeps;
    var v := AsTaken(s, c, newServer);
    NextAdopted(v, c, rank, n, k);
  }

  lemma NextAdopted(v: Table, c: Table, rank: map<Bytes, nat>, n: Bytes, k: nat)
    requires v.rows.Keys <= rank.Keys && At(rank, n, k)
    ensures var before, after := AdoptedRows(v, c, rank, k), AdoptedRows(v, c, rank, k + 1);
      && (n in before <==> n in c.rows) && (n in c.rows ==> before[n] == c.rows[n].(id := UNASSIGNED))
      && (n in v.rows ==> after == before[n := v.rows[n]])
      && (n !in v.rows || (n in c.rows && v.rows[n] == c.rows[n].(id := UNASSIGNED)) ==> after == before)
  {
  }

  // ---------------------------------------------------------------------------------------------
  // 2. The server gives ids to the client's own entries
  // ---------------------------------------------------------------------------------------------

  /** `rank` is the order in which the client asks for ids for its own entries. */
  ghost predicate Own(s: Table, c: Table, rank: map<Bytes, nat>) {
    rank.Keys == c.rows.Keys - s.rows.Keys
  }

  /** The serial on which both sides settle for an own entry. */
  function Settled(row: Row): Serial {
    if Less(0, row.seqNum) then row.seqNum else 0
  }

  /** The server's rows once the first `k` own entries have been entered, and the updates for the first `h` of them
      have been taken. */
  ghost function ExtendedRows(s: Table, c: Table, rank: map<Bytes, nat>, k: nat, h: nat): map<Bytes, Row>
    requires Own(s, c, rank)
  {
    map n | n in s.rows.Keys + rank.Keys && (n in s.rows || rank[n] < k) ::
      if n in s.rows then s.rows[n]
      else Row(c.rows[n].value, c.rows[n].flags, |s.index| + rank[n], if rank[n] < h then Settled(c.rows[n]) else 0)
  }

  ghost function ExtendedIndex(s: Table, own: seq<Bytes>, k: nat): (r: seq<Option<Bytes>>)
    requires k <= |own|
    ensures forall i: nat :: Lookup(r, i) ==
              if i < |s.index| then s.index[i] else if i < |s.index| + k then Some(own[i - |s.index|]) else None
  {
    s.index + seq(k, j requires 0 <= j < k => Some(own[j]))
  }

  lemma ExtendedIsLinked(s: Table, c: Table, own: seq<Bytes>, rank: map<Bytes, nat>, k: nat, h: nat, t: Table)
    requires Linked(s) && Own(s, c, rank) && Ranks(rank, own) && k <= |own|
    requires |s.index| + k <= UNASSIGNED
    requires t.rows == ExtendedRows(s, c, rank, k, h) && t.index == ExtendedIndex(s, own, k)
    ensures Linked(t) && (AllAssigned(s) ==> AllAssigned(t))
  {
    forall i: nat | Lookup(t.index, i).Some?
      ensures Lookup(t.index, i).value in t.rows && t.rows[Lookup(t.index, i).value].id == i
    {
      if i < |s.index| {
        assert Lookup(s.index, i) == Lookup(t.index, i);
      } else {
        assert own[i - |s.index|] in rank;
      }
    }
    forall n | n in t.rows
      ensures t.rows[n].id != UNASSIGNED ==> Lookup(t.index, t.rows[n].id) == Some(n)
      ensures n !in s.rows ==> t.rows[n].id != UNASSIGNED
    {
      if n in s.rows && s.rows[n].id != UNASSIGNED {
        IdInIndex(s, n);
      }
    }
  }

  /** The request for an id for own entry `n`, and the server's answer when it is number `k`. */
  function Request(c: Table, n: Bytes): Message
    requires n in c.rows
  {
    EntryAssign(n, UNASSIGNED, c.rows[n].seqNum, c.rows[n].value, c.rows[n].flags)
  }

  function Answer(s: Table, c: Table, n: Bytes, k: nat): Message
    requires n in c.rows
  {
    EntryAssign(n, |s.index| + k, 0, c.rows[n].value, c.rows[n].flags)
  }

  ghost predicate AreRequests(c: Table, own: seq<Bytes>, ms: seq<Message>) {
    |ms| == |own| && forall j :: 0 <= j < |ms| ==> own[j] in c.rows && ms[j] == Request(c, own[j])
  }

  ghost predicate AreAnswers(s: Table, c: Table, own: seq<Bytes>, ms: seq<Message>) {
    |ms| <= |own| && forall j :: 0 <= j < |ms| ==> own[j] in c.rows && ms[j] == Answer(s, c, own[j], j)
  }

  /** Where the server is after `k` requests. */
  ghost predicate Numbered(s: Table, c: Table, own: seq<Bytes>, rank: map<Bytes, nat>, k: nat, u: Table,
                           sent: seq<Message>)
    requires Own(s, c, rank) && k <= |own|
  {
    && u.rows == ExtendedRows(s, c, rank, k, 0) && u.index == ExtendedIndex(s, own, k)
    && AreAnswers(s, c, own, sent) && |sent| == k
  }

  lemma {:induction false} ServerNumbers(s: Table, c: Table, own: seq<Bytes>, rank: map<Bytes, nat>,
                                         requests: seq<Message>, k: nat)
    requires Linked(s) && Own(s, c, rank) && Ranks(rank, own)
    requires AreRequests(c, own, requests) && k <= |own| && |s.index| + |own| <= UNASSIGNED
    ensures var (u, sent) := ReceiveAll(s, SERVER, requests[..k]); Numbered(s, c, own, rank, k, u, sent)
    decreases k
  {
    hide Receive;
    if k == 0 {
      assert s.rows == ExtendedRows(s, c, rank, 0, 0);
    } else {
      ServerNumbers(s, c, own, rank, requests, k - 1);
      var (u, sent) := ReceiveAll(s, SERVER, requests[..k - 1]);
      NumberNext(s, c, own, rank, k - 1, u, sent);
      ReceiveAllStep(s, SERVER, requests, k - 1);
    }
  }

  lemma NumberNext(s: Table, c: Table, own: seq<Bytes>, rank: map<Bytes, nat>, k: nat, u: Table, sent: seq<Message>)
    requires Linked(s) && Own(s, c, rank) && Ranks(rank, own) && k < |own|
    requires |s.index| + |own| <= UNASSIGNED
    requires Numbered(s, c, own, rank, k, u, sent) && own[k] in c.rows
    ensures LiveIndex(u)
    ensures var (u', out) := Receive(u, SERVER, PROTO_3, Request(c, own[k]));
      Numbered(s, c, own, rank, k + 1, u', sent + Addressed(out, true))
  {
    hide Receive, ExtendedRows;
    ExtendedIsLinked(s, c, own, rank, k, 0, u);
    NumberOne(s, c, rank, own[k], k, u);
  }

  lemma NumberOne(s: Table, c: Table, rank: map<Bytes, nat>, n: Bytes, k: nat, u: Table)
    requires LiveIndex(u) && Own(s, c, rank) && At(rank, n, k)
    requires u.rows == ExtendedRows(s, c, rank, k, 0) && |u.index| == |s.index| + k
    ensures var (u', out) := Receive(u, SERVER, PROTO_3, Request(c, n));
      && u'.rows == ExtendedRows(s, c, rank, k + 1, 0) && u'.index == u.index + [Some(n)]
      && out == [Out(Answer(s, c, n, k), false)] && Addressed(out, true) == [Answer(s, c, n, k)]
  {
    var (u', out) := Receive(u, SERVER, PROTO_3, Request(c, n));
    assert n !in u.rows;
    assert u'.rows == u.rows[n := Row(c.rows[n].value, c.rows[n].flags, |s.index| + k, 0)];
    assert u'.rows == ExtendedRows(s, c, rank, k + 1, 0);
  }

  /** The names that are the client's own. */
  function OwnAmong(names: seq<Bytes>, s: Table): (r: seq<Bytes>)
    ensures forall n :: n in r <==> n in names && n !in s.rows
  {
    if names == [] then []
    else
      var n := names[|names| - 1];
      OwnAmong(names[..|names| - 1], s) + if n in s.rows then [] else [n]
  }

  function RequestsFor(c: Table, names: seq<Bytes>): (r: seq<Message>)
    requires forall n :: n in names ==> n in c.rows
    ensures AreRequests(c, names, r)
  {
    seq(|names|, j requires 0 <= j < |names| => Request(c, names[j]))
  }

  /** Requests take no name away from the server. */
  lemma {:induction false} RequestsKeepNames(s: Table, c: Table, names: seq<Bytes>)
    requires LiveIndex(s) && forall n :: n in names ==> n in c.rows
    ensures var u := ReceiveAll(s, SERVER, RequestsFor(c, names)).0; LiveIndex(u) && s.rows.Keys <= u.rows.Keys
    decreases |names|
  {
    if names != [] {
      var k := |names| - 1;
      RequestsKeepNames(s, c, names[..k]);
      assert RequestsFor(c, names)[..k] == RequestsFor(c, names[..k]);
    }
  }

  /** The server passes over requests for names it has already: only those for the client's own names count. */
  lemma {:induction false} RequestsIgnored(s: Table, c: Table, names: seq<Bytes>)
    requires LiveIndex(s) && forall n :: n in names ==> n in c.rows
    ensures ReceiveAll(s, SERVER, RequestsFor(c, names)) == ReceiveAll(s, SERVER, RequestsFor(c, OwnAmong(names, s)))
    decreases |names|
  {
    hide Receive, ReceiveAll;
    if names != [] {
      var k := |names| - 1;
      RequestsIgnored(s, c, names[..k]);
      assert names == names[..k] + [names[k]];
      OneRequest(s, c, names[..k], names[k]);
      if names[k] in s.rows {
        RequestIgnored(s, c, names[..k], names[k]);
        assert OwnAmong(names[..k], s) + [] == OwnAmong(names[..k], s);
      } else {
        OneRequest(s, c, OwnAmong(names[..k], s), names[k]);
      }
    }
  }

  lemma OneRequest(s: Table, c: Table, names: seq<Bytes>, n: Bytes)
    requires LiveIndex(s) && n in c.rows && forall n :: n in names ==> n in c.rows
    ensures var (u, sent) := ReceiveAll(s, SERVER, RequestsFor(c, names));
      LiveIndex(u) &&
      var (u', out) := Receive(u, SERVER, PROTO_3, Request(c, n));
      ReceiveAll(s, SERVER, RequestsFor(c, names + [n])) == (u', sent + Addressed(out, true))
  {
    hide Receive;
    RequestsKeepNames(s, c, names);
    var ms := RequestsFor(c, names + [n]);
    assert ms[..|names|] == RequestsFor(c, names);
  }

  lemma RequestIgnored(s: Table, c: Table, names: seq<Bytes>, n: Bytes)
    requires LiveIndex(s) && n in c.rows && n in s.rows && forall n :: n in names ==> n in c.rows
    ensures var (u, sent) := ReceiveAll(s, SERVER, RequestsFor(c, names));
      && LiveIndex(u)
      && Receive(u, SERVER, PROTO_3, Request(c, n)) == (u, []) && sent + Addressed([], true) == sent
  {
    hide ReceiveAll;
    RequestsKeepNames(s, c, names);
  }

  ghost predicate Once(names: seq<Bytes>) {
    forall i, j :: 0 <= i < j < |names| ==> names[i] != names[j]
  }

  lemma {:induction false} OwnIsOnce(names: seq<Bytes>, s: Table)
    requires Once(names)
    ensures Once(OwnAmong(names, s))
    decreases |names|
  {
    if names != [] {
      var before := OwnAmong(names[..|names| - 1], s);
      OwnIsOnce(names[..|names| - 1], s);
      var n := names[|names| - 1];
      assert n !in before by {
        assert forall i :: 0 <= i < |names| - 1 ==> names[i] != n;
      }
      forall i, j | 0 <= i < j < |OwnAmong(names, s)|
        ensures OwnAmong(names, s)[i] != OwnAmong(names, s)[j]
      {
        assert OwnAmong(names, s)[i] == before[i] && before[i] in before;
      }
    }
  }

  // ---------------------------------------------------------------------------------------------
  // 3. The client learns the ids, and sends updates for entries it had changed
  // ---------------------------------------------------------------------------------------------

  /** The client's rows after the first `k` answers. */
  ghost function LearnedRows(s: Table, c: Table, rank: map<Bytes, nat>, k: nat): map<Bytes, Row>
    requires Own(s, c, rank)
  {
    map n | n in s.rows.Keys + rank.Keys ::
      if n in s.rows then s.rows[n]
      else if rank[n] < k then Row(c.rows[n].value, c.rows[n].flags, |s.index| + rank[n], Settled(c.rows[n]))
      else c.rows[n].(id := UNASSIGNED)
  }

  ghost predicate Learned(s: Table, c: Table, own: seq<Bytes>, rank: map<Bytes, nat>, k: nat, t: Table)
    requires Own(s, c, rank) && k <= |own|
  {
    && t.rows == LearnedRows(s, c, rank, k)
    && |t.index| <= UNASSIGNED
    && forall i: nat :: Lookup(t.index, i) == Lookup(ExtendedIndex(s, own, k), i)
  }

  /** The update the client sends for own entry `n`, number `k`, if any. */
  function UpdateFor(s: Table, c: Table, n: Bytes, k: nat): seq<Message>
    requires n in c.rows
  {
    var row := c.rows[n];
    if Less(0, row.seqNum) then [EntryUpdate(|s.index| + k, row.seqNum, row.value)] else []
  }

  /** The updates the client sends for its first `k` own entries. */
  ghost function Updates(s: Table, c: Table, own: seq<Bytes>, k: nat): seq<Message>
    requires k <= |own| && forall j :: 0 <= j < |own| ==> own[j] in c.rows
  {
    if k == 0 then [] else Updates(s, c, own, k - 1) + UpdateFor(s, c, own[k - 1], k - 1)
  }

  lemma {:induction false} ClientLearns(s: Table, c: Table, t: Table, own: seq<Bytes>, rank: map<Bytes, nat>,
                                        answers: seq<Message>, k: nat)
    requires Linked(s) && Own(s, c, rank) && Ranks(rank, own) && k <= |own|
    requires |s.index| + |own| <= UNASSIGNED && Learned(s, c, own, rank, 0, t)
    requires AreAnswers(s, c, own, answers) && |answers| == |own|
    ensures var (u, sent) := ReceiveAll(t, CLIENT, answers[..k]);
      Learned(s, c, own, rank, k, u) && sent == Updates(s, c, own, k)
    decreases k
  {
    hide Receive, ReceiveAll, Addressed, UpdateFor, Linked, LiveIndex, Learned, Answer;
    if k == 0 {
      assert answers[..0] == [];
      NothingReceived(t, CLIENT);
    } else {
      ClientLearns(s, c, t, own, rank, answers, k - 1);
      var (u, sent) := ReceiveAll(t, CLIENT, answers[..k - 1]);
      LearnedIsLive(s, c, own, rank, k - 1, u);
      var (u', out) := Receive(u, CLIENT, PROTO_3, answers[k - 1]);
      assert Learned(s, c, own, rank, k, u') && Addressed(out, true) == UpdateFor(s, c, own[k - 1], k - 1) by {
        LearnOne(s, c, own, rank, k - 1, u);
      }
      ReceiveAllStep(t, CLIENT, answers, k - 1);
    }
  }

  lemma LearnedIsLive(s: Table, c: Table, own: seq<Bytes>, rank: map<Bytes, nat>, k: nat, t: Table)
    requires Linked(s) && Own(s, c, rank) && Ranks(rank, own) && k <= |own| && Learned(s, c, own, rank, k, t)
    ensures LiveIndex(t)
  {
    forall i: nat | Lookup(t.index, i).Some?
      ensures Lookup(t.index, i).value in t.rows
    {
      if i < |s.index| {
        assert Lookup(s.index, i) == s.index[i];
      } else {
        assert own[i - |s.index|] in rank;
      }
    }
  }

  lemma LearnOne(s: Table, c: Table, own: seq<Bytes>, rank: map<Bytes, nat>, k: nat, t: Table)
    requires LiveIndex(t) && Own(s, c, rank) && k < |own| && |s.index| + |own| <= UNASSIGNED
    requires At(rank, own[k], k) && Learned(s, c, own, rank, k, t)
    ensures var (u, out) := Receive(t, CLIENT, PROTO_3, Answer(s, c, own[k], k));
      Learned(s, c, own, rank, k + 1, u) && Addressed(out, true) == UpdateFor(s, c, own[k], k)
  {
    var n := own[k];
    LearnRow(s, c, rank, n, k, t);
    var u := Receive(t, CLIENT, PROTO_3, Answer(s, c, n, k)).0;
    forall i: nat
      ensures Lookup(u.index, i) == Lookup(ExtendedIndex(s, own, k + 1), i)
    {
    }
  }

  lemma LearnRow(s: Table, c: Table, rank: map<Bytes, nat>, n: Bytes, k: nat, t: Table)
    requires LiveIndex(t) && Own(s, c, rank) && At(rank, n, k)
    requires t.rows == LearnedRows(s, c, rank, k) && Lookup(t.index, |s.index| + k) == None
    requires |s.index| + k < UNASSIGNED && |t.index| <= UNASSIGNED
    ensures var (u, out) := Receive(t, CLIENT, PROTO_3, Answer(s, c, n, k));
      && u.rows == LearnedRows(s, c, rank, k + 1) && |u.index| <= UNASSIGNED
      && (forall i: nat :: Lookup(u.index, i) == if i == |s.index| + k then Some(n) else Lookup(t.index, i))
      && Addressed(out, true) == UpdateFor(s, c, n, k)
  {
    var m, before := Answer(s, c, n, k), t.rows[n];
    var (u, out) := Receive(t, CLIENT, PROTO_3, m);
    assert before == c.rows[n].(id := UNASSIGNED);
    var (row, touched, sent) := AssignExisting(before.(id := m.id), n, CLIENT, PROTO_3, m, true);
    assert row == Row(c.rows[n].value, c.rows[n].flags, m.id, Settled(c.rows[n]));
    assert u.rows == t.rows[n := row];
    assert u.rows == LearnedRows(s, c, rank, k + 1);
    assert u.index == Grow(t.index, m.id + 1)[m.id := Some(n)];
  }

  // ---------------------------------------------------------------------------------------------
  // 4. The server takes the updates
  // ---------------------------------------------------------------------------------------------

  lemma {:induction false} ServerSettles(s: Table, c: Table, own: seq<Bytes>, rank: map<Bytes, nat>, u: Table, h: nat)
    requires Linked(s) && Own(s, c, rank) && Ranks(rank, own)
    requires h <= |own| && |s.index| + |own| <= UNASSIGNED && forall j :: 0 <= j < |own| ==> own[j] in c.rows
    requires u.rows == ExtendedRows(s, c, rank, |own|, 0) && u.index == ExtendedIndex(s, own, |own|)
    ensures var t := ReceiveAll(u, SERVER, Updates(s, c, own, h)).0;
      t.rows == ExtendedRows(s, c, rank, |own|, h) && t.index == ExtendedIndex(s, own, |own|)
    decreases h
  {
    hide Receive, ExtendedRows, ExtendedIndex, UpdateFor, Linked;
    if h > 0 {
      ServerSettles(s, c, own, rank, u, h - 1);
      SettleMore(s, c, own, rank, h - 1, u, Updates(s, c, own, h - 1));
    }
  }

  lemma SettleNext(s: Table, c: Table, own: seq<Bytes>, rank: map<Bytes, nat>, h: nat, t: Table)
    requires Linked(s) && Own(s, c, rank) && Ranks(rank, own)
    requires h < |own| && |s.index| + |own| <= UNASSIGNED && own[h] in c.rows
    requires t.rows == ExtendedRows(s, c, rank, |own|, h) && t.index == ExtendedIndex(s, own, |own|)
    ensures LiveIndex(t)
    ensures var m := UpdateFor(s, c, own[h], h);
      var t' := if m == [] then t else Receive(t, SERVER, PROTO_3, m[0]).0;
      t'.rows == ExtendedRows(s, c, rank, |own|, h + 1) && t'.index == t.index
  {
    ExtendedIsLinked(s, c, own, rank, |own|, h, t);
    assert Lookup(t.index, |s.index| + h) == Some(own[h]);
    SettleOne(s, c, rank, own[h], h, |own|, t);
  }

  lemma SettleMore(s: Table, c: Table, own: seq<Bytes>, rank: map<Bytes, nat>, h: nat, u: Table, us: seq<Message>)
    requires Linked(s) && Own(s, c, rank) && Ranks(rank, own)
    requires h < |own| && |s.index| + |own| <= UNASSIGNED && own[h] in c.rows
    requires var t := ReceiveAll(u, SERVER, us).0;
      t.rows == ExtendedRows(s, c, rank, |own|, h) && t.index == ExtendedIndex(s, own, |own|)
    ensures var t' := ReceiveAll(u, SERVER, us + UpdateFor(s, c, own[h], h)).0;
      t'.rows == ExtendedRows(s, c, rank, |own|, h + 1) && t'.index == ExtendedIndex(s, own, |own|)
  {
    SettleNext(s, c, own, rank, h, ReceiveAll(u, SERVER, us).0);
    OneMore(u, us, UpdateFor(s, c, own[h], h));
  }

  lemma OneMore(u: Table, us: seq<Message>, m: seq<Message>)
    requires |m| <= 1 && LiveIndex(ReceiveAll(u, SERVER, us).0)
    ensures var t := ReceiveAll(u, SERVER, us).0;
      ReceiveAll(u, SERVER, us + m).0 == if m == [] then t else Receive(t, SERVER, PROTO_3, m[0]).0
  {
    if m == [] {
      assert us + m == us;
    } else {
      assert (us + m)[..|us|] == us;
    }
  }

  lemma SettleOne(s: Table, c: Table, rank: map<Bytes, nat>, n: Bytes, h: nat, k: nat, t: Table)
    requires LiveIndex(t) && Own(s, c, rank) && h < k && At(rank, n, h)
    requires t.rows == ExtendedRows(s, c, rank, k, h) && Lookup(t.index, |s.index| + h) == Some(n)
    ensures var m := UpdateFor(s, c, n, h);
      var t' := if m == [] then t else Receive(t, SERVER, PROTO_3, m[0]).0;
      t'.rows == ExtendedRows(s, c, rank, k, h + 1) && t'.index == t.index
  {
    var row, m := c.rows[n], UpdateFor(s, c, n, h);
    var t' := if m == [] then t else Receive(t, SERVER, PROTO_3, m[0]).0;
    BehindIsDistance(0, row.seqNum);
    OrderIsDistance(0, row.seqNum);
    assert t'.rows == t.rows[n := Row(row.value, row.flags, |s.index| + h, Settled(row))];
    assert t'.rows == ExtendedRows(s, c, rank, k, h + 1);
  }

  // ---------------------------------------------------------------------------------------------
  // The whole handshake
  // ---------------------------------------------------------------------------------------------

  /** Both sides at the end of the handshake. `toClient` and `toServer` are the iteration orders of the two hash
      tables. What the client kept and what it changed while it waited for its ids is sent last. */
  ghost function RunHandshake(s: Table, c: Table, newServer: bool, toClient: seq<Bytes>, toServer: seq<Bytes>)
    : (Table, Table)
    requires forall n :: n in toClient ==> n in s.rows
  {
    var (c1, kept) := ApplyAll(ForgetIds(c), newServer, PROTO_3, AssignsOf(s.rows, toClient));
    if exists n :: n in toServer && n !in c1.rows then (s, c1)
    else
      var (s1, answers) := ReceiveAll(s, SERVER, AssignsOf(c1.rows, toServer));
      var (c2, updates) := ReceiveAll(c1, CLIENT, answers);
      var (s2, _) := ReceiveAll(s1, SERVER, kept + updates);
      (s2, c2)
  }

  /** Same rows, and the same ids lead to the same names. */
  ghost predicate SameTable(s: Table, c: Table) {
    s.rows == c.rows && forall i: nat :: Lookup(s.index, i) == Lookup(c.index, i)
  }

  /** `s2` has everything `s` and `c` had: the server's rows as they were, the client's own under their value and flags. */
  ghost predicate Union(s: Table, c: Table, s2: Table) {
    && s2.rows.Keys == s.rows.Keys + c.rows.Keys
    && (forall n :: n in s.rows ==> s2.rows[n] == s.rows[n])
    && (forall n :: n in c.rows && n !in s.rows ==>
          s2.rows[n].value == c.rows[n].value && s2.rows[n].flags == c.rows[n].flags)
  }

  /** `c2` has what the client takes of the server's rows, and for its own names what the server has in `s2`. */
  ghost predicate Settles(s: Table, c: Table, newServer: bool, s2: Table, c2: Table) {
    var v := AsTaken(s, c, newServer);
    && c2.rows.Keys == v.rows.Keys + c.rows.Keys
    && (forall n :: n in v.rows ==> c2.rows[n] == v.rows[n])
    && (forall n :: n in c.rows && n !in s.rows ==> n in s2.rows && c2.rows[n] == s2.rows[n])
    && forall i: nat :: Lookup(s2.index, i) == Lookup(c2.index, i)
  }

  /** Before the handshake: what the client will keep is what the server has, and so is what the client has under names
      without an id at the server, which it has all. */
  ghost predicate NothingApart(s: Table, c: Table, newServer: bool) {
    forall n :: n in s.rows ==>
      if s.rows[n].id == UNASSIGNED then n in c.rows && c.rows[n].(id := UNASSIGNED) == s.rows[n]
      else Keeps(s, c, newServer, n) ==> c.rows[n].(id := s.rows[n].id) == s.rows[n]
  }

  /** The end of every handshake, with a server the client is new to or comes back to: the server has its rows as they
      were and the client's own beside them; the client has the same, except that it keeps its own under shared names
      with a newer serial and misses names without an id. So the two tables are the same if and only if there is nothing
      of that kind to set them apart. */
  lemma HandshakeEnds(s: Table, c: Table, newServer: bool, toClient: seq<Bytes>, toServer: seq<Bytes>)
    requires Linked(s) && Lists(toClient, s.rows.Keys)
    requires forall n :: n in toClient ==> n in s.rows
    requires Lists(toServer, Unassigned(ApplyAll(ForgetIds(c), newServer, PROTO_3, AssignsOf(s.rows, toClient)).0))
    requires |s.index| + |OwnAmong(toServer, s)| <= UNASSIGNED
    ensures var (s2, c2) := RunHandshake(s, c, newServer, toClient, toServer);
      && Union(s, c, s2) && Settles(s, c, newServer, s2, c2)
      && Linked(s2) && Linked(c2) && (AllAssigned(s) ==> AllAssigned(s2) && AllAssigned(c2))
      && (SameTable(s2, c2) <==> NothingApart(s, c, newServer))
  {
    hide ApplyAll, Linked, AssignsOf, ReceiveAll, Union, Settles, NothingApart, KeptUpdates;
    var (c1, kept) := ApplyAll(ForgetIds(c), newServer, PROTO_3, AssignsOf(s.rows, toClient));
    AfterAdoption(s, c, newServer, toClient, toServer, c1, kept);
    var own := OwnAmong(toServer, s);
    OwnIsOnce(toServer, s);
    OwnAreListed(s, c, toServer);
    KeptAreReported(s, c, newServer, toClient, s, SERVER);
    var rank := RankExists(own, c.rows.Keys - s.rows.Keys);
    ClientAsks(s, c, newServer, toServer, rank, c1);
    AfterRequests(s, c, newServer, own, rank, c1, kept, toServer, AssignsOf(c1.rows, toServer));
    var (s2, c2) := RunHandshake(s, c, newServer, toClient, toServer);
    SameWhenNothingApart(s, c, newServer, s2, c2);
  }

  lemma SameWhenNothingApart(s: Table, c: Table, newServer: bool, s2: Table, c2: Table)
    requires Union(s, c, s2) && Settles(s, c, newServer, s2, c2)
    ensures SameTable(s2, c2) <==> NothingApart(s, c, newServer)
  {
    var v := AsTaken(s, c, newServer);
    if SameTable(s2, c2) {
      forall n | n in s.rows
        ensures n in v.rows && v.rows[n] == s.rows[n]
      {
        assert n in c2.rows;
      }
    }
    if NothingApart(s, c, newServer) {
      assert v.rows == s.rows;
      assert s2.rows == c2.rows;
    }
  }

  /** After a handshake with a new server all of whose entries have ids the two tables have the same rows - names, ids,
      values, flags and serials - and the same ids lead to the same names. Shared names carry the server's data, the
      client's own names keep their value and flags, and no name of either side is lost. */
  lemma HandshakeConverges(s: Table, c: Table, toClient: seq<Bytes>, toServer: seq<Bytes>)
    requires Linked(s) && AllAssigned(s) && Lists(toClient, s.rows.Keys)
    requires forall n :: n in toClient ==> n in s.rows
    requires Lists(toServer, Unassigned(ApplyAll(ForgetIds(c), true, PROTO_3, AssignsOf(s.rows, toClient)).0))
    requires |s.index| + |OwnAmong(toServer, s)| <= UNASSIGNED
    ensures var (s2, c2) := RunHandshake(s, c, true, toClient, toServer);
      && SameTable(s2, c2) && Union(s, c, s2)
      && Linked(s2) && AllAssigned(s2) && Linked(c2) && AllAssigned(c2)
  {
    hide RunHandshake, ApplyAll, Linked, SameTable, Union;
    HandshakeEnds(s, c, true, toClient, toServer);
  }

  lemma AfterAdoption(s: Table, c: Table, newServer: bool, toClient: seq<Bytes>, toServer: seq<Bytes>, c1: Table,
                      kept: seq<Message>)
    requires Linked(s) && Lists(toClient, s.rows.Keys)
    requires forall n :: n in toClient ==> n in s.rows
    requires (c1, kept) == ApplyAll(ForgetIds(c), newServer, PROTO_3, AssignsOf(s.rows, toClient))
    requires Lists(toServer, Unassigned(c1))
    ensures Taken(s, c, newServer, c1) && (forall n :: n in toServer ==> n in c1.rows && n in c.rows)
    ensures forall n :: n in c.rows && n !in s.rows ==> n in toServer
    ensures forall n :: n in toServer ==> c1.rows[n] == c.rows[n].(id := UNASSIGNED)
    ensures kept == KeptUpdates(s, c, newServer, toClient)
  {
    hide ApplyAll, Adopted, AssignsOf, Unassigned, KeptUpdates, AsTaken, Linked;
    var rank := RankExists(toClient, s.rows.Keys);
    var ms := AssignsOf(s.rows, toClient);
    assert ms[..|ms|] == ms && toClient[..|toClient|] == toClient;
    ClientAdopts(s, c, newServer, toClient, rank, |toClient|);
    AllAdopted(s, c, newServer, rank, |toClient|, c1);
  }

  /** The client has taken all of the server's table, and its own names have no id. */
  ghost predicate Taken(s: Table, c: Table, newServer: bool, c1: Table) {
    var v := AsTaken(s, c, newServer);
    && c1.rows.Keys == v.rows.Keys + c.rows.Keys && |c1.index| <= UNASSIGNED
    && (forall n :: n in v.rows ==> c1.rows[n] == v.rows[n])
    && (forall n :: n in c.rows && n !in s.rows ==> c1.rows[n] == c.rows[n].(id := UNASSIGNED))
    && forall i: nat :: Lookup(c1.index, i) == Lookup(s.index, i)
  }

  /** Once every name of the server has been adopted, the names left without an id are the client's own, and those that
      have none at the server. */
  lemma AllAdopted(s: Table, c: Table, newServer: bool, rank: map<Bytes, nat>, k: nat, c1: Table)
    requires Linked(s) && rank.Keys == s.rows.Keys && Adopted(s, c, newServer, rank, k, c1)
    requires forall n :: n in rank ==> rank[n] < k
    ensures Taken(s, c, newServer, c1)
    ensures forall n :: n in Unassigned(c1) ==> n in c.rows && c1.rows[n] == c.rows[n].(id := UNASSIGNED)
    ensures forall n :: n in c.rows && n !in s.rows ==> n in Unassigned(c1)
  {
  }

  lemma OwnAreListed(s: Table, c: Table, toServer: seq<Bytes>)
    requires forall n :: n in toServer ==> n in c.rows
    requires forall n :: n in c.rows && n !in s.rows ==> n in toServer
    ensures forall n :: n in c.rows.Keys - s.rows.Keys <==> n in OwnAmong(toServer, s)
  {
  }

  lemma AfterRequests(s: Table, c: Table, newServer: bool, own: seq<Bytes>, rank: map<Bytes, nat>, c1: Table,
                      kept: seq<Message>, toServer: seq<Bytes>, requests: seq<Message>)
    requires Linked(s) && Ranks(rank, own) && Own(s, c, rank) && |s.index| + |own| <= UNASSIGNED
    requires Own(AsTaken(s, c, newServer), c, rank) && Learned(AsTaken(s, c, newServer), c, own, rank, 0, c1)
    requires own == OwnAmong(toServer, s) && AreRequests(c, toServer, requests)
    requires forall n :: n in toServer ==> n in c.rows
    requires forall m :: m in kept ==> m.EntryUpdate? && m.id == UNASSIGNED
    ensures var (s1, answers) := ReceiveAll(s, SERVER, requests);
      var (c2, updates) := ReceiveAll(c1, CLIENT, answers);
      var s2 := ReceiveAll(s1, SERVER, kept + updates).0;
      && Union(s, c, s2) && Settles(s, c, newServer, s2, c2)
      && Linked(s2) && Linked(c2) && (AllAssigned(s) ==> AllAssigned(s2) && AllAssigned(c2))
  {
    hide Receive, ReceiveAll, Linked, AsTaken, Union, Settles, ExtendedRows, LearnedRows, ExtendedIndex;
    assert LiveIndex(s) by {
      LinkedIsLive(s);
    }
    RequestsIgnored(s, c, toServer);
    assert requests == RequestsFor(c, toServer);
    var asked := RequestsFor(c, own);
    ServerNumbers(s, c, own, rank, asked, |own|);
    assert asked[..|own|] == asked;
    var (s1, answers) := ReceiveAll(s, SERVER, requests);
    AfterAnswers(s, c, newServer, own, rank, c1, s1, answers, kept);
  }

  lemma LinkedIsLive(t: Table)
    requires Linked(t)
    ensures LiveIndex(t)
  {
  }

  lemma ClientAsks(s: Table, c: Table, newServer: bool, toServer: seq<Bytes>, rank: map<Bytes, nat>, c1: Table)
    requires Linked(s) && Own(s, c, rank) && Taken(s, c, newServer, c1)
    requires forall n :: n in toServer ==> n in c1.rows && n in c.rows && c1.rows[n] == c.rows[n].(id := UNASSIGNED)
    ensures Own(AsTaken(s, c, newServer), c, rank)
    ensures Learned(AsTaken(s, c, newServer), c, OwnAmong(toServer, s), rank, 0, c1)
    ensures AreRequests(c, toServer, AssignsOf(c1.rows, toServer))
  {
    hide Linked, AssignsOf, LearnedRows, AsTaken;
    TakenIsLinked(s, c, newServer);
    TakenIndex(s, c, newServer);
    TakenToLearn(s, AsTaken(s, c, newServer), c, rank, c1);
    var ms := AssignsOf(c1.rows, toServer);
    assert forall j :: 0 <= j < |ms| ==> toServer[j] in c.rows && ms[j] == AssignOf(c1.rows, toServer[j]);
  }

  lemma TakenToLearn(s: Table, v: Table, c: Table, rank: map<Bytes, nat>, c1: Table)
    requires Own(v, c, rank) && c.rows.Keys - v.rows.Keys == c.rows.Keys - s.rows.Keys
    requires c1.rows.Keys == v.rows.Keys + c.rows.Keys
    requires forall n :: n in v.rows ==> c1.rows[n] == v.rows[n]
    requires forall n :: n in c.rows && n !in s.rows ==> c1.rows[n] == c.rows[n].(id := UNASSIGNED)
    ensures c1.rows == LearnedRows(v, c, rank, 0)
  {
    assert forall n :: n in c.rows && n !in v.rows ==> n in c.rows.Keys - v.rows.Keys;
  }

  lemma AfterAnswers(s: Table, c: Table, newServer: bool, own: seq<Bytes>, rank: map<Bytes, nat>, c1: Table, s1: Table,
                     answers: seq<Message>, kept: seq<Message>)
    requires Linked(s) && Ranks(rank, own) && Own(s, c, rank) && |s.index| + |own| <= UNASSIGNED
    requires Own(AsTaken(s, c, newServer), c, rank) && Learned(AsTaken(s, c, newServer), c, own, rank, 0, c1)
    requires Numbered(s, c, own, rank, |own|, s1, answers)
    requires forall m :: m in kept ==> m.EntryUpdate? && m.id == UNASSIGNED
    ensures var (c2, updates) := ReceiveAll(c1, CLIENT, answers);
      var s2 := ReceiveAll(s1, SERVER, kept + updates).0;
      && Union(s, c, s2) && Settles(s, c, newServer, s2, c2)
      && Linked(s2) && Linked(c2) && (AllAssigned(s) ==> AllAssigned(s2) && AllAssigned(c2))
  {
    hide Numbered, Learned, ReceiveAll, Linked, Union, Settles, AsTaken, ExtendedIndex;
    ClientEnds(s, c, newServer, own, rank, c1, s1, answers);
    var (c2, updates) := ReceiveAll(c1, CLIENT, answers);
    ServerEnds(s, c, own, rank, s1, answers, kept);
    BothEnd(s, c, newServer, own, rank, ReceiveAll(s1, SERVER, kept + updates).0, c2);
  }

  lemma ClientEnds(s: Table, c: Table, newServer: bool, own: seq<Bytes>, rank: map<Bytes, nat>, c1: Table, s1: Table,
                   answers: seq<Message>)
    requires Linked(s) && Ranks(rank, own) && Own(s, c, rank) && |s.index| + |own| <= UNASSIGNED
    requires Own(AsTaken(s, c, newServer), c, rank) && Learned(AsTaken(s, c, newServer), c, own, rank, 0, c1)
    requires Numbered(s, c, own, rank, |own|, s1, answers)
    ensures forall j :: 0 <= j < |own| ==> own[j] in c.rows
    ensures var (c2, updates) := ReceiveAll(c1, CLIENT, answers);
      && Learned(AsTaken(s, c, newServer), c, own, rank, |own|, c2)
      && updates == Updates(s, c, own, |own|)
  {
    hide *;
    var v := AsTaken(s, c, newServer);
    TakenIsLinked(s, c, newServer);
    TakenIndex(s, c, newServer);
    SameAnswers(s, v, c, own, rank, s1, answers);
    ClientLearns(v, c, c1, own, rank, answers, |own|);
    assert answers[..|own|] == answers;
    SameUpdates(s, v, c, own, |own|);
  }

  lemma ServerEnds(s: Table, c: Table, own: seq<Bytes>, rank: map<Bytes, nat>, s1: Table, answers: seq<Message>,
                   kept: seq<Message>)
    requires Linked(s) && Ranks(rank, own) && Own(s, c, rank) && |s.index| + |own| <= UNASSIGNED
    requires Numbered(s, c, own, rank, |own|, s1, answers)
    requires forall m :: m in kept ==> m.EntryUpdate? && m.id == UNASSIGNED
    ensures forall j :: 0 <= j < |own| ==> own[j] in c.rows
    ensures var s2 := ReceiveAll(s1, SERVER, kept + Updates(s, c, own, |own|)).0;
      s2.rows == ExtendedRows(s, c, rank, |own|, |own|) && s2.index == ExtendedIndex(s, own, |own|)
  {
    hide ExtendedRows, ReceiveAll, Linked, ExtendedIndex, Updates;
    ExtendedIsLinked(s, c, own, rank, |own|, 0, s1);
    KeptAreLost(s1, kept, Updates(s, c, own, |own|));
    ServerSettles(s, c, own, rank, s1, |own|);
  }

  /** Answers and updates go by ids, whatever the rows are. */
  lemma SameAnswers(s: Table, v: Table, c: Table, own: seq<Bytes>, rank: map<Bytes, nat>, s1: Table, answers: seq<Message>)
    requires Own(s, c, rank) && Numbered(s, c, own, rank, |own|, s1, answers) && v.index == s.index
    ensures AreAnswers(v, c, own, answers) && |answers| == |own| && forall j :: 0 <= j < |own| ==> own[j] in c.rows
  {
  }

  lemma {:induction false} SameUpdates(s: Table, v: Table, c: Table, own: seq<Bytes>, k: nat)
    requires k <= |own| && (forall j :: 0 <= j < |own| ==> own[j] in c.rows) && v.index == s.index
    ensures Updates(v, c, own, k) == Updates(s, c, own, k)
    decreases k
  {
    if k > 0 {
      SameUpdates(s, v, c, own, k - 1);
    }
  }

  lemma UnassignedUpdateIsLost(server: Table, role: Role, rev: nat, m: Message)
    requires Linked(server) && m.EntryUpdate? && m.id == UNASSIGNED
    ensures Receive(server, role, rev, m) == (server, [])
  {
  }

  lemma {:induction false} KeptLeaveAsIs(u: Table, kept: seq<Message>)
    requires Linked(u) && forall m :: m in kept ==> m.EntryUpdate? && m.id == UNASSIGNED
    ensures ReceiveAll(u, SERVER, kept).0 == u
    decreases |kept|
  {
    if kept != [] {
      KeptLeaveAsIs(u, kept[..|kept| - 1]);
      UnassignedUpdateIsLost(u, SERVER, PROTO_3, kept[|kept| - 1]);
    }
  }

  lemma {:induction false} KeptAreLost(u: Table, kept: seq<Message>, more: seq<Message>)
    requires Linked(u) && forall m :: m in kept ==> m.EntryUpdate? && m.id == UNASSIGNED
    ensures ReceiveAll(u, SERVER, kept + more).0 == ReceiveAll(u, SERVER, more).0
    decreases |more|
  {
    hide Receive;
    if more == [] {
      assert kept + more == kept;
      KeptLeaveAsIs(u, kept);
    } else {
      KeptAreLost(u, kept, more[..|more| - 1]);
      assert (kept + more)[..|kept + more| - 1] == kept + more[..|more| - 1];
    }
  }

  lemma BothEnd(s: Table, c: Table, newServer: bool, own: seq<Bytes>, rank: map<Bytes, nat>, s2: Table, c2: Table)
    requires Linked(s) && Own(s, c, rank) && Ranks(rank, own) && |s.index| + |own| <= UNASSIGNED
    requires s2.rows == ExtendedRows(s, c, rank, |own|, |own|) && s2.index == ExtendedIndex(s, own, |own|)
    requires var v := AsTaken(s, c, newServer); Own(v, c, rank) && Learned(v, c, own, rank, |own|, c2)
    ensures Union(s, c, s2) && Settles(s, c, newServer, s2, c2)
    ensures Linked(s2) && Linked(c2) && (AllAssigned(s) ==> AllAssigned(s2) && AllAssigned(c2))
  {
    hide Linked, AsTaken, ExtendedIndex, ExtendedRows, LearnedRows;
    var v := AsTaken(s, c, newServer);
    TakenIsLinked(s, c, newServer);
    TakenIndex(s, c, newServer);
    SameIndex(s, v, own, |own|);
    ExtendedIsLinked(s, c, own, rank, |own|, |own|, s2);
    LearnedAll(v, c, rank, |own|);
    var like := Table(c2.rows, s2.index, false);
    ExtendedIsLinked(v, c, own, rank, |own|, |own|, like);
    LinkedByLookup(like, c2);
    RowsEnd(s, c, newServer, own, rank, s2.rows, c2.rows);
  }

  lemma RowsEnd(s: Table, c: Table, newServer: bool, own: seq<Bytes>, rank: map<Bytes, nat>, rows: map<Bytes, Row>,
                taken: map<Bytes, Row>)
    requires Own(s, c, rank) && Own(AsTaken(s, c, newServer), c, rank) && Ranks(rank, own)
    requires AsTaken(s, c, newServer).index == s.index
    requires rows == ExtendedRows(s, c, rank, |own|, |own|)
    requires taken == ExtendedRows(AsTaken(s, c, newServer), c, rank, |own|, |own|)
    ensures var s2, c2 := Table(rows, s.index, false), Table(taken, s.index, false);
      Union(s, c, s2) && Settles(s, c, newServer, s2, c2)
  {
    hide AsTaken, ExtendedRows;
    ExtendedHas(s, c, rank, |own|);
    ExtendedHas(AsTaken(s, c, newServer), c, rank, |own|);
  }

  /** When all is learned and settled, the client's rows are those a server with the rows of `v` would have. */
  lemma LearnedAll(v: Table, c: Table, rank: map<Bytes, nat>, k: nat)
    requires Own(v, c, rank) && forall n :: n in rank ==> rank[n] < k
    ensures LearnedRows(v, c, rank, k) == ExtendedRows(v, c, rank, k, k)
  {
  }

  lemma ExtendedHas(s: Table, c: Table, rank: map<Bytes, nat>, k: nat)
    requires Own(s, c, rank) && forall n :: n in rank ==> rank[n] < k
    ensures var rows := ExtendedRows(s, c, rank, k, k);
      && rows.Keys == s.rows.Keys + c.rows.Keys
      && (forall n :: n in s.rows ==> rows[n] == s.rows[n])
      && (forall n :: n in rank ==> rows[n] == Row(c.rows[n].value, c.rows[n].flags, |s.index| + rank[n], Settled(c.rows[n])))
  {
  }

  lemma TakenIndex(s: Table, c: Table, newServer: bool)
    ensures AsTaken(s, c, newServer).index == s.index
  {
  }

  lemma SameIndex(s: Table, v: Table, own: seq<Bytes>, k: nat)
    requires v.index == s.index && k <= |own|
    ensures ExtendedIndex(v, own, k) == ExtendedIndex(s, own, k)
  {
  }

  lemma LinkedByLookup(t: Table, u: Table)
    requires Linked(t) && u.rows == t.rows && |u.index| <= UNASSIGNED
    requires forall i: nat :: Lookup(u.index, i) == Lookup(t.index, i)
    ensures Linked(u) && (AllAssigned(t) ==> AllAssigned(u))
  {
  }

  /** After the handshake the client is a faithful listener, with nothing on its way and its serials in step. */
  lemma HandshakeStartsMirror(s: Table, c: Table)
    requires Linked(s) && AllAssigned(s) && Linked(c) && AllAssigned(c)
    requires SameTable(s, c)
    ensures Inv(System(s, IDLE, [], c)) && InStep(System(s, IDLE, [], c))
  {
    forall i: nat
      ensures CellAt(c, i) == CellAt(s, i)
    {
      assert Lookup(c.index, i) == Lookup(s.index, i);
    }
    BeginsInStep(s, c);
  }

  // ---------------------------------------------------------------------------------------------
  // Reconnecting to a server that remembers the client
  // ---------------------------------------------------------------------------------------------

  /** A client that keeps its newer value on reconnecting tells the server so under the id 0xffff, because it has
      just forgotten all ids: the message is lost on any server. */
  lemma {:induction false} ReconnectUpdatesAreLost(c: Table, rev: nat, ms: seq<Message>, server: Table, role: Role)
    requires Linked(server)
    requires forall i, j :: 0 <= i < j < |ms| && ms[i].EntryAssign? && ms[j].EntryAssign? ==> ms[i].name != ms[j].name
    ensures forall m :: m in ApplyAll(ForgetIds(c), false, rev, ms).1 ==>
      m.EntryUpdate? && m.id == UNASSIGNED && Receive(server, role, rev, m) == (server, [])
    decreases |ms|
  {
    if ms != [] {
      var init, last := ms[..|ms| - 1], ms[|ms| - 1];
      ReconnectUpdatesAreLost(c, rev, init, server, role);
      NotNamedYet(c, rev, init, last);
      var u := ApplyOne(ApplyAll(ForgetIds(c), false, rev, init).0, false, rev, last).1;
      if u != [] {
        UnassignedUpdateIsLost(server, role, rev, u[0]);
      }
    }
  }

  /** An entry the server has not named yet has no id. */
  lemma {:induction false} NotNamedYet(c: Table, rev: nat, ms: seq<Message>, m: Message)
    requires m.EntryAssign? ==> forall j :: 0 <= j < |ms| && ms[j].EntryAssign? ==> ms[j].name != m.name
    ensures var t := ApplyAll(ForgetIds(c), false, rev, ms).0;
      m.EntryAssign? && m.name in t.rows ==> t.rows[m.name].id == UNASSIGNED
    decreases |ms|
  {
    if ms != [] {
      NotNamedYet(c, rev, ms[..|ms| - 1], m);
    }
  }

  /** In a handshake one such update is sent for exactly the kept names. */
  lemma {:induction false} KeptAreReported(s: Table, c: Table, newServer: bool, order: seq<Bytes>, server: Table,
                                           role: Role)
    requires Linked(server) && forall n :: n in order ==> n in s.rows
    ensures var kept := KeptUpdates(s, c, newServer, order);
      && (forall m :: m in kept ==>
            m.EntryUpdate? && m.id == UNASSIGNED && Receive(server, role, PROTO_3, m) == (server, []))
      && (kept == [] <==> forall n :: n in order ==> !Keeps(s, c, newServer, n))
    decreases |order|
  {
    if order != [] {
      var init, last := order[..|order| - 1], order[|order| - 1];
      KeptAreReported(s, c, newServer, init, server, role);
      assert forall n :: n in order <==> n in init || n == last;
    }
  }

  /** It happens: the client has a newer value, keeps it, reports it under the id 0xffff, and both sides end with their
      own. */
  lemma ReconnectLosesUpdate(n: Bytes, v0: Value, v1: Value)
    requires v0 != v1
    ensures var s, c, kept := Single(n, v0, 1), Single(n, v1, 2), EntryUpdate(UNASSIGNED, 2, v1);
      && ApplyAll(ForgetIds(c), false, PROTO_3, AssignsOf(s.rows, [n])) == (c, [kept])
      && RunHandshake(s, c, false, [n], []) == (s, c) && !SameTable(s, c) && !NothingApart(s, c, false)
  {
    var s, c := Single(n, v0, 1), Single(n, v1, 2);
    var ms := AssignsOf(s.rows, [n]);
    assert ms == [AssignOf(s.rows, n)] && ms[..0] == [];
    ReconnectsSingle(n, v0, v1);
    var kept := EntryUpdate(UNASSIGNED, 2, v1);
    assert [] + [kept] == [kept];
    assert ApplyAll(ForgetIds(c), false, PROTO_3, ms[..0]) == (ForgetIds(c), []);
    assert AssignsOf(c.rows, []) == [] && [kept] + [] == [kept];
    SingleIsLinked(n, v0, 1);
    KeptLeaveAsIs(s, [kept]);
    assert c.rows[n].(id := 0) != s.rows[n];
  }

  lemma ReconnectsSingle(n: Bytes, v0: Value, v1: Value)
    ensures var s, c := Single(n, v0, 1), Single(n, v1, 2);
      ApplyOne(ForgetIds(c), false, PROTO_3, AssignOf(s.rows, n)) == (c, [EntryUpdate(UNASSIGNED, 2, v1)])
  {
    var s, c := Single(n, v0, 1), Single(n, v1, 2);
    var (t, us) := ApplyOne(ForgetIds(c), false, PROTO_3, AssignOf(s.rows, n));
    assert t.rows == c.rows;
    assert t.index == Grow([], 1)[0 := Some(n)] == c.index;
  }
}
