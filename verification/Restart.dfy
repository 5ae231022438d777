/** From one start of a server to the next: what is saved of a table, printed, read and loaded again. */
module Restart {
  import opened Basics
  import opened Messages
  import opened Serials
  import opened Tables
  import opened TableRuns
  import opened StringTokens
  import opened PersistentFile

  /** The saved pairs in the order of `names`. */
  function Listed(saved: map<Bytes, Value>, names: seq<Bytes>): (r: seq<NamedValue>)
    requires forall n :: n in names ==> n in saved
    ensures |r| == |names| && forall i :: 0 <= i < |r| ==> r[i] == (names[i], saved[names[i]])
  {
    seq(|names|, i requires 0 <= i < |names| => (names[i], saved[names[i]]))
  }

  /** The loop of LoadPersistent that copies the entries into the table. */
  function LoadAll(t: Table, role: Role, es: seq<NamedValue>): Table {
    if es == [] then t
    else
      var last := es[|es| - 1];
      LoadOne(LoadAll(t, role, es[..|es| - 1]), role, last.0, last.1).0
  }

  /** The file can hold all of a table. */
  ghost predicate Savable(lib: DoubleText, saved: map<Bytes, Value>) {
    forall n :: n in saved ==> Holds(lib, (n, saved[n]))
  }

  ghost predicate AllPrinted(lib: DoubleText, saved: map<Bytes, Value>) {
    forall n :: n in saved ==> Printed(lib, saved[n])
  }

  /** An empty server takes the first `k` entries under the ids 0 to k - 1, all of them persistent. */
  ghost predicate Taken(t: Table, saved: map<Bytes, Value>, names: seq<Bytes>, k: nat)
    requires k <= |names|
  {
    && |t.index| == k
    && (forall i :: 0 <= i < k ==> t.index[i] == Some(names[i]) && names[i] in t.rows && t.rows[names[i]].id == i)
    && (forall n :: n in t.rows <==> n in names[..k])
    && (forall n :: n in t.rows ==> n in saved && t.rows[n].value == saved[n] && t.rows[n].flags == 1)
  }

  lemma NothingTaken(saved: map<Bytes, Value>, names: seq<Bytes>)
    ensures Taken(EMPTY, saved, names, 0)
  {
  }

  lemma {:induction false} LoadsAll(role: Role, saved: map<Bytes, Value>, names: seq<Bytes>, k: nat)
    requires role.server && k <= |names| && Lists(names, saved.Keys)
    ensures Taken(LoadAll(EMPTY, role, Listed(saved, names)[..k]), saved, names, k)
    decreases k
  {
    hide LoadOne, Taken;
    if k == 0 {
      NothingTaken(saved, names);
    } else {
      LoadsAll(role, saved, names, k - 1);
      var es := Listed(saved, names);
      assert es[..k][..k - 1] == es[..k - 1];
      LoadsOne(LoadAll(EMPTY, role, es[..k - 1]), role, saved, names, k - 1);
    }
  }

  lemma LoadsOne(t: Table, role: Role, saved: map<Bytes, Value>, names: seq<Bytes>, k: nat)
    requires role.server && k < |names| && Lists(names, saved.Keys) && Taken(t, saved, names, k)
    ensures Taken(LoadOne(t, role, names[k], saved[names[k]]).0, saved, names, k + 1)
  {
    var t' := LoadOne(t, role, names[k], saved[names[k]]).0;
    assert names[k] !in names[..k];
    assert t' == Table(t.rows[names[k] := Row(saved[names[k]], 1, k, Bump(role, 0))], t.index + [Some(names[k])], t.dirty);
    OneMoreTaken(t, t', saved, names, k, Bump(role, 0));
  }

  lemma OneMoreTaken(t: Table, t': Table, saved: map<Bytes, Value>, names: seq<Bytes>, k: nat, seqNum: Serial)
    requires k < |names| && names[k] in saved && names[k] !in names[..k] && Taken(t, saved, names, k)
    requires t'.rows == t.rows[names[k] := Row(saved[names[k]], 1, k, seqNum)] && t'.index == t.index + [Some(names[k])]
    ensures Taken(t', saved, names, k + 1)
  {
    assert names[..k + 1] == names[..k] + [names[k]];
  }

  lemma TakenIsSaved(t: Table, saved: map<Bytes, Value>, names: seq<Bytes>)
    requires Lists(names, saved.Keys) && |names| <= UNASSIGNED && Taken(t, saved, names, |names|)
    ensures Linked(t) && t.rows.Keys == saved.Keys && PersistentRows(t) == saved
  {
    assert names[..|names|] == names;
    forall n | n in t.rows
      ensures Lookup(t.index, t.rows[n].id) == Some(n)
    {
      var i :| 0 <= i < |names| && names[i] == n;
    }
  }

  // ---------------------------------------------------------------------------------------------
  // What is not held is not restored
  // ---------------------------------------------------------------------------------------------

  /** Whatever an empty server holds after loading was among the entries. */
  lemma {:induction false} HeldWasLoaded(role: Role, es: seq<NamedValue>, n: Bytes)
    ensures var t := LoadAll(EMPTY, role, es); n in t.rows ==> (n, t.rows[n].value) in es
    decreases |es|
  {
    if es != [] {
      HeldWasLoaded(role, es[..|es| - 1], n);
    }
  }

  /** And every entry read from a body is what came back of one that was written. */
  lemma {:induction false} ReadWasWritten(lib: DoubleText, es: seq<NamedValue>, x: NamedValue)
    requires (forall e :: e in es ==> Printed(lib, e.1)) && x in Entries(lib, Body(lib, es))
    ensures exists e :: e in es && OfEntry(lib, e) == [x]
    decreases |es|
  {
    hide OfEntry, Entries, Body;
    if es == [] {
      NothingRead(lib);
    } else {
      FirstEntry(lib, es);
      EntryBack(lib, es[0]);
      if x in OfEntry(lib, es[0]) {
        assert es[0] in es;
      } else {
        ReadWasWritten(lib, es[1..], x);
      }
    }
  }

  lemma NothingRead(lib: DoubleText)
    ensures Entries(lib, Body(lib, [])) == []
  {
  }

  /** A name that does not come back as it was comes back longer, or rid of its quotes. */
  lemma NameMoves(lib: DoubleText, e: NamedValue, x: NamedValue)
    requires Printed(lib, e.1) && OfEntry(lib, e) == [x] && x.0 != e.0
    ensures |x.0| > |e.0| || (|x.0| == |e.0| && QUOTE in e.0 && QUOTE !in x.0)
  {
    hide ReadQuoted, Mangled, ReadType, LTrim, ReadValue, Quoted, ValueText;
    var word, tail := TypeWord(e.1).value, [EQUALS] + ValueText(lib, e.1);
    LineShape(lib, word, e);
    WordBack(lib, e.1, Quoted(e.0) + tail);
    QuotedBack(e.0, tail);
    MangledSame(e.0);
    MangledBare(e.0);
  }

  lemma {:induction false} MangledBare(s: Bytes)
    ensures QUOTE !in Mangled(s) && |Mangled(s)| == |s|
  {
    if s != [] {
      MangledBare(s[1..]);
    }
  }

  /** Every name of `saved` comes back, with its value, from some entry. */
  ghost predicate AllComeBack(lib: DoubleText, saved: map<Bytes, Value>) {
    forall n :: n in saved ==> Source(lib, saved, n)
  }

  ghost predicate Source(lib: DoubleText, saved: map<Bytes, Value>, n: Bytes)
    requires n in saved
  {
    exists m :: m in saved && OfEntry(lib, (m, saved[m])) == [(n, saved[n])]
  }

  /** Then each comes back from its own: a name that came back as another would have to come back from a third, and so on
      through ever shorter names. */
  lemma {:induction false} FromItsOwn(lib: DoubleText, saved: map<Bytes, Value>, m: Bytes, n: Bytes)
    requires AllPrinted(lib, saved) && AllComeBack(lib, saved) && m in saved && n in saved
    requires OfEntry(lib, (m, saved[m])) == [(n, saved[n])]
    ensures m == n
    decreases |n|, if QUOTE in n then 0 else 1
  {
    hide OfEntry;
    if m != n {
      NameMoves(lib, (m, saved[m]), (n, saved[n]));
      assert Source(lib, saved, m);
      var k :| k in saved && OfEntry(lib, (k, saved[k])) == [(m, saved[m])];
      FromItsOwn(lib, saved, k, m);
    }
  }

  lemma RestoredComesBack(lib: DoubleText, role: Role, saved: map<Bytes, Value>, names: seq<Bytes>, n: Bytes)
    requires Lists(names, saved.Keys) && AllPrinted(lib, saved) && n in saved
    requires PersistentRows(LoadAll(EMPTY, role, Entries(lib, Body(lib, Listed(saved, names))))) == saved
    ensures Source(lib, saved, n)
  {
    hide OfEntry, Entries, Body, LoadAll;
    var es := Listed(saved, names);
    HeldWasLoaded(role, Entries(lib, Body(lib, es)), n);
    assert n in PersistentRows(LoadAll(EMPTY, role, Entries(lib, Body(lib, es))));
    ReadWasWritten(lib, es, (n, saved[n]));
    var e :| e in es && OfEntry(lib, e) == [(n, saved[n])];
    assert e.0 in saved && e == (e.0, saved[e.0]);
  }

  lemma RestoredIsSavable(lib: DoubleText, role: Role, saved: map<Bytes, Value>, names: seq<Bytes>)
    requires Lists(names, saved.Keys) && AllPrinted(lib, saved)
    requires PersistentRows(LoadAll(EMPTY, role, Entries(lib, Body(lib, Listed(saved, names))))) == saved
    ensures Savable(lib, saved)
  {
    hide OfEntry, Entries, Body, LoadAll, Holds, PersistentRows, Lists;
    forall n | n in saved
      ensures Source(lib, saved, n)
    {
      RestoredComesBack(lib, role, saved, names, n);
    }
    forall n | n in saved
      ensures Holds(lib, (n, saved[n]))
    {
      assert Source(lib, saved, n);
      var m :| m in saved && OfEntry(lib, (m, saved[m])) == [(n, saved[n])];
      FromItsOwn(lib, saved, m, n);
      EntryBack(lib, (n, saved[n]));
    }
  }

  /** The table that an empty server has after loading the text printed of a snapshot, in whatever order, holds exactly the
      pairs of the snapshot if and only if the format holds every one of them. They are then all persistent, and index and
      entries agree. */
  lemma SavedIsRestored(lib: DoubleText, role: Role, saved: map<Bytes, Value>, names: seq<Bytes>)
    requires role.server && Lists(names, saved.Keys) && |names| <= UNASSIGNED && AllPrinted(lib, saved)
    ensures var loaded := Loaded(lib, Saved(lib, Listed(saved, names)));
      && loaded.Some?
      && var t := LoadAll(EMPTY, role, loaded.value);
         && (PersistentRows(t) == saved <==> Savable(lib, saved))
         && (Savable(lib, saved) ==> Linked(t) && t.rows.Keys == saved.Keys)
  {
    hide Loaded, LoadAll, Holds, Printed, Entries, Body;
    var es := Listed(saved, names);
    forall e | e in es
      ensures Printed(lib, e.1) && (Savable(lib, saved) ==> Holds(lib, e))
    {
      var i :| 0 <= i < |es| && es[i] == e;
      assert names[i] in saved;
    }
    HeaderBack(lib, Body(lib, es));
    if Savable(lib, saved) {
      SaveLoad(lib, es);
      LoadsAll(role, saved, names, |names|);
      assert es[..|names|] == es && names[..|names|] == names;
      TakenIsSaved(LoadAll(EMPTY, role, es), saved, names);
    }
    if PersistentRows(LoadAll(EMPTY, role, Entries(lib, Body(lib, es)))) == saved {
      RestoredIsSavable(lib, role, saved, names);
    }
  }

  /** A server that is started again loses nothing that the format holds: over every run of local writes, incoming messages
      and saves, a clear flag means that a server which loads the text of the last snapshot has the persistent pairs of this
      one, if and only if the format holds them all. */
  lemma CleanRestart(lib: DoubleText, role: Role, t: Table, last: map<Bytes, Value>, es: seq<Event>, names: seq<Bytes>)
    requires role.server && Linked(t) && NoneUnnoticed(es) && |Run(t, es).index| <= UNASSIGNED
    requires !t.dirty ==> PersistentRows(t) == last
    requires !Run(t, es).dirty
    requires var saved := LastSaved(t, last, es); Lists(names, saved.Keys) && |names| <= UNASSIGNED && AllPrinted(lib, saved)
    ensures var loaded := Loaded(lib, Saved(lib, Listed(LastSaved(t, last, es), names)));
      && loaded.Some?
      && (PersistentRows(LoadAll(EMPTY, role, loaded.value)) == PersistentRows(Run(t, es)) <==>
            Savable(lib, PersistentRows(Run(t, es))))
  {
    hide Loaded, Saved, LoadAll, Savable;
    DirtyFlagSound(t, last, es);
    SavedIsRestored(lib, role, LastSaved(t, last, es), names);
  }
}
