/**
  Where a message ends (Message.cpp, WireDecoder.cpp): a reader takes a message off the stream by looking only at the
  message itself, and a message that has not arrived to its last byte is not read at all.
 */
module Framing {
  import opened Basics
  import opened Messages
  import opened Wire

  /** Whatever `was` has read, `now` has read from the same bytes with `more` behind them. */
  ghost predicate Continues<T(!new)>(was: Parse<T>, now: Parse<T>, more: Bytes) {
    was.Done? ==> now == Done(was.value, was.rest + more)
  }

  lemma Behind(s: Bytes, more: Bytes, k: nat)
    requires k <= |s|
    ensures (s + more)[..k] == s[..k] && (s + more)[k..] == s[k..] + more
  {
  }

  lemma NumbersContinue(s: Bytes, more: Bytes)
    ensures Continues(Dec8(s), Dec8(s + more), more) && Continues(Dec16(s), Dec16(s + more), more)
    ensures Continues(Dec32(s), Dec32(s + more), more) && Continues(DecType(s), DecType(s + more), more)
  {
    hide FromWord, FromDoubleWord;
    if |s| >= 1 {
      Behind(s, more, 1);
    }
    if |s| >= 2 {
      Behind(s, more, 2);
    }
    if |s| >= 4 {
      Behind(s, more, 4);
    }
  }

  lemma WordsContinue(s: Bytes, more: Bytes)
    ensures Continues(DecWords(s), DecWords(s + more), more)
  {
    hide Dec16;
    NumbersContinue(s, more);
    if Dec16(s).Done? {
      NumbersContinue(Dec16(s).rest, more);
    }
  }

  lemma {:induction false} UlebContinues(s: Bytes, shift: nat, more: Bytes)
    ensures Continues(ReadUleb(s, shift), ReadUleb(s + more, shift), more)
  {
    hide Group;
    if s != [] {
      Behind(s, more, 1);
      assert (s + more)[0] == s[0];
      UlebContinues(s[1..], shift + 7, more);
    }
  }

  lemma TakeContinues(s: Bytes, n: nat, more: Bytes)
    ensures Continues(Take(s, n), Take(s + more, n), more)
  {
    if n <= |s| {
      Behind(s, more, n);
    }
  }

  lemma StringContinues(rev: nat, s: Bytes, more: Bytes)
    ensures Continues(DecString(rev, s), DecString(rev, s + more), more)
  {
    hide Dec16, ReadUleb, Take;
    NumbersContinue(s, more);
    UlebContinues(s, 0, more);
    var length := ReadLength(rev, s);
    if length.Done? {
      TakeContinues(length.rest, length.value, more);
    }
  }

  lemma {:induction false} StringsContinue(rev: nat, s: Bytes, n: nat, more: Bytes)
    ensures Continues(DecStrings(rev, s, n), DecStrings(rev, s + more, n), more)
  {
    hide DecString;
    if n > 0 {
      StringsContinue(rev, s, n - 1, more);
      var head := DecStrings(rev, s, n - 1);
      if head.Done? {
        StringContinues(rev, head.rest, more);
      }
    }
  }

  lemma ArrayContinues(rev: nat, t: Type, s: Bytes, more: Bytes)
    requires t.BooleanArrayT? || t.DoubleArrayT? || t.StringArrayT?
    ensures Continues(DecValue(rev, t, s), DecValue(rev, t, s + more), more)
  {
    hide Take, DecStrings, DecDoubles, DecBools;
    if s != [] {
      Behind(s, more, 1);
      assert (s + more)[0] == s[0];
      TakeContinues(s[1..], s[0], more);
      TakeContinues(s[1..], 8 * (s[0] as nat), more);
      StringsContinue(rev, s[1..], s[0], more);
    }
  }

  lemma ValueContinues(rev: nat, t: Type, s: Bytes, more: Bytes)
    ensures Continues(DecValue(rev, t, s), DecValue(rev, t, s + more), more)
  {
    hide DecString, FromQuadWord, DecBoolArray, DecDoubleArray, DecStringArray;
    match t
    case BooleanT => NumbersContinue(s, more);
    case DoubleT =>
      if |s| >= 8 {
        Behind(s, more, 8);
      }
    case BooleanArrayT => ArrayContinues(rev, t, s, more);
    case DoubleArrayT => ArrayContinues(rev, t, s, more);
    case StringArrayT => ArrayContinues(rev, t, s, more);
    case _ => StringContinues(rev, s, more);
  }

  lemma AssignTailContinues(rev: nat, name: Bytes, type_: Type, id: nat, seqNum: nat, s: Bytes, more: Bytes)
    requires id < 0x1_0000 && seqNum < 0x1_0000
    ensures Continues(DecAssignTail(rev, name, type_, id, seqNum, s), DecAssignTail(rev, name, type_, id, seqNum, s + more), more)
  {
    hide Dec8, DecValue;
    NumbersContinue(s, more);
    if rev < REV3 {
      ValueContinues(rev, type_, s, more);
    } else if Dec8(s).Done? {
      ValueContinues(rev, type_, Dec8(s).rest, more);
    }
  }

  lemma AssignBodyContinues(rev: nat, name: Bytes, type_: Type, s: Bytes, more: Bytes)
    ensures Continues(DecAssignBody(rev, name, type_, s), DecAssignBody(rev, name, type_, s + more), more)
  {
    hide DecWords, DecAssignTail;
    WordsContinue(s, more);
    if DecWords(s).Done? {
      var words := DecWords(s).value;
      AssignTailContinues(rev, name, type_, words.0, words.1, DecWords(s).rest, more);
    }
  }

  lemma AssignContinues(rev: nat, s: Bytes, more: Bytes)
    ensures Continues(DecAssign(rev, s), DecAssign(rev, s + more), more)
  {
    hide DecString, DecType, DecAssignBody;
    StringContinues(rev, s, more);
    var name := DecString(rev, s);
    if name.Done? {
      NumbersContinue(name.rest, more);
      var type_ := DecType(name.rest);
      if type_.Done? {
        AssignBodyContinues(rev, name.value, type_.value, type_.rest, more);
      }
    }
  }

  lemma UpdateTailContinues(rev: nat, types: EntryTypes, id: nat, seqNum: nat, s: Bytes, more: Bytes)
    requires id < 0x1_0000 && seqNum < 0x1_0000
    ensures Continues(DecUpdateTail(rev, types, id, seqNum, s), DecUpdateTail(rev, types, id, seqNum, s + more), more)
  {
    hide DecType, DecValue;
    NumbersContinue(s, more);
    var type_ := UpdateType(rev, types, id, s);
    if type_.Done? {
      ValueContinues(rev, type_.value, type_.rest, more);
    }
  }

  lemma UpdateContinues(rev: nat, types: EntryTypes, s: Bytes, more: Bytes)
    ensures Continues(DecUpdate(rev, types, s), DecUpdate(rev, types, s + more), more)
  {
    hide DecWords, DecUpdateTail;
    WordsContinue(s, more);
    if DecWords(s).Done? {
      var words := DecWords(s).value;
      UpdateTailContinues(rev, types, words.0, words.1, DecWords(s).rest, more);
    }
  }

  lemma HellosContinue(rev: nat, s: Bytes, more: Bytes)
    ensures Continues(DecClientHello(rev, s), DecClientHello(rev, s + more), more)
    ensures Continues(DecServerHello(rev, s), DecServerHello(rev, s + more), more)
  {
    hide Dec16, Dec8, DecString;
    NumbersContinue(s, more);
    if Dec16(s).Done? {
      StringContinues(rev, Dec16(s).rest, more);
    }
    if Dec8(s).Done? {
      StringContinues(rev, Dec8(s).rest, more);
    }
  }

  lemma NotesContinue(rev: nat, s: Bytes, more: Bytes)
    ensures Continues(DecFlags(rev, s), DecFlags(rev, s + more), more)
    ensures Continues(DecDelete(rev, s), DecDelete(rev, s + more), more)
    ensures Continues(DecClear(rev, s), DecClear(rev, s + more), more)
  {
    hide Dec16, Dec8, Dec32;
    NumbersContinue(s, more);
    if Dec16(s).Done? {
      NumbersContinue(Dec16(s).rest, more);
    }
  }

  lemma RpcContinues(rev: nat, s: Bytes, more: Bytes)
    ensures Continues(DecRpc(rev, s), DecRpc(rev, s + more), more)
  {
    hide DecWords, DecString;
    WordsContinue(s, more);
    if DecWords(s).Done? {
      StringContinues(rev, DecWords(s).rest, more);
    }
  }

  lemma TaggedContinues(rev: nat, types: EntryTypes, tag: byte, t: Bytes, more: Bytes)
    ensures Continues(DecTagged(rev, types, tag, t), DecTagged(rev, types, tag, t + more), more)
  {
    hide Dec16, DecClientHello, DecServerHello, DecFlags, DecDelete, DecClear, DecRpc, DecAssign, DecUpdate;
    NumbersContinue(t, more);
    HellosContinue(rev, t, more);
    NotesContinue(rev, t, more);
    RpcContinues(rev, t, more);
    AssignContinues(rev, t, more);
    UpdateContinues(rev, types, t, more);
  }

  /** What has been read as a message is read so whatever follows it, and all that follows is left: from any bytes, not
      only from those this library writes. */
  lemma MessageContinues(rev: nat, types: EntryTypes, s: Bytes, more: Bytes)
    ensures var was := DecMessage(rev, types, s);
      was.Done? ==> DecMessage(rev, types, s + more) == Done(was.value, was.rest + more)
  {
    hide DecTagged;
    if s != [] {
      Behind(s, more, 1);
      assert (s + more)[0] == s[0];
      TaggedContinues(rev, types, s[0], s[1..], more);
    }
  }

  /** No part of a written message short of the whole is read as a message. */
  lemma CutShort(rev: nat, types: EntryTypes, m: Message, k: nat)
    requires rev < 0x1_0000 && Sendable(rev, types, m) && k < |EncMessage(rev, m)|
    ensures DecMessage(rev, types, EncMessage(rev, m)[..k]) == Fail
  {
    hide DecMessage, EncMessage, Received, Sendable;
    var s := EncMessage(rev, m);
    MessageContinues(rev, types, s[..k], s[k..]);
    assert s[..k] + s[k..] == s == s + [];
    MessageBack(rev, types, m, []);
  }
}
