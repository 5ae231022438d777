/** The decoder object (WireDecoder.h, WireDecoder.cpp, leb128.cpp) and `Message::Read` (Message.cpp). */
module Decoding {
  import opened Basics
  import opened Serials
  import opened Messages
  import opened Wire

  /** A read that failed, or gave `value` and left `rest`. */
  ghost predicate Gives<T>(p: Parse<T>, ok: bool, value: T, rest: Bytes) {
    ok == p.Done? && (ok ==> p.value == value && p.rest == rest)
  }

  lemma PlusAssoc(a: nat, b: nat, p: Parse<nat>)
    ensures Plus(a, Plus(b, p)) == Plus(a + b, p)
  {
  }

  lemma QuadBytes(s: Bytes)
    requires |s| == 8
    ensures FromQuadWord(s) == ((((((((s[0] as int) * 0x100 + s[1]) * 0x100 + s[2]) * 0x100 + s[3]) * 0x100
                                + s[4]) * 0x100 + s[5]) * 0x100 + s[6]) * 0x100) + s[7]
  {
  }

  class WireDecoder {
    /** What the stream still holds. */
    var rest: Bytes
    const protoRev: nat
    /** Whether the error indicator is set: a read that fails sets it exactly when the stream is not what failed. */
    var error: bool
    /** Whether the stream has run out in the middle of a read. Nothing is read after that. */
    var streamError: bool

    constructor (input: Bytes, protoRev: nat)
      ensures rest == input && this.protoRev == protoRev && !error && !streamError
    {
      rest, this.protoRev, error, streamError := input, protoRev, false, false;
    }

    method Read(len: nat) returns (ok: bool, buf: Bytes)
      requires !streamError
      modifies this`rest, this`streamError
      ensures Gives(Take(old(rest), len), ok, buf, rest) && streamError == !ok
    {
      if len > |rest| {
        streamError := true;
        return false, [];
      }
      ok, buf := true, rest[..len];
      rest := rest[len..];
    }

    method Read8() returns (ok: bool, val: nat)
      requires !streamError
      modifies this`rest, this`streamError
      ensures Gives(Dec8(old(rest)), ok, val, rest) && streamError == !ok && (ok ==> val < 0x100)
    {
      var buf;
      ok, buf := Read(1);
      if !ok {
        return false, 0;
      }
      val := buf[0];
    }

    method Read16() returns (ok: bool, val: Serial)
      requires !streamError
      modifies this`rest, this`streamError
      ensures Gives(Dec16(old(rest)), ok, val, rest) && streamError == !ok
    {
      var buf;
      ok, buf := Read(2);
      if !ok {
        return false, 0;
      }
      var v: nat := buf[0];
      v := v * 0x100;
      v := v + buf[1];
      val := v;
    }

    method Read32() returns (ok: bool, val: nat)
      requires !streamError
      modifies this`rest, this`streamError
      ensures Gives(Dec32(old(rest)), ok, val, rest) && streamError == !ok
    {
      var buf;
      ok, buf := Read(4);
      if !ok {
        return false, 0;
      }
      var v: nat := buf[0];
      v := v * 0x100 + buf[1];
      v := v * 0x100 + buf[2];
      v := v * 0x100 + buf[3];
      val := v;
    }

    /** The static ReadDouble: eight bytes from `buf` at `at`. */
    static method BytesToDouble(buf: Bytes, at: nat) returns (val: Bits64)
      requires at + 8 <= |buf|
      ensures val == FromQuadWord(buf[at..at + 8])
    {
      QuadBytes(buf[at..at + 8]);
      var v: nat := buf[at];
      v := v * 0x100 + buf[at + 1];
      v := v * 0x100 + buf[at + 2];
      v := v * 0x100 + buf[at + 3];
      v := v * 0x100 + buf[at + 4];
      v := v * 0x100 + buf[at + 5];
      v := v * 0x100 + buf[at + 6];
      v := v * 0x100 + buf[at + 7];
      val := v;
    }

    method ReadDouble() returns (ok: bool, val: Value)
      requires !streamError
      modifies this`rest, this`streamError
      ensures Gives(DecDouble(old(rest)), ok, val, rest) && streamError == !ok
    {
      var buf;
      ok, buf := Read(8);
      if !ok {
        return false, Double(0);
      }
      var bits := BytesToDouble(buf, 0);
      assert buf[0..8] == buf;
      val := Double(bits);
    }

    /** Groups of seven bits until one has its top bit clear. */
    method ReadUleb128() returns (ok: bool, val: nat)
      requires !streamError
      modifies this`rest, this`streamError
      ensures Gives(ReadUleb(old(rest), 0), ok, val, rest) && streamError == !ok
    {
      hide Group;
      var result: nat, shift: nat := 0, 0;
      while true
        invariant !streamError && ReadUleb(old(rest), 0) == Plus(result, ReadUleb(rest, shift))
        decreases |rest|
      {
        ghost var before := rest;
        var b;
        ok, b := Read8();
        if !ok {
          return false, 0;
        }
        PlusAssoc(result, Group(b % 0x80, shift), ReadUleb(rest, shift + 7));
        result := result + Group(b % 0x80, shift);
        shift := shift + 7;
        if b < 0x80 {
          return true, result;
        }
      }
    }

    method ReadType() returns (ok: bool, t: Type)
      requires !streamError
      modifies this`rest, this`streamError, this`error
      ensures Gives(DecType(old(rest)), ok, t, rest)
      ensures error == (old(error) || (!ok && !streamError)) && (ok ==> !streamError)
    {
      var itype;
      ok, itype := Read8();
      if !ok {
        return false, BooleanT;
      }
      match itype {
        case 0x00 => t := BooleanT;
        case 0x01 => t := DoubleT;
        case 0x02 => t := StringT;
        case 0x03 => t := RawT;
        case 0x10 => t := BooleanArrayT;
        case 0x11 => t := DoubleArrayT;
        case 0x12 => t := StringArrayT;
        case 0x20 => t := RpcT;
        case _ =>
          error := true;
          return false, BooleanT;
      }
    }

    method ReadString() returns (ok: bool, str: Bytes)
      requires !streamError
      modifies this`rest, this`streamError
      ensures Gives(DecString(protoRev, old(rest)), ok, str, rest) && streamError == !ok
    {
      var len;
      if protoRev < REV3 {
        ok, len := Read16();
      } else {
        ok, len := ReadUleb128();
      }
      if !ok {
        return false, [];
      }
      ok, str := Read(len);
    }

    method ReadText(t: Type) returns (ok: bool, value: Value)
      requires !streamError && (t.StringT? || t.RawT? || t.RpcT?)
      modifies this`rest, this`streamError, this`error
      ensures Gives(DecText(protoRev, t, old(rest)), ok, value, rest)
      ensures error == (old(error) || (!ok && !streamError)) && (ok ==> !streamError)
    {
      if protoRev < REV3 && !t.StringT? {
        error := true;
        return false, Boolean(false);
      }
      var v;
      ok, v := ReadString();
      value := if t.StringT? then String(v) else if t.RawT? then Raw(v) else Rpc(v);
    }

    method ReadBools() returns (ok: bool, value: Value)
      requires !streamError
      modifies this`rest, this`streamError
      ensures Gives(DecBoolArray(old(rest)), ok, value, rest) && streamError == !ok
    {
      var size, buf;
      ok, size := Read8();
      if !ok {
        return false, Boolean(false);
      }
      ok, buf := Read(size);
      if !ok {
        return false, Boolean(false);
      }
      var v := [];
      for i := 0 to size
        invariant v == DecBools(buf)[..i]
      {
        v := v + [buf[i] != 0];
      }
      assert v == DecBools(buf);
      value := BooleanArray(v);
    }

    method ReadDoubles() returns (ok: bool, value: Value)
      requires !streamError
      modifies this`rest, this`streamError
      ensures Gives(DecDoubleArray(old(rest)), ok, value, rest) && streamError == !ok
    {
      var size, buf;
      ok, size := Read8();
      if !ok {
        return false, Boolean(false);
      }
      ok, buf := Read(size * 8);
      if !ok {
        return false, Boolean(false);
      }
      var v := [];
      ghost var after := rest;
      for i := 0 to size
        invariant rest == after && !streamError
        invariant v == DecDoubles(buf[..8 * i])
      {
        var d := BytesToDouble(buf, 8 * i);
        assert buf[..8 * i + 8][..8 * i] == buf[..8 * i] && buf[..8 * i + 8][8 * i..] == buf[8 * i..8 * i + 8];
        v := v + [d];
      }
      assert buf[..8 * size] == buf;
      value := DoubleArray(v);
    }

    method ReadStrings() returns (ok: bool, value: Value)
      requires !streamError
      modifies this`rest, this`streamError
      ensures Gives(DecStringArray(protoRev, old(rest)), ok, value, rest) && streamError == !ok
    {
      var size;
      ok, size := Read8();
      if !ok {
        return false, Boolean(false);
      }
      var v: seq<Bytes> := [];
      ghost var start := rest;
      for i := 0 to size
        invariant !streamError && DecStrings(protoRev, start, i) == Done(v, rest)
      {
        var s;
        ok, s := ReadString();
        if !ok {
          StringsFail(protoRev, start, i + 1, size);
          return false, Boolean(false);
        }
        v := v + [s];
      }
      ok := true;
      value := StringArray(v);
    }

    static lemma {:induction false} StringsFail(rev: nat, s: Bytes, n: nat, m: nat)
      requires n <= m && DecStrings(rev, s, n).Fail?
      ensures DecStrings(rev, s, m).Fail?
    {
      if n < m {
        StringsFail(rev, s, n, m - 1);
      }
    }

    method ReadValue(t: Type) returns (ok: bool, value: Value)
      requires !streamError
      modifies this`rest, this`streamError, this`error
      ensures Gives(DecValue(protoRev, t, old(rest)), ok, value, rest)
      ensures error == (old(error) || (!ok && !streamError)) && (ok ==> !streamError)
    {
      match t {
        case BooleanT =>
          var v;
          ok, v := Read8();
          value := Boolean(v != 0);
        case DoubleT => ok, value := ReadDouble();
        case BooleanArrayT => ok, value := ReadBools();
        case DoubleArrayT => ok, value := ReadDoubles();
        case StringArrayT => ok, value := ReadStrings();
        case _ => ok, value := ReadText(t);
      }
    }

    /** Refuses a message that revision 2.0 does not have. */
    method CheckRev() returns (ok: bool)
      modifies this`error
      ensures ok == (protoRev >= REV3) && error == (old(error) || !ok)
    {
      ok := protoRev >= REV3;
      if !ok {
        error := true;
      }
    }

    method ReadClientHello() returns (ok: bool, m: Message)
      requires !streamError
      modifies this`rest, this`streamError
      ensures Gives(DecClientHello(protoRev, old(rest)), ok, m, rest) && streamError == !ok
    {
      var rev, selfId;
      ok, rev := Read16();
      if !ok {
        return false, KeepAlive;
      }
      if rev < REV3 {
        return true, ClientHello(rev, []);
      }
      ok, selfId := ReadString();
      m := ClientHello(rev, selfId);
    }

    method ReadServerHello() returns (ok: bool, m: Message)
      requires !streamError
      modifies this`rest, this`streamError, this`error
      ensures Gives(DecServerHello(protoRev, old(rest)), ok, m, rest)
      ensures error == (old(error) || (!ok && !streamError)) && (ok ==> !streamError)
    {
      ok := CheckRev();
      if !ok {
        return false, KeepAlive;
      }
      var flags, selfId;
      ok, flags := Read8();
      if !ok {
        return false, KeepAlive;
      }
      ok, selfId := ReadString();
      m := ServerHello(flags, selfId);
    }

    /** The id and sequence number of an assign or update, the id and uid of a call. */
    method ReadWords() returns (ok: bool, words: (Serial, Serial))
      requires !streamError
      modifies this`rest, this`streamError
      ensures Gives(DecWords(old(rest)), ok, words, rest) && streamError == !ok
    {
      var first, second;
      ok, first := Read16();
      if !ok {
        return false, (0, 0);
      }
      ok, second := Read16();
      words := (first, second);
    }

    method ReadAssign() returns (ok: bool, m: Message)
      requires !streamError
      modifies this`rest, this`streamError, this`error
      ensures Gives(DecAssign(protoRev, old(rest)), ok, m, rest)
      ensures error == (old(error) || (!ok && !streamError)) && (ok ==> !streamError)
    {
      var name, t;
      ok, name := ReadString();
      if !ok {
        return false, KeepAlive;
      }
      ok, t := ReadType();
      if !ok {
        return false, KeepAlive;
      }
      ok, m := ReadAssignBody(name, t);
    }

    method ReadAssignBody(name: Bytes, t: Type) returns (ok: bool, m: Message)
      requires !streamError
      modifies this`rest, this`streamError, this`error
      ensures Gives(DecAssignBody(protoRev, name, t, old(rest)), ok, m, rest)
      ensures error == (old(error) || (!ok && !streamError)) && (ok ==> !streamError)
    {
      var words, flags, value;
      ok, words := ReadWords();
      if !ok {
        return false, KeepAlive;
      }
      flags := 0;
      if protoRev >= REV3 {
        ok, flags := Read8();
        if !ok {
          return false, KeepAlive;
        }
      }
      ok, value := ReadValue(t);
      m := EntryAssign(name, words.0, words.1, value, flags);
    }

    method ReadUpdate(types: EntryTypes) returns (ok: bool, m: Message)
      requires !streamError
      modifies this`rest, this`streamError, this`error
      ensures Gives(DecUpdate(protoRev, types, old(rest)), ok, m, rest)
      ensures error == (old(error) || (!ok && !streamError)) && (ok ==> !streamError)
    {
      var words;
      ok, words := ReadWords();
      if !ok {
        return false, KeepAlive;
      }
      ok, m := ReadUpdateTail(types, words.0, words.1);
    }

    method ReadUpdateTail(types: EntryTypes, id: nat, seqNum: Serial) returns (ok: bool, m: Message)
      requires !streamError
      modifies this`rest, this`streamError, this`error
      ensures Gives(DecUpdateTail(protoRev, types, id, seqNum, old(rest)), ok, m, rest)
      ensures error == (old(error) || (!ok && !streamError)) && (ok ==> !streamError)
    {
      var t, value;
      if protoRev >= REV3 {
        ok, t := ReadType();
        if !ok {
          return false, KeepAlive;
        }
      } else {
        var known := types(id);
        if known.None? {
          error := true;
          return false, KeepAlive;
        }
        t := known.value;
      }
      ok, value := ReadValue(t);
      m := EntryUpdate(id, seqNum, value);
    }

    method ReadFlags() returns (ok: bool, m: Message)
      requires !streamError
      modifies this`rest, this`streamError, this`error
      ensures Gives(DecFlags(protoRev, old(rest)), ok, m, rest)
      ensures error == (old(error) || (!ok && !streamError)) && (ok ==> !streamError)
    {
      ok := CheckRev();
      if !ok {
        return false, KeepAlive;
      }
      var id, flags;
      ok, id := Read16();
      if !ok {
        return false, KeepAlive;
      }
      ok, flags := Read8();
      m := FlagsUpdate(id, flags);
    }

    method ReadDelete() returns (ok: bool, m: Message)
      requires !streamError
      modifies this`rest, this`streamError, this`error
      ensures Gives(DecDelete(protoRev, old(rest)), ok, m, rest)
      ensures error == (old(error) || (!ok && !streamError)) && (ok ==> !streamError)
    {
      ok := CheckRev();
      if !ok {
        return false, KeepAlive;
      }
      var id;
      ok, id := Read16();
      m := EntryDelete(id);
    }

    method ReadClear() returns (ok: bool, m: Message)
      requires !streamError
      modifies this`rest, this`streamError, this`error
      ensures Gives(DecClear(protoRev, old(rest)), ok, m, rest)
      ensures error == (old(error) || (!ok && !streamError)) && (ok ==> !streamError)
    {
      ok := CheckRev();
      if !ok {
        return false, KeepAlive;
      }
      var magic;
      ok, magic := Read32();
      if ok && magic != CLEAR_ALL_MAGIC {
        error := true;
        ok := false;
      }
      m := ClearEntries;
    }

    method ReadRpc() returns (ok: bool, r: (nat, nat, Bytes))
      requires !streamError
      modifies this`rest, this`streamError, this`error
      ensures Gives(DecRpc(protoRev, old(rest)), ok, r, rest)
      ensures error == (old(error) || (!ok && !streamError)) && (ok ==> !streamError)
    {
      ok := CheckRev();
      if !ok {
        return false, (0, 0, []);
      }
      var words, size, data;
      ok, words := ReadWords();
      if !ok {
        return false, (0, 0, []);
      }
      ok, size := ReadUleb128();
      if !ok {
        return false, (0, 0, []);
      }
      ok, data := Read(size);
      r := (words.0, words.1, data);
    }

    /** Message::Read. When it fails, `m` means nothing. */
    method ReadMessage(types: EntryTypes) returns (ok: bool, m: Message)
      requires !streamError
      modifies this`rest, this`streamError, this`error
      ensures Gives(DecMessage(protoRev, types, old(rest)), ok, m, rest)
      ensures error == (old(error) || (!ok && !streamError)) && (ok ==> !streamError)
    {
      var tag;
      ok, tag := Read8();
      if !ok {
        return false, KeepAlive;
      }
      ok, m := ReadTagged(types, tag);
    }

    method ReadTagged(types: EntryTypes, tag: byte) returns (ok: bool, m: Message)
      requires !streamError
      modifies this`rest, this`streamError, this`error
      ensures Gives(DecTagged(protoRev, types, tag, old(rest)), ok, m, rest)
      ensures error == (old(error) || (!ok && !streamError)) && (ok ==> !streamError)
    {
      match tag {
        case 0x00 => return true, KeepAlive;
        case 0x01 => ok, m := ReadClientHello();
        case 0x02 =>
          var rev;
          ok, rev := Read16();
          m := ProtoUnsup(rev);
        case 0x03 => return true, ServerHelloDone;
        case 0x04 => ok, m := ReadServerHello();
        case 0x05 =>
          ok := CheckRev();
          m := ClientHelloDone;
        case 0x10 => ok, m := ReadAssign();
        case 0x11 => ok, m := ReadUpdate(types);
        case 0x12 => ok, m := ReadFlags();
        case 0x13 => ok, m := ReadDelete();
        case 0x14 => ok, m := ReadClear();
        case 0x20 =>
          var r;
          ok, r := ReadRpc();
          m := ExecuteRpc(r.0, r.1, r.2);
        case 0x21 =>
          var r;
          ok, r := ReadRpc();
          m := RpcResponse(r.0, r.1, r.2);
        case _ =>
          error := true;
          return false, KeepAlive;
      }
    }
  }
}
