/** The encoder object (WireEncoder.h, WireEncoder.cpp, leb128.cpp) and `Message::Write` (Message.cpp). */
module Encoding {
  import opened Basics
  import opened Serials
  import opened Messages
  import opened Wire

  /** SizeUleb128: the number of bytes WriteUleb128 would write. */
  method SizeUleb128(val: nat) returns (count: nat)
    ensures count == |Uleb(val)|
  {
    var v := val;
    count := 0;
    while true
      invariant count + |Uleb(v)| == |Uleb(val)|
      decreases v
    {
      v := v / 0x80;
      count := count + 1;
      if v == 0 {
        break;
      }
    }
  }

  lemma DoubleWordBytes(n: nat)
    ensures DoubleWord(n) == [n / 0x100_0000 % 0x100, n / 0x1_0000 % 0x100, n / 0x100 % 0x100, n % 0x100]
  {
    assert n / 0x1_0000 / 0x100 == n / 0x100_0000;
  }

  /** The bytes of a 64-bit pattern, by their shifts. */
  lemma QuadWordBytes(n: Bits64)
    ensures QuadWord(n) == [n / 0x100_0000_0000_0000 % 0x100, n / 0x1_0000_0000_0000 % 0x100,
                            n / 0x100_0000_0000 % 0x100, n / 0x1_0000_0000 % 0x100,
                            n / 0x100_0000 % 0x100, n / 0x1_0000 % 0x100, n / 0x100 % 0x100, n % 0x100]
  {
    DoubleWordBytes(n / 0x1_0000_0000);
    DoubleWordBytes(n);
    Shifts(n);
  }

  lemma Shifts(n: nat)
    ensures n / 0x1_0000_0000 / 0x100_0000 == n / 0x100_0000_0000_0000
    ensures n / 0x1_0000_0000 / 0x1_0000 == n / 0x1_0000_0000_0000
    ensures n / 0x1_0000_0000 / 0x100 == n / 0x100_0000_0000
  {
  }

  // Appending piece by piece appends the pieces joined.

  lemma Join2(d: Bytes, a: Bytes, b: Bytes)
    ensures d + a + b == d + (a + b)
  {
  }

  lemma Join3(d: Bytes, a: Bytes, b: Bytes, c: Bytes)
    ensures d + a + b + c == d + (a + (b + c))
  {
    Join2(d + a, b, c);
    Join2(d, a, b + c);
  }

  lemma Join4(d: Bytes, a: Bytes, b: Bytes, c: Bytes, e: Bytes)
    ensures d + a + b + c + e == d + (a + (b + (c + e)))
  {
    Join2(d + a + b, c, e);
    Join3(d, a, b, c + e);
  }

  lemma JoinHead(d: Bytes, a: Bytes, b: Bytes, c: Bytes, e: Bytes)
    ensures d + (a + (b + c)) + e == d + (a + (b + (c + e)))
  {
    Join2(d, a + (b + c), e);
    Join2(a, b + c, e);
    Join2(b, c, e);
    Join2(a, b, c + e);
  }

  lemma NextDouble(v: seq<Bits64>, i: nat, base: Bytes)
    requires i < |v|
    ensures base + EncDoubles(v[..i]) + QuadWord(v[i]) == base + EncDoubles(v[..i + 1])
  {
    assert v[..i + 1][..i] == v[..i];
    Join2(base, EncDoubles(v[..i]), QuadWord(v[i]));
  }

  lemma NextString(rev: nat, v: seq<Bytes>, i: nat, base: Bytes)
    requires i < |v|
    ensures base + EncStrings(rev, v[..i]) + EncString(rev, v[i]) == base + EncStrings(rev, v[..i + 1])
  {
    assert v[..i + 1][..i] == v[..i];
    Join2(base, EncStrings(rev, v[..i]), EncString(rev, v[i]));
  }

  ghost function StringsLength(rev: nat, v: seq<Bytes>, i: nat): nat
    requires i <= |v|
  {
    |EncStrings(rev, v[..i])|
  }

  lemma NextLength(rev: nat, v: seq<Bytes>, i: nat)
    requires i < |v|
    ensures StringsLength(rev, v, i + 1) == StringsLength(rev, v, i) + |EncString(rev, v[i])|
  {
    assert v[..i + 1][..i] == v[..i];
  }

  class WireEncoder {
    var data: Bytes
    var protoRev: nat
    /** Whether the error indicator is set. */
    var error: bool

    constructor (protoRev: nat)
      ensures data == [] && this.protoRev == protoRev && !error
    {
      data, this.protoRev, error := [], protoRev, false;
    }

    method Write8(val: nat)
      modifies this`data
      ensures data == old(data) + [val % 0x100]
      ensures val < 0x100 ==> data == old(data) + [val]
    {
      data := data + [val % 0x100];
    }

    method Write16(val: nat)
      modifies this`data
      ensures data == old(data) + Word(val)
    {
      data := data + [val / 0x100 % 0x100, val % 0x100];
    }

    method Write32(val: nat)
      modifies this`data
      ensures data == old(data) + DoubleWord(val)
    {
      data := data + [val / 0x100_0000 % 0x100, val / 0x1_0000 % 0x100, val / 0x100 % 0x100, val % 0x100];
    }

    method WriteDouble(v: Bits64)
      modifies this`data
      ensures data == old(data) + QuadWord(v)
    {
      QuadWordBytes(v);
      data := data + [v / 0x100_0000_0000_0000 % 0x100, v / 0x1_0000_0000_0000 % 0x100,
                      v / 0x100_0000_0000 % 0x100, v / 0x1_0000_0000 % 0x100,
                      v / 0x100_0000 % 0x100, v / 0x1_0000 % 0x100, v / 0x100 % 0x100, v % 0x100];
    }

    method WriteUleb128(val: nat) returns (count: nat)
      modifies this`data
      ensures data == old(data) + Uleb(val) && count == |Uleb(val)|
    {
      var v := val;
      count := 0;
      while true
        invariant data + Uleb(v) == old(data) + Uleb(val) && count + |Uleb(v)| == |Uleb(val)|
        decreases v
      {
        ghost var before := v;
        var b := v % 0x80;
        v := v / 0x80;
        if v != 0 {
          b := b + 0x80;
        }
        assert Uleb(before) == if v == 0 then [b] else [b] + Uleb(v);
        assert data + ([b] + Uleb(v)) == data + [b] + Uleb(v);
        data := data + [b];
        count := count + 1;
        if v == 0 {
          break;
        }
      }
    }

    method WriteType(t: Type)
      modifies this`data, this`error
      ensures data == old(data) + EncType(protoRev, t)
      ensures error == (old(error) || Refused(protoRev, t))
    {
      var ch;
      match t {
        case BooleanT => ch := 0x00;
        case DoubleT => ch := 0x01;
        case StringT => ch := 0x02;
        case RawT =>
          if protoRev < REV3 {
            error := true;
            return;
          }
          ch := 0x03;
        case BooleanArrayT => ch := 0x10;
        case DoubleArrayT => ch := 0x11;
        case StringArrayT => ch := 0x12;
        case RpcT =>
          if protoRev < REV3 {
            error := true;
            return;
          }
          ch := 0x20;
      }
      data := data + [ch];
    }

    method GetStringSize(str: Bytes) returns (size: nat)
      ensures size == |EncString(protoRev, str)|
    {
      if protoRev < REV3 {
        var len := |str|;
        if len > 0xffff {
          len := 0xffff;
        }
        return 2 + len;
      }
      size := SizeUleb128(|str|);
      size := size + |str|;
    }

    method WriteString(str: Bytes)
      modifies this`data
      ensures data == old(data) + EncString(protoRev, str)
    {
      var len := |str|;
      ghost var before := data;
      if protoRev < REV3 {
        if len > 0xffff {
          len := 0xffff;
        }
        Write16(len);
        assert str[..len] == Prefix(str, 0xffff);
        Join2(before, Word(len), str[..len]);
      } else {
        var count := WriteUleb128(len);
        assert str[..len] == str;
        Join2(before, Uleb(len), str);
      }
      data := data + str[..len];
    }

    method WriteBools(v: seq<bool>)
      modifies this`data
      ensures data == old(data) + ([|Prefix(v, 0xff)|] + EncBools(Prefix(v, 0xff)))
    {
      var size := |v|;
      if size > 0xff {
        size := 0xff;
      }
      Write8(size);
      ghost var base, p := data, Prefix(v, 0xff);
      for i := 0 to size
        invariant data == base + EncBools(p)[..i]
      {
        Write8(if v[i] then 1 else 0);
        assert EncBools(p)[..i + 1] == EncBools(p)[..i] + [if v[i] then 1 else 0];
      }
    }

    method WriteDoubles(v: seq<Bits64>)
      modifies this`data
      ensures data == old(data) + ([|Prefix(v, 0xff)|] + EncDoubles(Prefix(v, 0xff)))
    {
      var p := Prefix(v, 0xff);
      Write8(|p|);
      ghost var base := data;
      assert base + [] == base;
      for i := 0 to |p|
        invariant data == base + EncDoubles(p[..i])
      {
        WriteDouble(p[i]);
        NextDouble(p, i, base);
      }
      assert p[..|p|] == p;
      Join2(old(data), [|p|], EncDoubles(p));
    }

    method WriteStrings(v: seq<Bytes>)
      modifies this`data
      ensures data == old(data) + ([|Prefix(v, 0xff)|] + EncStrings(protoRev, Prefix(v, 0xff)))
    {
      var p := Prefix(v, 0xff);
      Write8(|p|);
      WriteElements(p);
      Join2(old(data), [|p|], EncStrings(protoRev, p));
    }

    method WriteElements(v: seq<Bytes>)
      modifies this`data
      ensures data == old(data) + EncStrings(protoRev, v)
    {
      assert data + [] == data;
      for i := 0 to |v|
        invariant data == old(data) + EncStrings(protoRev, v[..i])
      {
        WriteString(v[i]);
        NextString(protoRev, v, i, old(data));
      }
      assert v[..|v|] == v;
    }

    method WriteValue(value: Value)
      modifies this`data, this`error
      ensures data == old(data) + EncValue(protoRev, value)
      ensures error == (old(error) || Refused(protoRev, value.Type()))
    {
      match value {
        case Boolean(b) => Write8(if b then 1 else 0);
        case Double(bits) => WriteDouble(bits);
        case String(s) => WriteString(s);
        case Raw(s) =>
          if protoRev < REV3 {
            error := true;
            return;
          }
          WriteString(s);
        case Rpc(s) =>
          if protoRev < REV3 {
            error := true;
            return;
          }
          WriteString(s);
        case BooleanArray(bs) => WriteBools(bs);
        case DoubleArray(ds) => WriteDoubles(ds);
        case StringArray(ss) => WriteStrings(ss);
      }
    }

    /** The size of a value as WriteValue would write it. */
    method GetValueSize(value: Value) returns (size: nat)
      ensures size == |EncValue(protoRev, value)|
    {
      match value {
        case Boolean(_) => return 1;
        case Double(_) => return 8;
        case String(s) => size := GetStringSize(s);
        case Raw(s) =>
          if protoRev < REV3 {
            return 0;
          }
          size := GetStringSize(s);
        case Rpc(s) =>
          if protoRev < REV3 {
            return 0;
          }
          size := GetStringSize(s);
        case BooleanArray(bs) =>
          size := |bs|;
          if size > 0xff {
            size := 0xff;
          }
          size := 1 + size;
        case DoubleArray(ds) =>
          size := |ds|;
          if size > 0xff {
            size := 0xff;
          }
          size := 1 + size * 8;
        case StringArray(ss) => size := StringsSize(ss);
      }
    }

    method StringsSize(ss: seq<Bytes>) returns (len: nat)
      ensures len == 1 + |EncStrings(protoRev, Prefix(ss, 0xff))|
    {
      var p := Prefix(ss, 0xff);
      len := 1;
      for i := 0 to |p|
        invariant len == 1 + StringsLength(protoRev, p, i)
      {
        var n := GetStringSize(p[i]);
        NextLength(protoRev, p, i);
        len := len + n;
      }
      assert p[..|p|] == p;
    }

    /** Message::Write: nothing for the messages revision 2.0 does not have. */
    method WriteMessage(m: Message)
      modifies this`data, this`error
      ensures data == old(data) + EncMessage(protoRev, m)
      ensures error == (old(error) || ((m.EntryAssign? || m.EntryUpdate?) && Refused(protoRev, m.value.Type())))
    {
      match m {
        case KeepAlive => Write8(0x00);
        case ClientHello(_, selfId) => WriteClientHello(selfId);
        case ProtoUnsup(_) =>
          Write8(0x02);
          Write16(protoRev);
        case ServerHelloDone => Write8(0x03);
        case EntryAssign(name, id, seqNum, value, flags) => WriteAssign(name, id, seqNum, value, flags);
        case EntryUpdate(id, seqNum, value) => WriteUpdate(id, seqNum, value);
        case _ =>
          if protoRev >= REV3 {
            WriteNewMessage(m);
          }
      }
    }

    method WriteNewMessage(m: Message)
      requires protoRev >= REV3 && !SentInBoth(m)
      modifies this`data
      ensures data == old(data) + EncMessage(protoRev, m)
    {
      match m {
        case ServerHello(flags, selfId) => WriteServerHello(flags, selfId);
        case ClientHelloDone => Write8(0x05);
        case FlagsUpdate(id, flags) => WriteFlagsUpdate(id, flags);
        case EntryDelete(id) =>
          Write8(0x13);
          Write16(id);
        case ClearEntries =>
          Write8(0x14);
          Write32(CLEAR_ALL_MAGIC);
        case ExecuteRpc(id, uid, params) => WriteRpc(0x20, id, uid, params);
        case RpcResponse(id, uid, results) => WriteRpc(0x21, id, uid, results);
      }
    }

    method WriteServerHello(flags: nat, selfId: Bytes)
      modifies this`data
      ensures data == old(data) + ([0x04] + (Flag(flags) + EncString(protoRev, selfId)))
    {
      Write8(0x04);
      Write8(flags);
      WriteString(selfId);
      Join3(old(data), [0x04], Flag(flags), EncString(protoRev, selfId));
    }

    method WriteFlagsUpdate(id: nat, flags: nat)
      modifies this`data
      ensures data == old(data) + ([0x12] + (Word(id) + Flag(flags)))
    {
      Write8(0x12);
      Write16(id);
      Write8(flags);
      Join3(old(data), [0x12], Word(id), Flag(flags));
    }

    method WriteClientHello(selfId: Bytes)
      modifies this`data
      ensures data == old(data) + EncMessage(protoRev, ClientHello(0, selfId))
    {
      Write8(0x01);
      Write16(protoRev);
      if protoRev < REV3 {
        assert Word(protoRev) + [] == Word(protoRev);
        Join2(old(data), [0x01], Word(protoRev));
        return;
      }
      WriteString(selfId);
      Join3(old(data), [0x01], Word(protoRev), EncString(protoRev, selfId));
    }

    method WriteAssign(name: Bytes, id: nat, seqNum: Serial, value: Value, flags: nat)
      modifies this`data, this`error
      ensures data == old(data) + ([0x10] + EncAssign(protoRev, name, id, seqNum, value, flags))
      ensures error == (old(error) || Refused(protoRev, value.Type()))
    {
      WriteAssignHead(name, value.Type());
      WriteAssignRest(id, seqNum, value, flags);
      JoinHead(old(data), [0x10], EncString(protoRev, name), EncType(protoRev, value.Type()),
               Word(id) + (Word(seqNum) + ((if protoRev < REV3 then [] else Flag(flags)) + EncValue(protoRev, value))));
    }

    method WriteAssignHead(name: Bytes, t: Type)
      modifies this`data, this`error
      ensures data == old(data) + ([0x10] + (EncString(protoRev, name) + EncType(protoRev, t)))
      ensures error == (old(error) || Refused(protoRev, t))
    {
      Write8(0x10);
      WriteString(name);
      WriteType(t);
      Join3(old(data), [0x10], EncString(protoRev, name), EncType(protoRev, t));
    }

    /** The end of an assign: id, sequence number, flags unless revision 2.0, value. */
    method WriteAssignRest(id: nat, seqNum: Serial, value: Value, flags: nat)
      modifies this`data, this`error
      ensures data == old(data) + (Word(id) + (Word(seqNum)
        + ((if protoRev < REV3 then [] else Flag(flags)) + EncValue(protoRev, value))))
      ensures error == (old(error) || Refused(protoRev, value.Type()))
    {
      Write16(id);
      Write16(seqNum);
      ghost var flag := if protoRev < REV3 then [] else Flag(flags);
      if protoRev >= REV3 {
        Write8(flags);
      }
      assert data == old(data) + Word(id) + Word(seqNum) + flag;
      WriteValue(value);
      Join4(old(data), Word(id), Word(seqNum), flag, EncValue(protoRev, value));
    }

    method WriteUpdate(id: nat, seqNum: Serial, value: Value)
      modifies this`data, this`error
      ensures data == old(data) + ([0x11] + EncUpdate(protoRev, id, seqNum, value))
      ensures error == (old(error) || Refused(protoRev, value.Type()))
    {
      Write8(0x11);
      Write16(id);
      Write16(seqNum);
      ghost var before := data;
      WriteTyped(value);
      Join4(old(data), [0x11], Word(id), Word(seqNum), (if protoRev < REV3 then [] else EncType(protoRev, value.Type())) + EncValue(protoRev, value));
    }

    /** The value of an update, after its type unless the revision is 2.0. */
    method WriteTyped(value: Value)
      modifies this`data, this`error
      ensures data == old(data) + ((if protoRev < REV3 then [] else EncType(protoRev, value.Type())) + EncValue(protoRev, value))
      ensures error == (old(error) || Refused(protoRev, value.Type()))
    {
      if protoRev >= REV3 {
        WriteType(value.Type());
        ghost var typed := data;
        WriteValue(value);
        Join2(old(data), EncType(protoRev, value.Type()), EncValue(protoRev, value));
      } else {
        WriteValue(value);
        assert [] + EncValue(protoRev, value) == EncValue(protoRev, value);
      }
    }

    method WriteRpc(tag: byte, id: nat, uid: nat, str: Bytes)
      modifies this`data
      ensures data == old(data) + ([tag] + EncRpc(protoRev, id, uid, str))
    {
      Write8(tag);
      Write16(id);
      Write16(uid);
      WriteString(str);
      Join4(old(data), [tag], Word(id), Word(uid), EncString(protoRev, str));
    }
  }
}
