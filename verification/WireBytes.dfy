/**
  The bytes of the wire as the other programs know them: every type, value and message of both revisions, written out
  byte by byte, and what a reader makes of those bytes.
 */
module WireBytes {
  import opened Basics
  import opened Serials
  import opened Messages
  import opened Wire
  import opened Probing

  /** The type bytes. Raw values and RPC definitions have none in revision 2.0. */
  lemma TypeBytes(rev: nat)
    ensures EncType(rev, BooleanT) == [0x00] && EncType(rev, DoubleT) == [0x01] && EncType(rev, StringT) == [0x02]
    ensures EncType(rev, BooleanArrayT) == [0x10] && EncType(rev, DoubleArrayT) == [0x11] && EncType(rev, StringArrayT) == [0x12]
    ensures EncType(rev, RawT) == if rev < 0x0300 then [] else [0x03]
    ensures EncType(rev, RpcT) == if rev < 0x0300 then [] else [0x20]
  {
  }

  /** The type a reader of either revision makes of its first byte; any other byte is an error. */
  lemma TypeRead(b: byte, rest: Bytes)
    ensures b == 0x00 ==> DecType([b] + rest) == Done(BooleanT, rest)
    ensures b == 0x01 ==> DecType([b] + rest) == Done(DoubleT, rest)
    ensures b == 0x02 ==> DecType([b] + rest) == Done(StringT, rest)
    ensures b == 0x03 ==> DecType([b] + rest) == Done(RawT, rest)
    ensures b == 0x10 ==> DecType([b] + rest) == Done(BooleanArrayT, rest)
    ensures b == 0x11 ==> DecType([b] + rest) == Done(DoubleArrayT, rest)
    ensures b == 0x12 ==> DecType([b] + rest) == Done(StringArrayT, rest)
    ensures b == 0x20 ==> DecType([b] + rest) == Done(RpcT, rest)
    ensures b !in [0x00, 0x01, 0x02, 0x03, 0x10, 0x11, 0x12, 0x20] ==> DecType([b] + rest) == Fail
    ensures DecType([]) == Fail
  {
    assert ([b] + rest)[0] == b && ([b] + rest)[1..] == rest;
  }

  // ---------------------------------------------------------------------------------------------
  // Numbers
  // ---------------------------------------------------------------------------------------------

  function Two(a: byte, b: byte): (n: nat)
    ensures n < 0x1_0000
  {
    a * 0x100 + b
  }

  function Four(a: byte, b: byte, c: byte, d: byte): (n: nat)
    ensures n < 0x1_0000_0000
  {
    Two(a, b) * 0x1_0000 + Two(c, d)
  }

  /** Most significant byte first. */
  lemma WordBytes(a: byte, b: byte)
    ensures Word(Two(a, b)) == [a, b] && FromWord([a, b]) == Two(a, b)
  {
  }

  lemma DoubleWordBytes(a: byte, b: byte, c: byte, d: byte)
    ensures DoubleWord(Four(a, b, c, d)) == [a, b, c, d] && FromDoubleWord([a, b, c, d]) == Four(a, b, c, d)
  {
    hide Two, Word, FromWord;
    WordBytes(a, b);
    WordBytes(c, d);
    LowerWord(Two(a, b), Two(c, d));
    Split([a, b], [c, d]);
    assert [a, b, c, d] == [a, b] + [c, d];
  }

  /** A word has only the last two bytes of a number. */
  lemma LowerWord(hi: nat, lo: nat)
    requires lo < 0x1_0000
    ensures (hi * 0x1_0000 + lo) / 0x1_0000 == hi && Word(hi * 0x1_0000 + lo) == Word(lo)
  {
    var n, q, r := hi * 0x1_0000 + lo, lo / 0x100, lo % 0x100;
    assert lo == q * 0x100 + r;
    Remainder(n, 0x1_0000, hi, lo);
    Remainder(n, 0x100, hi * 0x100 + q, r);
    Remainder(hi * 0x100 + q, 0x100, hi, q);
    Remainder(q, 0x100, 0, q);
  }

  /** The eight bytes of a double: the sign and the exponent come first. */
  lemma DoubleBytes(a: byte, b: byte, c: byte, d: byte, e: byte, f: byte, g: byte, h: byte)
    ensures var n := Four(a, b, c, d) * 0x1_0000_0000 + Four(e, f, g, h);
      && n < 0x1_0000_0000_0000_0000
      && QuadWord(n) == [a, b, c, d, e, f, g, h] && FromQuadWord([a, b, c, d, e, f, g, h]) == n
  {
    var hi, lo := Four(a, b, c, d), Four(e, f, g, h);
    var n := hi * 0x1_0000_0000 + lo;
    LowerHalf(hi, lo);
    DoubleWordBytes(a, b, c, d);
    DoubleWordBytes(e, f, g, h);
    assert [a, b, c, d, e, f, g, h][..4] == [a, b, c, d] && [a, b, c, d, e, f, g, h][4..] == [e, f, g, h];
  }

  lemma LowerHalf(hi: nat, lo: nat)
    requires lo < 0x1_0000_0000
    ensures (hi * 0x1_0000_0000 + lo) / 0x1_0000_0000 == hi
    ensures DoubleWord(hi * 0x1_0000_0000 + lo) == DoubleWord(lo)
  {
    var n, q, r := hi * 0x1_0000_0000 + lo, lo / 0x1_0000, lo % 0x1_0000;
    Remainder(n, 0x1_0000_0000, hi, lo);
    Remainder(n, 0x1_0000, hi * 0x1_0000 + q, r);
    LowerWord(hi * 0x1_0000 + q, r);
    LowerWord(hi, q);
    LowerWord(q, r);
    assert n == (hi * 0x1_0000 + q) * 0x1_0000 + r && lo == q * 0x1_0000 + r;
  }

  /** A length in revision 3.0: seven bits a byte, the lowest first, and the top bit on all but the last. */
  lemma LengthBytes(n: nat, rest: Bytes)
    ensures n < 0x80 ==> Uleb(n) == [n] && ReadUleb([n] + rest, 0) == Done(n, rest)
    ensures 0x80 <= n < 0x4000 ==>
      Uleb(n) == [0x80 + n % 0x80, n / 0x80] && ReadUleb([0x80 + n % 0x80, n / 0x80] + rest, 0) == Done(n, rest)
  {
    hide ReadUleb;
    if n < 0x4000 {
      UlebBack(n, rest);
    }
    if 0x80 <= n < 0x4000 {
      TwoGroups(n % 0x80 + 0x80, n / 0x80, n);
    }
  }

  lemma TwoGroups(first: nat, last: nat, n: nat)
    requires 0x80 <= n < 0x4000 && first == n % 0x80 + 0x80 && last == n / 0x80
    ensures Uleb(n) == [first, last]
  {
    assert Uleb(last) == [last];
  }

  /** The example of section 7.6 of DWARF 3, and the two bytes of 300. */
  lemma LengthExamples()
    ensures Uleb(624485) == [0xe5, 0x8e, 0x26] && ReadUleb([0xe5, 0x8e, 0x26], 0) == Done(624485, [])
    ensures Uleb(300) == [0xac, 0x02] && Uleb(0) == [0x00]
  {
    assert Uleb(38) == [0x26];
    assert Uleb(4878) == [0x8e, 0x26];
    assert [0xe5, 0x8e, 0x26] + [] == [0xe5, 0x8e, 0x26];
    UlebBack(624485, []);
  }

  // ---------------------------------------------------------------------------------------------
  // Values
  // ---------------------------------------------------------------------------------------------

  /** What stands before the bytes of a string. */
  lemma StringBytes(s: Bytes)
    ensures |s| < 0x80 ==> EncString(0x0300, s) == [|s|] + s
    ensures 0x80 <= |s| < 0x4000 ==> EncString(0x0300, s) == [0x80 + |s| % 0x80, |s| / 0x80] + s
    ensures |s| < 0x1_0000 ==> EncString(0x0200, s) == [|s| / 0x100, |s| % 0x100] + s
    ensures |s| >= 0x1_0000 ==> EncString(0x0200, s) == [0xff, 0xff] + s[..0xffff]
  {
    LengthBytes(|s|, []);
    if |s| < 0x1_0000 {
      assert |s| / 0x100 % 0x100 == |s| / 0x100;
    }
  }

  lemma SimpleValueBytes(rev: nat, b: bool, bits: Bits64)
    ensures EncValue(rev, Boolean(b)) == [if b then 0x01 else 0x00]
    ensures EncValue(rev, Double(bits)) == QuadWord(bits)
  {
  }

  /** Texts, raw bytes and RPC definitions look alike; revision 2.0 writes nothing for the last two. */
  lemma TextBytes(s: Bytes)
    requires |s| < 0x80
    ensures EncValue(0x0300, String(s)) == EncValue(0x0300, Raw(s)) == EncValue(0x0300, Rpc(s)) == [|s|] + s
    ensures EncValue(0x0200, String(s)) == [0x00, |s|] + s && EncValue(0x0200, Raw(s)) == EncValue(0x0200, Rpc(s)) == []
  {
    StringBytes(s);
  }

  lemma ArrayBytes(rev: nat, x: bool, y: bool, d: Bits64, e: Bits64)
    ensures EncValue(rev, BooleanArray([x, y])) == [0x02, if x then 0x01 else 0x00, if y then 0x01 else 0x00]
    ensures EncValue(rev, DoubleArray([d, e])) == [0x02] + (QuadWord(d) + QuadWord(e))
    ensures EncValue(rev, BooleanArray([])) == EncValue(rev, DoubleArray([])) == EncValue(rev, StringArray([])) == [0x00]
  {
    hide QuadWord, EncDoubles;
    assert EncBools([x, y]) == [if x then 1 else 0, if y then 1 else 0];
    TwoDoubles(d, e);
    NoElements(rev);
  }

  lemma NoElements(rev: nat)
    ensures EncBools([]) == EncDoubles([]) == EncStrings(rev, []) == []
  {
  }

  lemma TwoDoubles(d: Bits64, e: Bits64)
    ensures EncDoubles([d, e]) == QuadWord(d) + QuadWord(e)
  {
    hide QuadWord;
    assert [d, e][..1] == [d] && [d][..0] == [];
    assert EncDoubles([d]) == [] + QuadWord(d);
  }

  lemma StringArrayBytes(s: Bytes, t: Bytes)
    requires |s| < 0x80 && |t| < 0x80
    ensures EncValue(0x0300, StringArray([s, t])) == [0x02] + (([|s|] + s) + ([|t|] + t))
    ensures EncValue(0x0200, StringArray([s, t])) == [0x02] + (([0x00, |s|] + s) + ([0x00, |t|] + t))
  {
    hide EncString, EncStrings;
    StringBytes(s);
    StringBytes(t);
    TwoStrings(0x0300, s, t);
    TwoStrings(0x0200, s, t);
  }

  lemma TwoStrings(rev: nat, s: Bytes, t: Bytes)
    ensures EncStrings(rev, [s, t]) == EncString(rev, s) + EncString(rev, t)
  {
    hide EncString;
    assert [s, t][..1] == [s] && [s][..0] == [];
    assert EncStrings(rev, [s]) == [] + EncString(rev, s);
  }

  // ---------------------------------------------------------------------------------------------
  // Messages
  // ---------------------------------------------------------------------------------------------

  /** The messages with nothing or only numbers in them. What is missing from revision 2.0 is not written at all. */
  lemma PlainMessages(a: byte, b: byte, flags: byte, rev: nat)
    ensures EncMessage(rev, KeepAlive) == [0x00] && EncMessage(rev, ServerHelloDone) == [0x03]
    ensures rev == 0x0300 ==>
      && EncMessage(rev, ProtoUnsup(0)) == [0x02, 0x03, 0x00]
      && EncMessage(rev, ClientHelloDone) == [0x05]
      && EncMessage(rev, FlagsUpdate(Two(a, b), flags)) == [0x12, a, b, flags]
      && EncMessage(rev, EntryDelete(Two(a, b))) == [0x13, a, b]
      && EncMessage(rev, ClearEntries) == [0x14, 0xD0, 0x6C, 0xB2, 0x7A]
    ensures rev == 0x0200 ==>
      && EncMessage(rev, ProtoUnsup(0)) == [0x02, 0x02, 0x00]
      && EncMessage(rev, ClientHelloDone) == EncMessage(rev, FlagsUpdate(Two(a, b), flags)) == []
      && EncMessage(rev, EntryDelete(Two(a, b))) == EncMessage(rev, ClearEntries) == []
  {
    WordBytes(a, b);
    WordBytes(0x03, 0x00);
    WordBytes(0x02, 0x00);
    DoubleWordBytes(0xD0, 0x6C, 0xB2, 0x7A);
  }

  lemma HelloMessages(selfId: Bytes, flags: byte)
    requires |selfId| < 0x80
    ensures EncMessage(0x0300, ClientHello(0, selfId)) == [0x01, 0x03, 0x00, |selfId|] + selfId
    ensures EncMessage(0x0200, ClientHello(0, selfId)) == [0x01, 0x02, 0x00]
    ensures EncMessage(0x0300, ServerHello(flags, selfId)) == [0x04, flags, |selfId|] + selfId
    ensures EncMessage(0x0200, ServerHello(flags, selfId)) == []
  {
    StringBytes(selfId);
    WordBytes(0x03, 0x00);
    WordBytes(0x02, 0x00);
  }

  lemma RpcMessages(a: byte, b: byte, c: byte, d: byte, data: Bytes)
    requires |data| < 0x80
    ensures EncMessage(0x0300, ExecuteRpc(Two(a, b), Two(c, d), data)) == [0x20, a, b, c, d, |data|] + data
    ensures EncMessage(0x0300, RpcResponse(Two(a, b), Two(c, d), data)) == [0x21, a, b, c, d, |data|] + data
    ensures EncMessage(0x0200, ExecuteRpc(Two(a, b), Two(c, d), data)) == []
    ensures EncMessage(0x0200, RpcResponse(Two(a, b), Two(c, d), data)) == []
  {
    StringBytes(data);
    WordBytes(a, b);
    WordBytes(c, d);
  }

  /** An assignment: name, type, id, sequence number, in revision 3.0 the flags, and the value. */
  lemma AssignMessage(name: Bytes, a: byte, b: byte, c: byte, d: byte, flags: byte, v: Value)
    requires |name| < 0x80
    ensures EncMessage(0x0300, EntryAssign(name, Two(a, b), Two(c, d), v, flags))
         == [0x10, |name|] + name + EncType(0x0300, v.Type()) + [a, b, c, d, flags] + EncValue(0x0300, v)
    ensures EncMessage(0x0200, EntryAssign(name, Two(a, b), Two(c, d), v, flags))
         == [0x10, 0x00, |name|] + name + EncType(0x0200, v.Type()) + [a, b, c, d] + EncValue(0x0200, v)
  {
    hide EncString, Word, EncType, EncValue;
    StringBytes(name);
    WordBytes(a, b);
    WordBytes(c, d);
    Six([0x10], [|name|], name, EncType(0x0300, v.Type()), [a, b], [c, d], [flags], EncValue(0x0300, v));
    Six([0x10], [0x00, |name|], name, EncType(0x0200, v.Type()), [a, b], [c, d], [], EncValue(0x0200, v));
  }

  lemma Six(tag: Bytes, length: Bytes, name: Bytes, t: Bytes, id: Bytes, seqNum: Bytes, flags: Bytes, v: Bytes)
    ensures tag + (length + name + (t + (id + (seqNum + (flags + v)))))
         == (tag + length) + name + t + (id + seqNum + flags) + v
  {
  }

  /** Such as the request of a client for the id of a new entry: it has 0xff 0xff for the id. */
  lemma RequestMessage(name: Bytes, x: bool)
    requires |name| < 0x80
    ensures EncMessage(0x0300, EntryAssign(name, UNASSIGNED, 0, Boolean(x), 0))
         == [0x10, |name|] + name + [0x00, 0xff, 0xff, 0x00, 0x00, 0x00, if x then 0x01 else 0x00]
    ensures EncMessage(0x0200, EntryAssign(name, UNASSIGNED, 0, Boolean(x), 0))
         == [0x10, 0x00, |name|] + name + [0x00, 0xff, 0xff, 0x00, 0x00, if x then 0x01 else 0x00]
  {
    hide EncMessage;
    AssignMessage(name, 0xff, 0xff, 0, 0, 0, Boolean(x));
    var v := [if x then 0x01 else 0x00];
    assert [0x10, |name|] + name + [0x00] + [0xff, 0xff, 0, 0, 0] + v == [0x10, |name|] + name + ([0x00] + [0xff, 0xff, 0, 0, 0] + v);
    assert [0x10, 0x00, |name|] + name + [0x00] + [0xff, 0xff, 0, 0] + v
        == [0x10, 0x00, |name|] + name + ([0x00] + [0xff, 0xff, 0, 0] + v);
  }

  /** An update: id, sequence number, in revision 3.0 the type, and the value. */
  lemma UpdateMessage(a: byte, b: byte, c: byte, d: byte, v: Value)
    ensures EncMessage(0x0300, EntryUpdate(Two(a, b), Two(c, d), v))
         == [0x11, a, b, c, d] + EncType(0x0300, v.Type()) + EncValue(0x0300, v)
    ensures EncMessage(0x0200, EntryUpdate(Two(a, b), Two(c, d), v)) == [0x11, a, b, c, d] + EncValue(0x0200, v)
  {
    hide Word, EncType, EncValue;
    WordBytes(a, b);
    WordBytes(c, d);
  }

  // ---------------------------------------------------------------------------------------------
  // What a reader makes of the bytes
  // ---------------------------------------------------------------------------------------------

  lemma OneMore(tag: byte, t: Bytes)
    ensures ([tag] + t)[0] == tag && ([tag] + t)[1..] == t
  {
  }

  lemma WordRead(a: byte, b: byte, rest: Bytes)
    ensures Dec16([a, b] + rest) == Done(Two(a, b), rest)
  {
    Split([a, b], rest);
    WordBytes(a, b);
  }

  /** The first byte of a message decides what it is. Revision 2.0 knows six of them. */
  lemma MessageRead(rev: nat, types: EntryTypes, tag: byte, t: Bytes)
    ensures tag == 0x00 ==> DecMessage(rev, types, [tag] + t) == Done(KeepAlive, t)
    ensures tag == 0x03 ==> DecMessage(rev, types, [tag] + t) == Done(ServerHelloDone, t)
    ensures tag == 0x05 && rev >= 0x0300 ==> DecMessage(rev, types, [tag] + t) == Done(ClientHelloDone, t)
    ensures rev < 0x0300 && tag !in [0x00, 0x01, 0x02, 0x03, 0x10, 0x11] ==> DecMessage(rev, types, [tag] + t) == Fail
    ensures tag !in [0x00, 0x01, 0x02, 0x03, 0x04, 0x05, 0x10, 0x11, 0x12, 0x13, 0x14, 0x20, 0x21] ==>
      DecMessage(rev, types, [tag] + t) == Fail
    ensures DecMessage(rev, types, []) == Fail
  {
    OneMore(tag, t);
  }

  lemma NumbersRead(types: EntryTypes, a: byte, b: byte, flags: byte, rest: Bytes)
    ensures DecMessage(0x0300, types, [0x02, a, b] + rest) == Done(ProtoUnsup(Two(a, b)), rest)
    ensures DecMessage(0x0300, types, [0x12, a, b, flags] + rest) == Done(FlagsUpdate(Two(a, b), flags), rest)
    ensures DecMessage(0x0300, types, [0x13, a, b] + rest) == Done(EntryDelete(Two(a, b)), rest)
  {
    WordRead(a, b, rest);
    WordRead(a, b, [flags] + rest);
    assert [0x02, a, b] + rest == [0x02] + ([a, b] + rest);
    assert [0x12, a, b, flags] + rest == [0x12] + ([a, b] + ([flags] + rest));
    assert [0x13, a, b] + rest == [0x13] + ([a, b] + rest);
  }

  /** Everything is cleared exactly when the four bytes are the right ones. */
  lemma ClearRead(types: EntryTypes, a: byte, b: byte, c: byte, d: byte, rest: Bytes)
    ensures DecMessage(0x0300, types, [0x14, a, b, c, d] + rest) ==
      if a == 0xD0 && b == 0x6C && c == 0xB2 && d == 0x7A then Done(ClearEntries, rest) else Fail
  {
    hide DoubleWord, FromDoubleWord;
    Split([a, b, c, d], rest);
    DoubleWordBytes(a, b, c, d);
    DoubleWordBytes(0xD0, 0x6C, 0xB2, 0x7A);
    assert [0x14, a, b, c, d] + rest == [0x14] + ([a, b, c, d] + rest);
    if Four(a, b, c, d) == Four(0xD0, 0x6C, 0xB2, 0x7A) {
      assert [a, b, c, d] == [0xD0, 0x6C, 0xB2, 0x7A];
    }
  }

  /** A string of fewer than 128 bytes. */
  lemma StringRead(s: Bytes, rest: Bytes)
    requires |s| < 0x80
    ensures DecString(0x0300, [|s|] + s + rest) == Done(s, rest)
    ensures DecString(0x0200, [0x00, |s|] + s + rest) == Done(s, rest)
  {
    StringBytes(s);
    StringBack(0x0300, s, rest);
    StringBack(0x0200, s, rest);
  }

  /** A client says which revision it speaks; whoever speaks 3.0 gives a name as well. */
  lemma ClientHelloRead(types: EntryTypes, a: byte, b: byte, selfId: Bytes, rest: Bytes)
    requires |selfId| < 0x80
    ensures Two(a, b) < 0x0300 ==> DecMessage(0x0300, types, [0x01, a, b] + rest) == Done(ClientHello(Two(a, b), []), rest)
    ensures Two(a, b) >= 0x0300 ==>
      DecMessage(0x0300, types, [0x01, a, b] + ([|selfId|] + selfId + rest)) == Done(ClientHello(Two(a, b), selfId), rest)
  {
    hide Two, DecString;
    WordRead(a, b, rest);
    WordRead(a, b, [|selfId|] + selfId + rest);
    StringRead(selfId, rest);
    Tagged3(0x01, a, b, rest);
    Tagged3(0x01, a, b, [|selfId|] + selfId + rest);
  }

  lemma Tagged3(tag: byte, a: byte, b: byte, t: Bytes)
    ensures [tag, a, b] + t == [tag] + ([a, b] + t) && ([tag, a, b] + t)[0] == tag && ([tag, a, b] + t)[1..] == [a, b] + t
  {
  }

  lemma ServerHelloRead(types: EntryTypes, flags: byte, selfId: Bytes, rest: Bytes)
    requires |selfId| < 0x80
    ensures DecMessage(0x0300, types, [0x04, flags] + ([|selfId|] + selfId + rest)) == Done(ServerHello(flags, selfId), rest)
  {
    hide DecString;
    StringRead(selfId, rest);
    var t := [|selfId|] + selfId + rest;
    OneMore(flags, t);
    assert [0x04, flags] + t == [0x04] + ([flags] + t);
    OneMore(0x04, [flags] + t);
  }

  lemma RpcRead(types: EntryTypes, a: byte, b: byte, c: byte, d: byte, data: Bytes, rest: Bytes)
    requires |data| < 0x80
    ensures var t := [a, b] + ([c, d] + ([|data|] + data + rest));
      && DecMessage(0x0300, types, [0x20] + t) == Done(ExecuteRpc(Two(a, b), Two(c, d), data), rest)
      && DecMessage(0x0300, types, [0x21] + t) == Done(RpcResponse(Two(a, b), Two(c, d), data), rest)
  {
    hide Two, DecString, Dec16;
    var u := [|data|] + data + rest;
    WordRead(a, b, [c, d] + u);
    WordRead(c, d, u);
    StringRead(data, rest);
    OneMore(0x20, [a, b] + ([c, d] + u));
    OneMore(0x21, [a, b] + ([c, d] + u));
  }

  /** Single values. Every nonzero byte is true. */
  lemma ValueRead(rev: nat, x: byte, s: Bytes, rest: Bytes)
    requires |s| < 0x80
    ensures DecValue(rev, BooleanT, [x] + rest) == Done(Boolean(x != 0x00), rest)
    ensures |s| == 8 ==> DecValue(rev, DoubleT, s + rest) == Done(Double(FromQuadWord(s)), rest)
    ensures DecValue(0x0300, StringT, [|s|] + s + rest) == Done(String(s), rest)
    ensures DecValue(0x0300, RawT, [|s|] + s + rest) == Done(Raw(s), rest)
    ensures DecValue(0x0300, RpcT, [|s|] + s + rest) == Done(Rpc(s), rest)
    ensures DecValue(0x0200, StringT, [0x00, |s|] + s + rest) == Done(String(s), rest)
    ensures DecValue(0x0200, RawT, s) == DecValue(0x0200, RpcT, s) == Fail
  {
    hide DecString, FromQuadWord;
    StringRead(s, rest);
    OneMore(x, rest);
    Split(s, rest);
  }

  lemma ArrayRead(rev: nat, x: byte, y: byte, s: Bytes, u: Bytes, rest: Bytes)
    requires |s| == |u| == 8
    ensures DecValue(rev, BooleanArrayT, [0x02, x, y] + rest) == Done(BooleanArray([x != 0x00, y != 0x00]), rest)
    ensures DecValue(rev, DoubleArrayT, [0x02] + (s + u) + rest) == Done(DoubleArray([FromQuadWord(s), FromQuadWord(u)]), rest)
  {
    hide FromQuadWord, DecDoubles;
    Parts(0x02, [x, y], rest);
    Parts(0x02, s + u, rest);
    assert [0x02, x, y] + rest == [0x02] + [x, y] + rest;
    assert DecBools([x, y]) == [x != 0x00, y != 0x00];
    TwoDoublesRead(s, u);
  }

  lemma TwoDoublesRead(s: Bytes, u: Bytes)
    requires |s| == |u| == 8
    ensures DecDoubles(s + u) == [FromQuadWord(s), FromQuadWord(u)]
  {
    hide FromQuadWord;
    Split(s, u);
    assert s[..0] == [] && s[0..] == s;
    assert DecDoubles([]) == [];
    assert DecDoubles(s) == [FromQuadWord(s)];
  }

  /** An assignment, for every type byte and value bytes. */
  lemma AssignRead(types: EntryTypes, name: Bytes, t: Type, type_: byte, a: byte, b: byte, c: byte, d: byte, flags: byte,
                   v: Value, value: Bytes, rest: Bytes)
    requires |name| < 0x80
    requires forall more: Bytes :: DecType([type_] + more) == Done(t, more)
    requires DecValue(0x0300, t, value + rest) == Done(v, rest)
    ensures DecMessage(0x0300, types, [0x10] + ([|name|] + name + ([type_] + ([a, b] + ([c, d] + ([flags] + (value + rest)))))))
         == Done(EntryAssign(name, Two(a, b), Two(c, d), v, flags), rest)
  {
    hide Two, DecString, Dec16, DecType, DecValue;
    var tail := [flags] + (value + rest);
    var body := [a, b] + ([c, d] + tail);
    OneMore(0x10, [|name|] + name + ([type_] + body));
    StringRead(name, [type_] + body);
    WordRead(a, b, [c, d] + tail);
    WordRead(c, d, tail);
    OneMore(flags, value + rest);
  }

  lemma AssignRead2(types: EntryTypes, name: Bytes, t: Type, type_: byte, a: byte, b: byte, c: byte, d: byte,
                    v: Value, value: Bytes, rest: Bytes)
    requires |name| < 0x80
    requires forall more: Bytes :: DecType([type_] + more) == Done(t, more)
    requires DecValue(0x0200, t, value + rest) == Done(v, rest)
    ensures DecMessage(0x0200, types, [0x10] + ([0x00, |name|] + name + ([type_] + ([a, b] + ([c, d] + (value + rest))))))
         == Done(EntryAssign(name, Two(a, b), Two(c, d), v, 0), rest)
  {
    hide Two, DecString, Dec16, DecType, DecValue;
    var tail := value + rest;
    var body := [a, b] + ([c, d] + tail);
    OneMore(0x10, [0x00, |name|] + name + ([type_] + body));
    StringRead(name, [type_] + body);
    WordRead(a, b, [c, d] + tail);
    WordRead(c, d, tail);
  }

  /** An update names its type in revision 3.0 and goes by the type of the entry in revision 2.0, where an update of an
      unknown entry cannot be read. */
  lemma UpdateRead(types: EntryTypes, t: Type, type_: byte, a: byte, b: byte, c: byte, d: byte, value: Bytes)
    requires forall more: Bytes :: DecType([type_] + more) == Done(t, more)
    ensures DecMessage(0x0300, types, [0x11] + ([a, b] + ([c, d] + ([type_] + value)))) ==
      match DecValue(0x0300, t, value) case Fail => Fail case Done(v, rest) => Done(EntryUpdate(Two(a, b), Two(c, d), v), rest)
    ensures DecMessage(0x0200, types, [0x11] + ([a, b] + ([c, d] + value))) ==
      match types(Two(a, b))
      case None => Fail
      case Some(u) =>
        match DecValue(0x0200, u, value) case Fail => Fail case Done(v, rest) => Done(EntryUpdate(Two(a, b), Two(c, d), v), rest)
  {
    hide Two, Dec16, DecType, DecValue;
    OneMore(0x11, [a, b] + ([c, d] + ([type_] + value)));
    OneMore(0x11, [a, b] + ([c, d] + value));
    WordRead(a, b, [c, d] + ([type_] + value));
    WordRead(a, b, [c, d] + value);
    WordRead(c, d, [type_] + value);
    WordRead(c, d, value);
  }

  /** A message cannot be read when the byte for its type is unknown. */
  lemma UnknownType(types: EntryTypes, name: Bytes, type_: byte, ids: Bytes, value: Bytes)
    requires |name| < 0x80 && |ids| == 4 && forall more: Bytes :: DecType([type_] + more) == Fail
    ensures DecMessage(0x0300, types, [0x10] + ([|name|] + name + ([type_] + value))) == Fail
    ensures DecMessage(0x0300, types, [0x11] + (ids + ([type_] + value))) == Fail
  {
    hide DecString, DecType, Dec16;
    OneMore(0x10, [|name|] + name + ([type_] + value));
    StringRead(name, [type_] + value);
    var u := [type_] + value;
    OneMore(0x11, ids + u);
    assert ids + u == [ids[0], ids[1]] + ([ids[2], ids[3]] + u);
    WordRead(ids[0], ids[1], [ids[2], ids[3]] + u);
    WordRead(ids[2], ids[3], u);
  }
}
