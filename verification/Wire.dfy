/**
  The wire format of protocol 2.0 and 3.0 (Message.cpp, WireEncoder.cpp, WireDecoder.cpp, leb128.cpp): what is written
  for a message, what is read from a stream, and what a message has become when it has been written and read.
 */
module Wire {
  import opened Basics
  import opened Serials
  import opened Messages
  import Probing

  /** Reading from the front of a stream: failure, or a value and what is left. */
  datatype Parse<+T> = Fail | Done(value: T, rest: Bytes)

  // ---------------------------------------------------------------------------------------------
  // Integers
  // ---------------------------------------------------------------------------------------------

  /** The low 16 bits of `n`, most significant byte first. */
  function Word(n: nat): (r: Bytes)
    ensures |r| == 2
  {
    [n / 0x100 % 0x100, n % 0x100]
  }

  /** The low 32 bits. */
  function DoubleWord(n: nat): (r: Bytes)
    ensures |r| == 4
  {
    Word(n / 0x1_0000) + Word(n)
  }

  /** The low 64 bits. */
  function QuadWord(n: nat): (r: Bytes)
    ensures |r| == 8
  {
    DoubleWord(n / 0x1_0000_0000) + DoubleWord(n)
  }

  function FromWord(s: Bytes): (n: nat)
    requires |s| == 2
    ensures n < 0x1_0000
  {
    (s[0] as int) * 0x100 + s[1]
  }

  function FromDoubleWord(s: Bytes): (n: nat)
    requires |s| == 4
    ensures n < 0x1_0000_0000
  {
    FromWord(s[..2]) * 0x1_0000 + FromWord(s[2..])
  }

  function FromQuadWord(s: Bytes): (n: nat)
    requires |s| == 8
    ensures n < 0x1_0000_0000_0000_0000
  {
    FromDoubleWord(s[..4]) * 0x1_0000_0000 + FromDoubleWord(s[4..])
  }

  lemma WordBack(n: nat)
    ensures FromWord(Word(n)) == n % 0x1_0000
  {
  }

  lemma DoubleWordBack(n: nat)
    ensures FromDoubleWord(DoubleWord(n)) == n % 0x1_0000_0000
  {
    Split(Word(n / 0x1_0000), Word(n));
    WordBack(n / 0x1_0000);
    WordBack(n);
    WordHalves(n);
  }

  lemma WordHalves(n: nat)
    ensures n / 0x1_0000 % 0x1_0000 * 0x1_0000 + n % 0x1_0000 == n % 0x1_0000_0000
  {
  }

  lemma QuadWordBack(n: nat)
    ensures FromQuadWord(QuadWord(n)) == n % 0x1_0000_0000_0000_0000
  {
    var hi, lo := DoubleWord(n / 0x1_0000_0000), DoubleWord(n);
    Split(hi, lo);
    DoubleWordBack(n / 0x1_0000_0000);
    DoubleWordBack(n);
    Halves(n);
  }

  lemma BitsBack(bits: Bits64)
    ensures FromQuadWord(QuadWord(bits)) == bits
  {
    QuadWordBack(bits);
    Probing.Remainder(bits, 0x1_0000_0000_0000_0000, 0, bits);
  }

  lemma Halves(n: nat)
    ensures n / 0x1_0000_0000 % 0x1_0000_0000 * 0x1_0000_0000 + n % 0x1_0000_0000 == n % 0x1_0000_0000_0000_0000
  {
  }

  lemma Split(a: Bytes, b: Bytes)
    ensures (a + b)[..|a|] == a && (a + b)[|a|..] == b
  {
  }

  function Dec8(s: Bytes): Parse<nat> {
    if s == [] then Fail else Done(s[0], s[1..])
  }

  function Dec16(s: Bytes): Parse<Serial> {
    if |s| < 2 then Fail else Done(FromWord(s[..2]), s[2..])
  }

  function Dec32(s: Bytes): Parse<nat> {
    if |s| < 4 then Fail else Done(FromDoubleWord(s[..4]), s[4..])
  }

  /** Two 16-bit words. */
  function DecWords(s: Bytes): Parse<(Serial, Serial)> {
    match Dec16(s)
    case Fail => Fail
    case Done(first, t) =>
      match Dec16(t)
      case Fail => Fail
      case Done(second, rest) => Done((first, second), rest)
  }

  lemma Dec8Back(n: byte, rest: Bytes)
    ensures Dec8([n] + rest) == Done(n as nat, rest)
  {
  }

  lemma Dec16Back(n: nat, rest: Bytes)
    ensures Dec16(Word(n) + rest) == Done(n % 0x1_0000, rest)
  {
    WordBack(n);
    Split(Word(n), rest);
  }

  lemma Dec32Back(n: nat, rest: Bytes)
    ensures Dec32(DoubleWord(n) + rest) == Done(n % 0x1_0000_0000, rest)
  {
    DoubleWordBack(n);
    Split(DoubleWord(n), rest);
  }

  lemma Reassociate(a: Bytes, b: Bytes, c: Bytes)
    ensures a + b + c == a + (b + c)
  {
  }

  lemma WordsBack(id: nat, seqNum: nat, tail: Bytes, rest: Bytes)
    ensures DecWords(Word(id) + (Word(seqNum) + tail) + rest) == Done((id % 0x1_0000, seqNum % 0x1_0000), tail + rest)
  {
    Reassociate(Word(id), Word(seqNum) + tail, rest);
    Dec16Back(id, Word(seqNum) + tail + rest);
    Reassociate(Word(seqNum), tail, rest);
    Dec16Back(seqNum, tail + rest);
  }

  // ---------------------------------------------------------------------------------------------
  // Unsigned LEB128 (section 7.6 of DWARF 3)
  // ---------------------------------------------------------------------------------------------

  function Uleb(n: nat): (r: Bytes)
    ensures r != []
  {
    if n < 0x80 then [n] else [n % 0x80 + 0x80] + Uleb(n / 0x80)
  }

  /** What the reader adds for a group of seven bits: the group is shifted as a 32-bit signed integer, so the fifth one
      keeps four bits and its sign spreads over the 64-bit result. Beyond the fifth the source's shift is undefined;
      here it adds nothing. */
  function Group(g: nat, shift: nat): nat {
    if shift == 0 then g
    else if shift == 7 then g * 0x80
    else if shift == 14 then g * 0x4000
    else if shift == 21 then g * 0x20_0000
    else if shift == 28 then (g % 16) * 0x1000_0000 + (if g % 16 >= 8 then 0xffff_ffff_0000_0000 else 0)
    else 0
  }

  function ReadUleb(s: Bytes, shift: nat): Parse<nat>
    decreases |s|
  {
    if s == [] then Fail
    else if s[0] < 0x80 then Done(Group(s[0], shift), s[1..])
    else Plus(Group(s[0] % 0x80, shift), ReadUleb(s[1..], shift + 7))
  }

  function Plus(n: nat, p: Parse<nat>): Parse<nat> {
    match p
    case Fail => Fail
    case Done(v, rest) => Done(n + v, rest)
  }

  /** What a written number is read back as. */
  function Regroup(n: nat, shift: nat): nat {
    if n < 0x80 then Group(n, shift) else Group(n % 0x80, shift) + Regroup(n / 0x80, shift + 7)
  }

  lemma UlebGroup(b: byte, t: Bytes, shift: nat)
    ensures ReadUleb([b] + t, shift) ==
      if b < 0x80 then Done(Group(b, shift), t) else Plus(Group(b % 0x80, shift), ReadUleb(t, shift + 7))
  {
    assert ([b] + t)[1..] == t;
  }

  lemma {:induction false} UlebRegroups(n: nat, shift: nat, rest: Bytes)
    ensures ReadUleb(Uleb(n) + rest, shift) == Done(Regroup(n, shift), rest)
  {
    if n < 0x80 {
      UlebGroup(n, rest, shift);
    } else {
      var b, more := n % 0x80 + 0x80, Uleb(n / 0x80);
      assert b % 0x80 == n % 0x80;
      UlebRegroups(n / 0x80, shift + 7, rest);
      Reassociate([b], more, rest);
      UlebGroup(b, more + rest, shift);
    }
  }

  // Which numbers are kept by the groups from each shift on, from the last group back to the first.

  lemma Keeps28(n: nat)
    requires n < 0x80
    ensures Regroup(n, 28) == n * 0x1000_0000 <==> n < 8
  {
  }

  lemma Keeps21(n: nat)
    requires n < 0x4000
    ensures Regroup(n, 21) == n * 0x20_0000 <==> n < 0x400
  {
    Keeps28(n / 0x80);
  }

  lemma Keeps14(n: nat)
    requires n < 0x20_0000
    ensures Regroup(n, 14) == n * 0x4000 <==> n < 0x2_0000
  {
    Keeps21(n / 0x80);
  }

  lemma Keeps7(n: nat)
    requires n < 0x1000_0000
    ensures Regroup(n, 7) == n * 0x80 <==> n < 0x100_0000
  {
    Keeps14(n / 0x80);
  }

  /** A number below 2^35 survives the stream exactly when it is below 2^31. */
  lemma UlebBack(n: nat, rest: Bytes)
    requires n < 0x8_0000_0000
    ensures ReadUleb(Uleb(n) + rest, 0) == Done(n, rest) <==> n < 0x8000_0000
  {
    UlebRegroups(n, 0, rest);
    Keeps7(n / 0x80);
  }

  // ---------------------------------------------------------------------------------------------
  // Strings
  // ---------------------------------------------------------------------------------------------

  const REV3 := 0x0300

  function Prefix<T>(s: seq<T>, n: nat): seq<T> {
    if |s| > n then s[..n] else s
  }

  /** A string as the receiver gets it: revision 2.0 has room for 64K - 1 bytes. */
  function CutString(rev: nat, s: Bytes): Bytes {
    if rev < REV3 then Prefix(s, 0xffff) else s
  }

  function EncString(rev: nat, s: Bytes): Bytes {
    if rev < REV3 then Word(|Prefix(s, 0xffff)|) + Prefix(s, 0xffff) else Uleb(|s|) + s
  }

  function ReadLength(rev: nat, s: Bytes): Parse<nat> {
    if rev < REV3 then Dec16(s) else ReadUleb(s, 0)
  }

  /** The next `n` bytes. */
  function Take(s: Bytes, n: nat): Parse<Bytes> {
    if |s| < n then Fail else Done(s[..n], s[n..])
  }

  function DecString(rev: nat, s: Bytes): Parse<Bytes> {
    match ReadLength(rev, s)
    case Fail => Fail
    case Done(len, rest) => Take(rest, len)
  }

  predicate Short(rev: nat, s: Bytes) {
    rev >= REV3 ==> |s| < 0x8000_0000
  }

  lemma StringBack(rev: nat, s: Bytes, rest: Bytes)
    requires Short(rev, s)
    ensures DecString(rev, EncString(rev, s) + rest) == Done(CutString(rev, s), rest)
  {
    var t := CutString(rev, s);
    if rev < REV3 {
      Dec16Back(|t|, t + rest);
      Reassociate(Word(|t|), t, rest);
    } else {
      UlebBack(|t|, t + rest);
      Reassociate(Uleb(|t|), t, rest);
    }
    Split(t, rest);
  }

  // ---------------------------------------------------------------------------------------------
  // Values
  // ---------------------------------------------------------------------------------------------

  function TypeByte(t: Type): byte {
    match t
    case BooleanT => 0x00
    case DoubleT => 0x01
    case StringT => 0x02
    case RawT => 0x03
    case BooleanArrayT => 0x10
    case DoubleArrayT => 0x11
    case StringArrayT => 0x12
    case RpcT => 0x20
  }

  /** The encoder has an error, and writes nothing, for these types in revision 2.0. */
  predicate Refused(rev: nat, t: Type) {
    rev < REV3 && (t == RawT || t == RpcT)
  }

  function EncType(rev: nat, t: Type): Bytes {
    if Refused(rev, t) then [] else [TypeByte(t)]
  }

  function DecType(s: Bytes): Parse<Type> {
    if s == [] then Fail
    else match s[0]
      case 0x00 => Done(BooleanT, s[1..])
      case 0x01 => Done(DoubleT, s[1..])
      case 0x02 => Done(StringT, s[1..])
      case 0x03 => Done(RawT, s[1..])
      case 0x10 => Done(BooleanArrayT, s[1..])
      case 0x11 => Done(DoubleArrayT, s[1..])
      case 0x12 => Done(StringArrayT, s[1..])
      case 0x20 => Done(RpcT, s[1..])
      case _ => Fail
  }

  function EncBools(v: seq<bool>): (r: Bytes)
    ensures |r| == |v|
  {
    seq(|v|, i requires 0 <= i < |v| => if v[i] then 1 else 0)
  }

  function DecBools(s: Bytes): seq<bool> {
    seq(|s|, i requires 0 <= i < |s| => s[i] != 0)
  }

  function EncDoubles(v: seq<Bits64>): (r: Bytes)
    ensures |r| == 8 * |v|
  {
    if v == [] then [] else EncDoubles(v[..|v| - 1]) + QuadWord(v[|v| - 1])
  }

  function DecDoubles(s: Bytes): seq<Bits64> {
    if |s| < 8 then [] else DecDoubles(s[..|s| - 8]) + [FromQuadWord(s[|s| - 8..])]
  }

  function EncStrings(rev: nat, v: seq<Bytes>): Bytes {
    if v == [] then [] else EncStrings(rev, v[..|v| - 1]) + EncString(rev, v[|v| - 1])
  }

  function DecStrings(rev: nat, s: Bytes, n: nat): Parse<seq<Bytes>> {
    if n == 0 then Done([], s)
    else match DecStrings(rev, s, n - 1)
      case Fail => Fail
      case Done(v, rest) =>
        match DecString(rev, rest)
        case Fail => Fail
        case Done(t, rest2) => Done(v + [t], rest2)
  }

  function CutStrings(rev: nat, v: seq<Bytes>): seq<Bytes> {
    if v == [] then [] else CutStrings(rev, v[..|v| - 1]) + [CutString(rev, v[|v| - 1])]
  }

  /** An array has room for 255 elements. */
  function EncValue(rev: nat, v: Value): Bytes {
    match v
    case Boolean(b) => [if b then 1 else 0]
    case Double(bits) => QuadWord(bits)
    case String(s) => EncString(rev, s)
    case Raw(s) => if rev < REV3 then [] else EncString(rev, s)
    case Rpc(s) => if rev < REV3 then [] else EncString(rev, s)
    case BooleanArray(bs) => [|Prefix(bs, 0xff)|] + EncBools(Prefix(bs, 0xff))
    case DoubleArray(ds) => [|Prefix(ds, 0xff)|] + EncDoubles(Prefix(ds, 0xff))
    case StringArray(ss) => [|Prefix(ss, 0xff)|] + EncStrings(rev, Prefix(ss, 0xff))
  }

  function DecValue(rev: nat, t: Type, s: Bytes): Parse<Value> {
    match t
    case BooleanT => (match Dec8(s) case Fail => Fail case Done(b, rest) => Done(Boolean(b != 0), rest))
    case DoubleT => DecDouble(s)
    case BooleanArrayT => DecBoolArray(s)
    case DoubleArrayT => DecDoubleArray(s)
    case StringArrayT => DecStringArray(rev, s)
    case _ => DecText(rev, t, s)
  }

  function DecDouble(s: Bytes): Parse<Value> {
    if |s| < 8 then Fail else Done(Double(FromQuadWord(s[..8])), s[8..])
  }

  function DecText(rev: nat, t: Type, s: Bytes): Parse<Value>
    requires t.StringT? || t.RawT? || t.RpcT?
  {
    if Refused(rev, t) then Fail
    else match DecString(rev, s)
      case Fail => Fail
      case Done(v, rest) => Done(if t.StringT? then String(v) else if t.RawT? then Raw(v) else Rpc(v), rest)
  }

  function DecBoolArray(s: Bytes): Parse<Value> {
    if s == [] then Fail
    else match Take(s[1..], s[0])
      case Fail => Fail
      case Done(t, rest) => Done(BooleanArray(DecBools(t)), rest)
  }

  function DecDoubleArray(s: Bytes): Parse<Value> {
    if s == [] then Fail
    else var n: nat := s[0];
      match Take(s[1..], 8 * n)
      case Fail => Fail
      case Done(t, rest) => Done(DoubleArray(DecDoubles(t)), rest)
  }

  function DecStringArray(rev: nat, s: Bytes): Parse<Value> {
    if s == [] then Fail
    else match DecStrings(rev, s[1..], s[0])
      case Fail => Fail
      case Done(v, rest) => Done(StringArray(v), rest)
  }

  /** A value as the receiver gets it. */
  function CutValue(rev: nat, v: Value): Value {
    match v
    case String(s) => String(CutString(rev, s))
    case BooleanArray(bs) => BooleanArray(Prefix(bs, 0xff))
    case DoubleArray(ds) => DoubleArray(Prefix(ds, 0xff))
    case StringArray(ss) => StringArray(CutStrings(rev, Prefix(ss, 0xff)))
    case _ => v
  }

  /** No length in `v` is out of the reader's range. */
  ghost predicate ShortValue(rev: nat, v: Value) {
    match v
    case String(s) => Short(rev, s)
    case Raw(s) => Short(rev, s)
    case Rpc(s) => Short(rev, s)
    case StringArray(ss) => forall s :: s in ss ==> Short(rev, s)
    case _ => true
  }

  lemma {:induction false} DoublesBack(v: seq<Bits64>)
    ensures DecDoubles(EncDoubles(v)) == v
  {
    if v != [] {
      var n := |v| - 1;
      DoublesBack(v[..n]);
      BitsBack(v[n]);
      Split(EncDoubles(v[..n]), QuadWord(v[n]));
    }
  }

  lemma {:induction false} StringsBack(rev: nat, v: seq<Bytes>, rest: Bytes)
    requires forall s :: s in v ==> Short(rev, s)
    ensures DecStrings(rev, EncStrings(rev, v) + rest, |v|) == Done(CutStrings(rev, v), rest)
  {
    if v == [] {
      assert EncStrings(rev, v) + rest == rest;
    } else {
      var n := |v| - 1;
      var head, last := EncStrings(rev, v[..n]), EncString(rev, v[n]);
      StringsBack(rev, v[..n], last + rest);
      StringBack(rev, v[n], rest);
      OneMoreString(rev, head, n, CutStrings(rev, v[..n]), last + rest, CutString(rev, v[n]), rest);
      Reassociate(head, last, rest);
    }
  }

  lemma OneMoreString(rev: nat, head: Bytes, n: nat, v: seq<Bytes>, tail: Bytes, t: Bytes, rest: Bytes)
    requires DecStrings(rev, head + tail, n) == Done(v, tail) && DecString(rev, tail) == Done(t, rest)
    ensures DecStrings(rev, head + tail, n + 1) == Done(v + [t], rest)
  {
  }

  /** Reading a written value, with the type the writer meant. */
  lemma ValueBack(rev: nat, v: Value, rest: Bytes)
    requires ShortValue(rev, v) && !Refused(rev, v.Type())
    ensures DecValue(rev, v.Type(), EncValue(rev, v) + rest) == Done(CutValue(rev, v), rest)
  {
    match v
    case Boolean(b) => Dec8Back(if b then 1 else 0, rest);
    case Double(bits) => DoubleBack(rev, bits, rest);
    case String(_) => TextBack(rev, v, rest);
    case Raw(_) => TextBack(rev, v, rest);
    case Rpc(_) => TextBack(rev, v, rest);
    case BooleanArray(bs) => BoolArrayBack(Prefix(bs, 0xff), rest);
    case DoubleArray(ds) => DoubleArrayBack(Prefix(ds, 0xff), rest);
    case StringArray(ss) => StringArrayBack(rev, Prefix(ss, 0xff), rest);
  }

  lemma DoubleBack(rev: nat, bits: Bits64, rest: Bytes)
    ensures DecDouble(QuadWord(bits) + rest) == Done(Double(bits), rest)
  {
    BitsBack(bits);
    Split(QuadWord(bits), rest);
  }

  lemma TextBack(rev: nat, v: Value, rest: Bytes)
    requires (v.String? || v.Raw? || v.Rpc?) && ShortValue(rev, v) && !Refused(rev, v.Type())
    ensures DecText(rev, v.Type(), EncString(rev, v.s) + rest) == Done(CutValue(rev, v), rest)
  {
    StringBack(rev, v.s, rest);
  }

  lemma Parts(n: byte, body: Bytes, rest: Bytes)
    ensures ([n] + body + rest)[0] == n && ([n] + body + rest)[1..] == body + rest
    ensures Take(body + rest, |body|) == Done(body, rest)
  {
    assert (body + rest)[..|body|] == body && (body + rest)[|body|..] == rest;
  }

  lemma BoolArrayBack(v: seq<bool>, rest: Bytes)
    requires |v| <= 0xff
    ensures DecBoolArray([|v|] + EncBools(v) + rest) == Done(BooleanArray(v), rest)
  {
    Parts(|v|, EncBools(v), rest);
    assert DecBools(EncBools(v)) == v;
  }

  lemma DoubleArrayBack(v: seq<Bits64>, rest: Bytes)
    requires |v| <= 0xff
    ensures DecDoubleArray([|v|] + EncDoubles(v) + rest) == Done(DoubleArray(v), rest)
  {
    Parts(|v|, EncDoubles(v), rest);
    DoublesBack(v);
  }

  lemma StringArrayBack(rev: nat, v: seq<Bytes>, rest: Bytes)
    requires |v| <= 0xff && forall s :: s in v ==> Short(rev, s)
    ensures DecStringArray(rev, [|v|] + EncStrings(rev, v) + rest) == Done(StringArray(CutStrings(rev, v)), rest)
  {
    Parts(|v|, EncStrings(rev, v), rest);
    StringsBack(rev, v, rest);
  }

  lemma TypeBack(rev: nat, t: Type, rest: Bytes)
    requires !Refused(rev, t)
    ensures DecType(EncType(rev, t) + rest) == Done(t, rest)
  {
    assert (EncType(rev, t) + rest)[1..] == rest;
  }

  // ---------------------------------------------------------------------------------------------
  // Messages
  // ---------------------------------------------------------------------------------------------

  const CLEAR_ALL_MAGIC := 0xD06CB27A

  /** get_entry_type: how the reader of revision 2.0 knows what an update holds. */
  type EntryTypes = nat -> Option<Type>

  function Flag(flags: nat): Bytes { [flags % 0x100] }

  function EncMessage(rev: nat, m: Message): Bytes {
    match m
    case KeepAlive => [0x00]
    case ClientHello(_, selfId) => [0x01] + (Word(rev) + (if rev < REV3 then [] else EncString(rev, selfId)))
    case ProtoUnsup(_) => [0x02] + Word(rev)
    case ServerHelloDone => [0x03]
    case ServerHello(flags, selfId) => if rev < REV3 then [] else [0x04] + (Flag(flags) + EncString(rev, selfId))
    case ClientHelloDone => if rev < REV3 then [] else [0x05]
    case EntryAssign(name, id, seqNum, value, flags) => [0x10] + EncAssign(rev, name, id, seqNum, value, flags)
    case EntryUpdate(id, seqNum, value) => [0x11] + EncUpdate(rev, id, seqNum, value)
    case FlagsUpdate(id, flags) => if rev < REV3 then [] else [0x12] + (Word(id) + Flag(flags))
    case EntryDelete(id) => if rev < REV3 then [] else [0x13] + Word(id)
    case ClearEntries => if rev < REV3 then [] else [0x14] + DoubleWord(CLEAR_ALL_MAGIC)
    case ExecuteRpc(id, uid, params) => if rev < REV3 then [] else [0x20] + EncRpc(rev, id, uid, params)
    case RpcResponse(id, uid, results) => if rev < REV3 then [] else [0x21] + EncRpc(rev, id, uid, results)
  }

  function EncAssign(rev: nat, name: Bytes, id: nat, seqNum: Serial, value: Value, flags: nat): Bytes {
    EncString(rev, name) + (EncType(rev, value.Type()) + (Word(id) + (Word(seqNum)
      + ((if rev < REV3 then [] else Flag(flags)) + EncValue(rev, value)))))
  }

  function EncUpdate(rev: nat, id: nat, seqNum: Serial, value: Value): Bytes {
    Word(id) + (Word(seqNum)
      + ((if rev < REV3 then [] else EncType(rev, value.Type())) + EncValue(rev, value)))
  }

  function EncRpc(rev: nat, id: nat, uid: nat, data: Bytes): Bytes {
    Word(id) + (Word(uid) + EncString(rev, data))
  }

  function DecMessage(rev: nat, types: EntryTypes, s: Bytes): Parse<Message> {
    if s == [] then Fail else DecTagged(rev, types, s[0], s[1..])
  }

  /** The rest of a message whose type byte has been read. */
  function DecTagged(rev: nat, types: EntryTypes, tag: byte, t: Bytes): Parse<Message> {
    match tag
    case 0x00 => Done(KeepAlive, t)
    case 0x01 => DecClientHello(rev, t)
    case 0x02 => (match Dec16(t) case Fail => Fail case Done(r, rest) => Done(ProtoUnsup(r), rest))
    case 0x03 => Done(ServerHelloDone, t)
    case 0x04 => DecServerHello(rev, t)
    case 0x05 => if rev < REV3 then Fail else Done(ClientHelloDone, t)
    case 0x10 => DecAssign(rev, t)
    case 0x11 => DecUpdate(rev, types, t)
    case 0x12 => DecFlags(rev, t)
    case 0x13 => DecDelete(rev, t)
    case 0x14 => DecClear(rev, t)
    case 0x20 => (match DecRpc(rev, t) case Fail => Fail case Done(r, rest) => Done(ExecuteRpc(r.0, r.1, r.2), rest))
    case 0x21 => (match DecRpc(rev, t) case Fail => Fail case Done(r, rest) => Done(RpcResponse(r.0, r.1, r.2), rest))
    case _ => Fail
  }

  /** The revision in the message, not the decoder's, says whether a name follows. */
  function DecClientHello(rev: nat, s: Bytes): Parse<Message> {
    match Dec16(s)
    case Fail => Fail
    case Done(protoRev, t) =>
      if protoRev < REV3 then Done(ClientHello(protoRev, []), t)
      else match DecString(rev, t)
        case Fail => Fail
        case Done(selfId, rest) => Done(ClientHello(protoRev, selfId), rest)
  }

  function DecServerHello(rev: nat, s: Bytes): Parse<Message> {
    if rev < REV3 then Fail
    else match Dec8(s)
      case Fail => Fail
      case Done(flags, t) =>
        match DecString(rev, t)
        case Fail => Fail
        case Done(selfId, rest) => Done(ServerHello(flags, selfId), rest)
  }

  function DecFlags(rev: nat, s: Bytes): Parse<Message> {
    if rev < REV3 then Fail
    else match Dec16(s)
      case Fail => Fail
      case Done(id, t) =>
        match Dec8(t)
        case Fail => Fail
        case Done(flags, rest) => Done(FlagsUpdate(id, flags), rest)
  }

  function DecDelete(rev: nat, s: Bytes): Parse<Message> {
    if rev < REV3 then Fail
    else match Dec16(s)
      case Fail => Fail
      case Done(id, rest) => Done(EntryDelete(id), rest)
  }

  function DecClear(rev: nat, s: Bytes): Parse<Message> {
    if rev < REV3 then Fail
    else match Dec32(s)
      case Fail => Fail
      case Done(magic, rest) => if magic == CLEAR_ALL_MAGIC then Done(ClearEntries, rest) else Fail
  }

  function DecRpc(rev: nat, s: Bytes): Parse<(nat, nat, Bytes)> {
    if rev < REV3 then Fail
    else match DecWords(s)
      case Fail => Fail
      case Done(words, t) =>
        match DecString(rev, t)
        case Fail => Fail
        case Done(data, rest) => Done((words.0, words.1, data), rest)
  }

  /** The parts of an assign after its sequence number. */
  function DecAssignTail(rev: nat, name: Bytes, type_: Type, id: nat, seqNum: Serial, s: Bytes): Parse<Message> {
    match (if rev < REV3 then Done(0, s) else Dec8(s))
    case Fail => Fail
    case Done(flags, t) =>
      match DecValue(rev, type_, t)
      case Fail => Fail
      case Done(value, rest) => Done(EntryAssign(name, id, seqNum, value, flags), rest)
  }

  /** The parts of an assign after its name and type. */
  function DecAssignBody(rev: nat, name: Bytes, type_: Type, s: Bytes): Parse<Message> {
    match DecWords(s)
    case Fail => Fail
    case Done(words, t) => DecAssignTail(rev, name, type_, words.0, words.1, t)
  }

  function DecAssign(rev: nat, s: Bytes): Parse<Message> {
    match DecString(rev, s)
    case Fail => Fail
    case Done(name, t) =>
      match DecType(t)
      case Fail => Fail
      case Done(type_, u) => DecAssignBody(rev, name, type_, u)
  }

  function DecUpdate(rev: nat, types: EntryTypes, s: Bytes): Parse<Message> {
    match DecWords(s)
    case Fail => Fail
    case Done(words, t) => DecUpdateTail(rev, types, words.0, words.1, t)
  }

  /** The parts of an update after its sequence number. */
  function DecUpdateTail(rev: nat, types: EntryTypes, id: nat, seqNum: Serial, s: Bytes): Parse<Message> {
    match UpdateType(rev, types, id, s)
    case Fail => Fail
    case Done(type_, t) =>
      match DecValue(rev, type_, t)
      case Fail => Fail
      case Done(value, rest) => Done(EntryUpdate(id, seqNum, value), rest)
  }

  /** The type of an updated value: on the wire, or in revision 2.0 the type the entry has. */
  function UpdateType(rev: nat, types: EntryTypes, id: nat, s: Bytes): Parse<Type> {
    if rev >= REV3 then DecType(s)
    else match types(id)
      case None => Fail
      case Some(t) => Done(t, s)
  }

  /** A message as the receiver gets it, or None when revision 2.0 does not send it. Fields are cut to their width; the
      two hello messages carry the sender's revision. */
  function Received(rev: nat, m: Message): Option<Message> {
    match m
    case KeepAlive => Some(m)
    case ClientHello(_, selfId) => Some(ClientHello(rev, if rev < REV3 then [] else selfId))
    case ProtoUnsup(_) => Some(ProtoUnsup(rev))
    case ServerHelloDone => Some(m)
    case EntryAssign(name, id, seqNum, value, flags) =>
      Some(EntryAssign(CutString(rev, name), id % 0x1_0000, seqNum, CutValue(rev, value), if rev < REV3 then 0 else flags % 0x100))
    case EntryUpdate(id, seqNum, value) => Some(EntryUpdate(id % 0x1_0000, seqNum, CutValue(rev, value)))
    case _ => if rev < REV3 then None else Some(Received3(m))
  }

  function Received3(m: Message): Message {
    match m
    case ServerHello(flags, selfId) => ServerHello(flags % 0x100, selfId)
    case FlagsUpdate(id, flags) => FlagsUpdate(id % 0x1_0000, flags % 0x100)
    case EntryDelete(id) => EntryDelete(id % 0x1_0000)
    case ExecuteRpc(id, uid, params) => ExecuteRpc(id % 0x1_0000, uid % 0x1_0000, params)
    case RpcResponse(id, uid, results) => RpcResponse(id % 0x1_0000, uid % 0x1_0000, results)
    case _ => m
  }

  /** The lengths are in range, the encoder has no error, and a reader of revision 2.0 knows what the update holds. */
  ghost predicate Sendable(rev: nat, types: EntryTypes, m: Message) {
    match m
    case ClientHello(_, selfId) => Short(rev, selfId)
    case ServerHello(_, selfId) => Short(rev, selfId)
    case EntryAssign(name, _, _, value, _) => Short(rev, name) && ShortValue(rev, value) && !Refused(rev, value.Type())
    case EntryUpdate(id, _, value) =>
      && ShortValue(rev, value) && !Refused(rev, value.Type())
      && (rev < REV3 ==> types(id % 0x1_0000) == Some(value.Type()))
    case ExecuteRpc(_, _, params) => Short(rev, params)
    case RpcResponse(_, _, results) => Short(rev, results)
    case _ => true
  }

  lemma HelloBack(rev: nat, selfId: Bytes, rest: Bytes)
    requires rev < 0x1_0000 && Short(rev, selfId)
    ensures DecClientHello(rev, Word(rev) + (if rev < REV3 then [] else EncString(rev, selfId)) + rest)
         == Done(ClientHello(rev, if rev < REV3 then [] else selfId), rest)
  {
    var body := if rev < REV3 then [] else EncString(rev, selfId);
    Reassociate(Word(rev), body, rest);
    Dec16Back(rev, body + rest);
    if rev < REV3 {
      assert body + rest == rest;
    } else {
      StringBack(rev, selfId, rest);
    }
  }

  lemma ServerHelloBack(rev: nat, flags: nat, selfId: Bytes, rest: Bytes)
    requires rev >= REV3 && Short(rev, selfId)
    ensures DecServerHello(rev, Flag(flags) + EncString(rev, selfId) + rest) == Done(ServerHello(flags % 0x100, selfId), rest)
  {
    Reassociate(Flag(flags), EncString(rev, selfId), rest);
    Dec8Back(flags % 0x100, EncString(rev, selfId) + rest);
    StringBack(rev, selfId, rest);
  }

  lemma RpcBack(rev: nat, id: nat, uid: nat, data: Bytes, rest: Bytes)
    requires rev >= REV3 && Short(rev, data)
    ensures DecRpc(rev, EncRpc(rev, id, uid, data) + rest) == Done((id % 0x1_0000, uid % 0x1_0000, data), rest)
  {
    WordsBack(id, uid, EncString(rev, data), rest);
    StringBack(rev, data, rest);
  }

  lemma FlagsBack(rev: nat, id: nat, flags: nat, rest: Bytes)
    requires rev >= REV3
    ensures DecFlags(rev, Word(id) + Flag(flags) + rest) == Done(FlagsUpdate(id % 0x1_0000, flags % 0x100), rest)
  {
    Reassociate(Word(id), Flag(flags), rest);
    Dec16Back(id, Flag(flags) + rest);
    Dec8Back(flags % 0x100, rest);
  }

  lemma AssignTailBack(rev: nat, name: Bytes, id: nat, seqNum: Serial, value: Value, flags: nat, rest: Bytes)
    requires ShortValue(rev, value) && !Refused(rev, value.Type())
    ensures DecAssignTail(rev, name, value.Type(), id, seqNum, (if rev < REV3 then [] else Flag(flags)) + EncValue(rev, value) + rest)
      == Done(EntryAssign(name, id, seqNum, CutValue(rev, value), if rev < REV3 then 0 else flags % 0x100), rest)
  {
    var flag, body := if rev < REV3 then [] else Flag(flags), EncValue(rev, value);
    Reassociate(flag, body, rest);
    if rev < REV3 {
      assert flag + (body + rest) == body + rest;
    } else {
      Dec8Back(flags % 0x100, body + rest);
    }
    ValueBack(rev, value, rest);
  }

  lemma NameAndType(rev: nat, name: Bytes, type_: Type, tail: Bytes, rest: Bytes)
    requires Short(rev, name) && !Refused(rev, type_)
    ensures DecAssign(rev, EncString(rev, name) + (EncType(rev, type_) + tail) + rest)
         == DecAssignBody(rev, CutString(rev, name), type_, tail + rest)
  {
    var t := EncType(rev, type_);
    Reassociate(EncString(rev, name), t + tail, rest);
    StringBack(rev, name, t + tail + rest);
    Reassociate(t, tail, rest);
    TypeBack(rev, type_, tail + rest);
  }

  lemma AssignChain(rev: nat, s: Bytes, name: Bytes, type_: Type, body: Bytes, id: nat, seqNum: Serial, tail: Bytes,
                    m: Message, rest: Bytes)
    requires DecAssign(rev, s) == DecAssignBody(rev, name, type_, body) && DecWords(body) == Done((id, seqNum), tail)
    requires DecAssignTail(rev, name, type_, id, seqNum, tail) == Done(m, rest)
    ensures DecAssign(rev, s) == Done(m, rest)
  {
  }

  lemma AssignBack(rev: nat, name: Bytes, id: nat, seqNum: Serial, value: Value, flags: nat, rest: Bytes)
    requires Short(rev, name) && ShortValue(rev, value) && !Refused(rev, value.Type())
    ensures DecAssign(rev, EncAssign(rev, name, id, seqNum, value, flags) + rest)
         == Done(EntryAssign(CutString(rev, name), id % 0x1_0000, seqNum, CutValue(rev, value),
                             if rev < REV3 then 0 else flags % 0x100), rest)
  {
    var last := (if rev < REV3 then [] else Flag(flags)) + EncValue(rev, value);
    var body := Word(id) + (Word(seqNum) + last);
    NameAndType(rev, name, value.Type(), body, rest);
    Probing.Remainder(seqNum, 0x1_0000, 0, seqNum);
    WordsBack(id, seqNum, last, rest);
    var got, wid := CutString(rev, name), id % 0x1_0000;
    var m := EntryAssign(got, wid, seqNum, CutValue(rev, value), if rev < REV3 then 0 else flags % 0x100);
    AssignTailBack(rev, got, wid, seqNum, value, flags, rest);
    AssignChain(rev, EncAssign(rev, name, id, seqNum, value, flags) + rest, got, value.Type(), body + rest, wid, seqNum, last + rest, m, rest);
  }

  lemma UpdateTailBack(rev: nat, types: EntryTypes, id: nat, seqNum: Serial, value: Value, rest: Bytes)
    requires ShortValue(rev, value) && !Refused(rev, value.Type())
    requires rev < REV3 ==> types(id) == Some(value.Type())
    ensures DecUpdateTail(rev, types, id, seqNum, (if rev < REV3 then [] else EncType(rev, value.Type())) + EncValue(rev, value) + rest)
         == Done(EntryUpdate(id, seqNum, CutValue(rev, value)), rest)
  {
    var t, body := if rev < REV3 then [] else EncType(rev, value.Type()), EncValue(rev, value);
    Reassociate(t, body, rest);
    if rev < REV3 {
      assert t + (body + rest) == body + rest;
    } else {
      TypeBack(rev, value.Type(), body + rest);
    }
    ValueBack(rev, value, rest);
  }

  lemma UpdateBack(rev: nat, types: EntryTypes, id: nat, seqNum: Serial, value: Value, rest: Bytes)
    requires ShortValue(rev, value) && !Refused(rev, value.Type())
    requires rev < REV3 ==> types(id % 0x1_0000) == Some(value.Type())
    ensures DecTagged(rev, types, 0x11, EncUpdate(rev, id, seqNum, value) + rest)
         == Done(EntryUpdate(id % 0x1_0000, seqNum, CutValue(rev, value)), rest)
  {
    Probing.Remainder(seqNum, 0x1_0000, 0, seqNum);
    WordsBack(id, seqNum, (if rev < REV3 then [] else EncType(rev, value.Type())) + EncValue(rev, value), rest);
    UpdateTailBack(rev, types, id % 0x1_0000, seqNum, value, rest);
  }

  lemma Tagged(rev: nat, types: EntryTypes, tag: byte, body: Bytes, rest: Bytes)
    ensures DecMessage(rev, types, [tag] + body + rest) == DecTagged(rev, types, tag, body + rest)
  {
    Parts(tag, body, rest);
  }

  lemma OldMessageBack(rev: nat, types: EntryTypes, m: Message, rest: Bytes)
    requires rev < 0x1_0000 && Sendable(rev, types, m) && SentInBoth(m) && !m.EntryAssign? && !m.EntryUpdate?
    ensures EncMessage(rev, m) != [] && DecMessage(rev, types, EncMessage(rev, m) + rest) == Done(Received(rev, m).value, rest)
  {
    match m
    case KeepAlive => Tagged(rev, types, 0x00, [], rest);
    case ServerHelloDone => Tagged(rev, types, 0x03, [], rest);
    case ClientHello(_, selfId) =>
      HelloBack(rev, selfId, rest);
      Tagged(rev, types, 0x01, Word(rev) + (if rev < REV3 then [] else EncString(rev, selfId)), rest);
    case ProtoUnsup(_) =>
      Dec16Back(rev, rest);
      Tagged(rev, types, 0x02, Word(rev), rest);
  }

  lemma AssignMessageBack(rev: nat, types: EntryTypes, m: Message, rest: Bytes)
    requires Sendable(rev, types, m) && m.EntryAssign?
    ensures EncMessage(rev, m) != [] && DecMessage(rev, types, EncMessage(rev, m) + rest) == Done(Received(rev, m).value, rest)
  {
    var body := EncAssign(rev, m.name, m.id, m.seqNum, m.value, m.flags);
    AssignBack(rev, m.name, m.id, m.seqNum, m.value, m.flags, rest);
    Tagged(rev, types, 0x10, body, rest);
    IsAssign(rev, types, body + rest);
  }

  lemma IsAssign(rev: nat, types: EntryTypes, s: Bytes)
    ensures DecTagged(rev, types, 0x10, s) == DecAssign(rev, s)
  {
  }

  lemma UpdateMessageBack(rev: nat, types: EntryTypes, m: Message, rest: Bytes)
    requires Sendable(rev, types, m) && m.EntryUpdate?
    ensures EncMessage(rev, m) != [] && DecMessage(rev, types, EncMessage(rev, m) + rest) == Done(Received(rev, m).value, rest)
  {
    UpdateBack(rev, types, m.id, m.seqNum, m.value, rest);
    Tagged(rev, types, 0x11, EncUpdate(rev, m.id, m.seqNum, m.value), rest);
  }

  /** The messages both revisions send. */
  predicate SentInBoth(m: Message) {
    m.KeepAlive? || m.ClientHello? || m.ProtoUnsup? || m.ServerHelloDone? || m.EntryAssign? || m.EntryUpdate?
  }

  lemma NewMessageBack(rev: nat, types: EntryTypes, m: Message, rest: Bytes)
    requires REV3 <= rev && Sendable(rev, types, m) && !SentInBoth(m) && !m.ExecuteRpc? && !m.RpcResponse?
    ensures EncMessage(rev, m) != [] && DecMessage(rev, types, EncMessage(rev, m) + rest) == Done(Received3(m), rest)
  {
    match m
    case ClientHelloDone => Tagged(rev, types, 0x05, [], rest);
    case ServerHello(flags, selfId) =>
      ServerHelloBack(rev, flags, selfId, rest);
      Tagged(rev, types, 0x04, Flag(flags) + EncString(rev, selfId), rest);
    case FlagsUpdate(id, flags) =>
      FlagsBack(rev, id, flags, rest);
      Tagged(rev, types, 0x12, Word(id) + Flag(flags), rest);
    case EntryDelete(id) =>
      Dec16Back(id, rest);
      Tagged(rev, types, 0x13, Word(id), rest);
    case ClearEntries =>
      Dec32Back(CLEAR_ALL_MAGIC, rest);
      Tagged(rev, types, 0x14, DoubleWord(CLEAR_ALL_MAGIC), rest);
  }

  lemma RpcMessageBack(rev: nat, types: EntryTypes, m: Message, rest: Bytes)
    requires REV3 <= rev && Sendable(rev, types, m) && (m.ExecuteRpc? || m.RpcResponse?)
    ensures EncMessage(rev, m) != [] && DecMessage(rev, types, EncMessage(rev, m) + rest) == Done(Received3(m), rest)
  {
    RpcBack(rev, m.id, m.uid, m.params, rest);
    Tagged(rev, types, if m.ExecuteRpc? then 0x20 else 0x21, EncRpc(rev, m.id, m.uid, m.params), rest);
  }

  /** Reading what was written for one message gives the message received and leaves what follows. */
  lemma MessageBack(rev: nat, types: EntryTypes, m: Message, rest: Bytes)
    requires rev < 0x1_0000 && Sendable(rev, types, m)
    ensures match Received(rev, m)
      case None => EncMessage(rev, m) == []
      case Some(r) => EncMessage(rev, m) != [] && DecMessage(rev, types, EncMessage(rev, m) + rest) == Done(r, rest)
  {
    if m.EntryAssign? {
      AssignMessageBack(rev, types, m, rest);
    } else if m.EntryUpdate? {
      UpdateMessageBack(rev, types, m, rest);
    } else if SentInBoth(m) {
      OldMessageBack(rev, types, m, rest);
    } else if rev < REV3 {
    } else if m.ExecuteRpc? || m.RpcResponse? {
      RpcMessageBack(rev, types, m, rest);
    } else {
      NewMessageBack(rev, types, m, rest);
    }
  }

  // ---------------------------------------------------------------------------------------------
  // Streams of messages
  // ---------------------------------------------------------------------------------------------

  function EncAll(rev: nat, ms: seq<Message>): Bytes {
    if ms == [] then [] else EncMessage(rev, ms[0]) + EncAll(rev, ms[1..])
  }

  /** Messages read until the stream is used up; None when one cannot be read. */
  function DecAll(rev: nat, types: EntryTypes, s: Bytes): Option<seq<Message>>
    decreases |s|
  {
    if s == [] then Some([])
    else match DecMessage(rev, types, s)
      case Fail => None
      case Done(m, rest) =>
        if |rest| >= |s| then None
        else match DecAll(rev, types, rest)
          case None => None
          case Some(ms) => Some([m] + ms)
  }

  function ReceivedAll(rev: nat, ms: seq<Message>): seq<Message> {
    if ms == [] then []
    else (match Received(rev, ms[0]) case None => [] case Some(r) => [r]) + ReceivedAll(rev, ms[1..])
  }

  /** A stream of written messages is read back as the messages received, to the last byte, in either revision. */
  lemma {:induction false} StreamBack(rev: nat, types: EntryTypes, ms: seq<Message>)
    requires rev < 0x1_0000 && forall m :: m in ms ==> Sendable(rev, types, m)
    ensures DecAll(rev, types, EncAll(rev, ms)) == Some(ReceivedAll(rev, ms))
  {
    if ms != [] {
      StreamBack(rev, types, ms[1..]);
      MessageBack(rev, types, ms[0], EncAll(rev, ms[1..]));
      if Received(rev, ms[0]).None? {
        assert EncAll(rev, ms) == EncAll(rev, ms[1..]);
        assert ReceivedAll(rev, ms) == ReceivedAll(rev, ms[1..]);
      }
    }
  }

  /** Every field within its width on the wire. */
  ghost predicate InWidth(m: Message) {
    match m
    case ServerHello(flags, _) => flags < 0x100
    case EntryAssign(_, id, _, value, flags) => id < 0x1_0000 && flags < 0x100 && Fits(value)
    case EntryUpdate(id, _, value) => id < 0x1_0000 && Fits(value)
    case FlagsUpdate(id, flags) => id < 0x1_0000 && flags < 0x100
    case EntryDelete(id) => id < 0x1_0000
    case ExecuteRpc(id, uid, _) => id < 0x1_0000 && uid < 0x1_0000
    case RpcResponse(id, uid, _) => id < 0x1_0000 && uid < 0x1_0000
    case _ => true
  }

  ghost predicate Fits(v: Value) {
    match v
    case BooleanArray(bs) => |bs| <= 0xff
    case DoubleArray(ds) => |ds| <= 0xff
    case StringArray(ss) => |ss| <= 0xff
    case _ => true
  }

  lemma {:induction false} CutStrings3(v: seq<Bytes>)
    ensures CutStrings(REV3, v) == v
  {
    if v != [] {
      CutStrings3(v[..|v| - 1]);
    }
  }

  lemma SameValue(v: Value)
    ensures CutValue(REV3, v) == v <==> Fits(v)
  {
    if v.StringArray? {
      CutStrings3(Prefix(v.strings, 0xff));
    }
  }

  /** In revision 3.0 a message that is not a hello is received as it was sent exactly when all its fields are in width. */
  lemma SameMessage(m: Message)
    requires !m.ClientHello? && !m.ProtoUnsup?
    ensures Received(REV3, m) == Some(m) <==> InWidth(m)
  {
    match m
    case EntryAssign(_, _, _, value, _) => SameValue(value);
    case EntryUpdate(_, _, value) => SameValue(value);
    case _ =>
  }

  // ---------------------------------------------------------------------------------------------
  // Values that revision 2.0 has no form for
  // ---------------------------------------------------------------------------------------------

  lemma {:induction false} StringsConsume(rev: nat, s: Bytes, n: nat)
    requires rev < REV3
    ensures var p := DecStrings(rev, s, n); p.Done? ==> |p.rest| <= |s|
  {
    if n > 0 {
      StringsConsume(rev, s, n - 1);
    }
  }

  /** Reading a value never gives bytes back. */
  lemma ValueConsumes(rev: nat, t: Type, s: Bytes)
    requires rev < REV3
    ensures var p := DecValue(rev, t, s); p.Done? ==> |p.rest| <= |s| && p.value.Type() == t && !Refused(rev, t)
  {
    hide FromQuadWord, FromWord, DecBools, DecDoubles, DecStrings, DecString;
    match t
    case StringArrayT =>
      if s != [] {
        StringsConsume(rev, s[1..], s[0]);
      }
    case StringT => StringConsumes(rev, s);
    case _ =>
  }

  lemma StringConsumes(rev: nat, s: Bytes)
    requires rev < REV3
    ensures var p := DecString(rev, s); p.Done? ==> |p.rest| <= |s|
  {
    hide FromWord;
  }

  /** What is read from an assignment whose type is missing: the first half of the id passes for the type, and the rest
      is a byte short. */
  lemma MissingType(rev: nat, name: Bytes, id: nat, seqNum: nat, rest: Bytes)
    requires rev < REV3
    ensures var s := Word(id) + Word(seqNum) + rest;
      match DecType(s)
      case Fail => true
      case Done(t, u) =>
        match DecAssignBody(rev, name, t, u)
        case Fail => true
        case Done(r, left) => |left| < |rest| && r.EntryAssign? && r.value.Type() == t && !Refused(rev, t)
  {
    var s := Word(id) + Word(seqNum) + rest;
    match DecType(s)
    case Fail =>
    case Done(t, u) =>
      assert |u| == |rest| + 3;
      if DecWords(u).Done? {
        assert |DecWords(u).rest| == |rest| - 1;
        ValueConsumes(rev, t, DecWords(u).rest);
      }
  }

  /** The type as which revision 2.0 reads an assignment of a value it has no form for: what the first half of the id
      happens to name. */
  function Mistaken(id: nat): Parse<Type> {
    DecType(Word(id))
  }

  /** A raw value or an RPC definition sent to a peer of revision 2.0 is never read as what it is. The encoder's error
      goes unnoticed by the sender. An update then always fails at the receiver; an assignment fails, or passes for one
      of another type that has taken bytes from the message behind it, whatever that is. */
  lemma RefusedIsMisread(rev: nat, types: EntryTypes, m: Message, rest: Bytes)
    requires rev < REV3 && (m.EntryAssign? || m.EntryUpdate?) && Refused(rev, m.value.Type())
    requires m.EntryUpdate? ==> types(m.id % 0x1_0000).None? || types(m.id % 0x1_0000) == Some(m.value.Type())
    ensures match DecMessage(rev, types, EncMessage(rev, m) + rest)
      case Fail => true
      case Done(r, left) =>
        && m.EntryAssign? && r.EntryAssign? && |left| < |rest|
        && Mistaken(m.id).Done? && r.value.Type() == Mistaken(m.id).value && !Refused(rev, r.value.Type())
  {
    hide DecType, DecUpdate, DecAssign;
    if m.EntryUpdate? {
      Tagged(rev, types, 0x11, EncUpdate(rev, m.id, m.seqNum, m.value), rest);
      RefusedUpdate(rev, types, m, rest);
    } else {
      Tagged(rev, types, 0x10, EncAssign(rev, m.name, m.id, m.seqNum, m.value, m.flags), rest);
      IsAssign(rev, types, EncAssign(rev, m.name, m.id, m.seqNum, m.value, m.flags) + rest);
      RefusedAssign(rev, m, rest);
    }
  }

  lemma RefusedUpdate(rev: nat, types: EntryTypes, m: Message, rest: Bytes)
    requires rev < REV3 && m.EntryUpdate? && Refused(rev, m.value.Type())
    requires types(m.id % 0x1_0000).None? || types(m.id % 0x1_0000) == Some(m.value.Type())
    ensures DecUpdate(rev, types, EncUpdate(rev, m.id, m.seqNum, m.value) + rest) == Fail
  {
    hide Word, DecWords;
    WordsBack(m.id, m.seqNum, [], rest);
    assert EncUpdate(rev, m.id, m.seqNum, m.value) == Word(m.id) + (Word(m.seqNum) + []);
  }

  lemma RefusedAssign(rev: nat, m: Message, rest: Bytes)
    requires rev < REV3 && m.EntryAssign? && Refused(rev, m.value.Type())
    ensures match DecAssign(rev, EncAssign(rev, m.name, m.id, m.seqNum, m.value, m.flags) + rest)
      case Fail => true
      case Done(r, left) =>
        && r.EntryAssign? && |left| < |rest|
        && Mistaken(m.id).Done? && r.value.Type() == Mistaken(m.id).value && !Refused(rev, r.value.Type())
  {
    hide Word, DecString, EncString, DecAssignBody;
    var body := Word(m.id) + Word(m.seqNum);
    assert EncAssign(rev, m.name, m.id, m.seqNum, m.value, m.flags) == EncString(rev, m.name) + body;
    Reassociate(EncString(rev, m.name), body, rest);
    StringBack(rev, m.name, body + rest);
    MissingType(rev, CutString(rev, m.name), m.id, m.seqNum, rest);
    assert (body + rest)[0] == Word(m.id)[0];
  }

  /** So a value is read back, and what follows is left, exactly when its revision has a form for it. */
  lemma BackUnlessRefused(rev: nat, types: EntryTypes, m: Message, rest: Bytes)
    requires rev < 0x1_0000 && (m.EntryAssign? || m.EntryUpdate?) && ShortValue(rev, m.value)
    requires m.EntryAssign? ==> Short(rev, m.name)
    requires m.EntryUpdate? && rev < REV3 ==> types(m.id % 0x1_0000) == Some(m.value.Type())
    ensures DecMessage(rev, types, EncMessage(rev, m) + rest) == Done(Received(rev, m).value, rest) <==>
      !Refused(rev, m.value.Type())
  {
    hide DecMessage, EncMessage;
    if Refused(rev, m.value.Type()) {
      RefusedIsMisread(rev, types, m, rest);
    } else {
      MessageBack(rev, types, m, rest);
    }
  }

  /** It passes: the assignment of a raw value under id 0, with two keep-alives behind it, is read as one boolean, under a
      serial nobody sent, and the keep-alives are gone. */
  lemma MisreadPasses(types: EntryTypes)
    ensures var raw, read := EntryAssign([], 0, 1, Raw([]), 0), EntryAssign([], 0, 0x100, Boolean(false), 0);
      DecAll(PROTO2, types, EncAll(PROTO2, [raw, KeepAlive, KeepAlive])) == Some([read])
  {
    hide EncMessage, DecMessage;
    var raw, read := EntryAssign([], 0, 1, Raw([]), 0), EntryAssign([], 0, 0x100, Boolean(false), 0);
    WrittenRaw();
    ReadBoolean(types);
    var s: Bytes := [0x10, 0, 0, 0, 0, 0, 1] + [0, 0];
    assert [raw, KeepAlive, KeepAlive][1..] == [KeepAlive, KeepAlive];
    assert [KeepAlive, KeepAlive][1..] == [KeepAlive] && [KeepAlive][1..] == [];
    assert EncAll(PROTO2, [KeepAlive]) == [0] && EncAll(PROTO2, [KeepAlive, KeepAlive]) == [0, 0];
    assert EncAll(PROTO2, [raw, KeepAlive, KeepAlive]) == s;
    assert [read] + [] == [read];
  }

  const PROTO2 := 0x0200

  lemma WrittenRaw()
    ensures EncMessage(PROTO2, EntryAssign([], 0, 1, Raw([]), 0)) == [0x10, 0, 0, 0, 0, 0, 1]
    ensures EncMessage(PROTO2, KeepAlive) == [0]
  {
  }

  lemma ReadBoolean(types: EntryTypes)
    ensures DecMessage(PROTO2, types, [0x10, 0, 0, 0, 0, 0, 1] + [0, 0])
      == Done(EntryAssign([], 0, 0x100, Boolean(false), 0), [])
  {
    hide DecString, DecWords;
    var s: Bytes := [0x10, 0, 0, 0, 0, 0, 1] + [0, 0];
    EmptyString(s[1..], [0, 0, 0, 1, 0, 0]);
    assert [0, 0, 0, 1, 0, 0][1..] == [0, 0, 1, 0, 0];
    ZeroAnd256([0]);
    assert DecAssign(PROTO2, s[1..]) == DecAssignBody(PROTO2, [], BooleanT, [0, 0, 1, 0, 0]);
  }

  lemma EmptyString(s: Bytes, rest: Bytes)
    requires s == [0, 0] + rest
    ensures DecString(PROTO2, s) == Done([], rest)
  {
    assert s[..2] == [0, 0] && s[2..] == rest && rest[..0] == [] && rest[0..] == rest;
  }

  lemma ZeroAnd256(rest: Bytes)
    requires rest == [0]
    ensures DecWords([0, 0, 1, 0, 0]) == Done((0, 0x100), rest)
  {
    var s: Bytes := [0, 0, 1, 0, 0];
    assert s[..2] == [0, 0] && s[2..] == [1, 0, 0] && [1, 0, 0][..2] == [1, 0] && [1, 0, 0][2..] == [0];
  }
}
