/** The loops of `SavePersistentImpl` and `LoadPersistent` (Storage.cpp) over a text, against PersistentFile.dfy. */
module PersistentStream {
  import opened Basics
  import opened Messages
  import opened StringTokens
  import opened PersistentFile
  import Base64

  // ---------------------------------------------------------------------------------------------
  // Saving
  // ---------------------------------------------------------------------------------------------

  lemma {:induction false} JoinedNext(parts: seq<Bytes>, i: nat)
    requires i < |parts|
    ensures Joined(parts[..i + 1]) == Joined(parts[..i]) + ((if i == 0 then [] else [COMMA]) + parts[i])
  {
    if i == 0 {
      assert parts[..1] == [parts[0]] && parts[..0] == [];
    } else {
      var t := parts[1..];
      JoinedNext(t, i - 1);
      assert parts[..i + 1][1..] == t[..i] && parts[..i][1..] == t[..i - 1];
      if i == 1 {
        assert parts[..1] == [parts[0]] && t[..0] == [] && t[..1] == [t[0]];
      } else {
        var more := [COMMA] + parts[i];
        assert Joined(parts[..i + 1]) == parts[0] + ([COMMA] + (Joined(t[..i - 1]) + more));
        Assoc([COMMA], Joined(t[..i - 1]), more);
        Assoc(parts[0], [COMMA] + Joined(t[..i - 1]), more);
      }
    }
  }

  /** The loops over the elements of an array, with their `first` flag. */
  method WriteList(os: Bytes, parts: seq<Bytes>) returns (out: Bytes)
    ensures out == os + Joined(parts)
  {
    var list: Bytes := [];
    var first := true;
    for i := 0 to |parts|
      invariant first == (i == 0) && list == Joined(parts[..i])
    {
      JoinedNext(parts, i);
      var part: Bytes := [];
      if !first {
        part := [COMMA];
      }
      first := false;
      list := list + (part + parts[i]);
    }
    assert parts[..|parts|] == parts;
    out := os + list;
  }

  method WriteQuotedList(os: Bytes, ss: seq<Bytes>) returns (out: Bytes)
    ensures out == os + Joined(QuotedAll(ss))
  {
    var parts: seq<Bytes> := [];
    for i := 0 to |ss|
      invariant parts == QuotedAll(ss)[..i]
    {
      var token := WriteString([], ss[i]);
      assert token == Quoted(ss[i]);
      parts := parts + [token];
    }
    assert parts == QuotedAll(ss);
    out := WriteList(os, parts);
  }

  method WriteValueText(lib: DoubleText, os: Bytes, v: Value) returns (out: Bytes)
    ensures out == os + ValueText(lib, v)
  {
    match v {
      case Boolean(b) => out := os + (if b then TRUE else FALSE);
      case Double(d) => out := os + lib.show(d);
      case String(s) => out := WriteString(os, s);
      case Raw(s) =>
        var encoded := Base64.Encode(s);
        out := os + encoded;
      case BooleanArray(bs) => out := WriteList(os, BoolTexts(bs));
      case DoubleArray(ds) => out := WriteList(os, Shown(lib, ds));
      case StringArray(ss) => out := WriteQuotedList(os, ss);
      case Rpc(_) => out := os + [];
    }
  }

  lemma JoinLine(os: Bytes, word: Bytes, name: Bytes, text: Bytes)
    ensures os + word + name + [EQUALS] + text + [NEWLINE] == os + (word + (name + ([EQUALS] + text)) + [NEWLINE])
  {
    Assoc(os + word + name, [EQUALS], text);
    Assoc(os + word, name, [EQUALS] + text);
    Assoc(os, word, name + ([EQUALS] + text));
    Assoc(os, word + (name + ([EQUALS] + text)), [NEWLINE]);
  }

  /** SavePersistentImpl. */
  method SavePersistentImpl(lib: DoubleText, entries: seq<NamedValue>) returns (os: Bytes)
    ensures os == Saved(lib, entries)
  {
    os := HEADER + [NEWLINE];
    ghost var start := os;
    assert entries[0..] == entries;
    for i := 0 to |entries|
      invariant os + Body(lib, entries[i..]) == start + Body(lib, entries)
    {
      ghost var was := os;
      var e := entries[i];
      assert entries[i..][1..] == entries[i + 1..];
      var word := TypeWord(e.1);
      if word.Some? {
        os := os + word.value;
        os := WriteString(os, e.0);
        os := os + [EQUALS];
        os := WriteValueText(lib, os, e.1);
        os := os + [NEWLINE];
        JoinLine(was, word.value, Quoted(e.0), ValueText(lib, e.1));
        Assoc(was, Line(lib, word.value, e) + [NEWLINE], Body(lib, entries[i + 1..]));
      } else {
        assert [] + Body(lib, entries[i + 1..]) == Body(lib, entries[i + 1..]);
      }
    }
    assert os + [] == os;
  }

  // ---------------------------------------------------------------------------------------------
  // Loading
  // ---------------------------------------------------------------------------------------------

  /** What was read already in front of what is still to be read. */
  ghost function Behind<T>(done: seq<T>, r: Option<seq<T>>): Option<seq<T>> {
    match r
    case None => None
    case Some(more) => Some(done + more)
  }

  lemma BehindNext<T>(done: seq<T>, x: T, r: Option<seq<T>>)
    ensures Behind(done + [x], r) == Behind(done, match r case None => None case Some(more) => Some([x] + more))
  {
    if r.Some? {
      assert done + [x] + r.value == done + ([x] + r.value);
    }
  }

  lemma BehindNothing<T>(r: Option<seq<T>>)
    ensures Behind([], r) == r
  {
    if r.Some? {
      assert [] + r.value == r.value;
    }
  }

  /** Token, checks and unescaping together. */
  method TakeQuoted(line: Bytes) returns (r: Option<(Bytes, Bytes)>)
    ensures r == ReadQuoted(line)
  {
    var tok, rest := ReadStringToken(line);
    assert |tok| + |rest| == |tok + rest| == |line|;
    if |tok| < 2 || tok[|tok| - 1] != QUOTE {
      return None;
    }
    var str := UnescapeString(tok);
    if str.None? {
      return None;
    }
    r := Some((str.value, rest));
  }

  method ParseBools(text: Bytes) returns (r: Option<seq<bool>>)
    ensures r == ReadBools(text)
  {
    var line, booleanArray: seq<bool> := text, [];
    BehindNothing(ReadBools(text));
    while line != []
      invariant Behind(booleanArray, ReadBools(line)) == ReadBools(text)
      decreases |line|
    {
      var (tok, rest) := Split(line, COMMA);
      assert |line| > 0;
      var elem := Trim(tok, IsBlank);
      if elem != TRUE && elem != FALSE {
        return None;
      }
      BehindNext(booleanArray, elem == TRUE, ReadBools(rest));
      booleanArray := booleanArray + [elem == TRUE];
      line := rest;
    }
    assert booleanArray + [] == booleanArray;
    r := Some(booleanArray);
  }

  method ParseDoubles(lib: DoubleText, text: Bytes) returns (r: Option<seq<Bits64>>)
    ensures r == ReadDoubles(lib, text)
  {
    var line, doubleArray: seq<Bits64> := text, [];
    BehindNothing(ReadDoubles(lib, text));
    while line != []
      invariant Behind(doubleArray, ReadDoubles(lib, line)) == ReadDoubles(lib, text)
      decreases |line|
    {
      var (tok, rest) := Split(line, COMMA);
      assert |line| > 0;
      var d := lib.read(Trim(tok, IsBlank));
      if d.None? {
        return None;
      }
      BehindNext(doubleArray, d.value, ReadDoubles(lib, rest));
      doubleArray := doubleArray + [d.value];
      line := rest;
    }
    assert doubleArray + [] == doubleArray;
    r := Some(doubleArray);
  }

  method ParseStrings(text: Bytes) returns (r: Option<seq<Bytes>>)
    ensures r == ReadStrings(text)
  {
    var line, stringArray: seq<Bytes> := text, [];
    BehindNothing(ReadStrings(text));
    while line != []
      invariant Behind(stringArray, ReadStrings(line)) == ReadStrings(text)
      decreases |line|
    {
      ghost var was := line;
      var elem := TakeQuoted(line);
      if elem.None? {
        return None;
      }
      line := LTrim(elem.value.1, IsBlank);
      if line == [] {
        return Some(stringArray + [elem.value.0]);
      }
      if line[0] != COMMA {
        return None;
      }
      line := LTrim(line[1..], IsBlank);
      BehindNext(stringArray, elem.value.0, ReadStrings(line));
      stringArray := stringArray + [elem.value.0];
    }
    assert stringArray + [] == stringArray;
    r := Some(stringArray);
  }

  method ParseValue(lib: DoubleText, t: Type, line: Bytes) returns (r: Option<Value>)
    ensures r == ReadValue(lib, t, line)
  {
    match t {
      case BooleanT =>
        r := if line == TRUE then Some(Boolean(true)) else if line == FALSE then Some(Boolean(false)) else None;
      case DoubleT =>
        var d := lib.read(line);
        r := if d.None? then None else Some(Double(d.value));
      case StringT =>
        var s := TakeQuoted(line);
        r := if s.None? then None else Some(String(s.value.0));
      case RawT =>
        var plain := Base64.Decode(line);
        r := Some(Raw(plain));
      case BooleanArrayT =>
        var bs := ParseBools(line);
        r := if bs.None? then None else Some(BooleanArray(bs.value));
      case DoubleArrayT =>
        var ds := ParseDoubles(lib, line);
        r := if ds.None? then None else Some(DoubleArray(ds.value));
      case StringArrayT =>
        var ss := ParseStrings(line);
        r := if ss.None? then None else Some(StringArray(ss.value));
      case RpcT => r := None;
    }
  }

  /** One round of the second loop of LoadPersistent. */
  method ParseLine(lib: DoubleText, raw: Bytes) returns (e: Option<NamedValue>)
    ensures e == ReadLine(lib, raw)
  {
    var line := Trim(raw, IsSpace);
    if line == [] || line[0] == 59 || line[0] == 35 {
      return None;
    }
    var typed := ReadType(line);
    if typed.None? {
      return None;
    }
    e := ParseNamed(lib, typed.value.0, typed.value.1);
  }

  method ParseNamed(lib: DoubleText, t: Type, text: Bytes) returns (e: Option<NamedValue>)
    ensures e == ReadNamed(lib, t, text)
  {
    var name := TakeQuoted(text);
    if name.None? {
      return None;
    }
    var line := LTrim(name.value.1, IsBlank);
    if line == [] || line[0] != EQUALS {
      return None;
    }
    line := LTrim(line[1..], IsBlank);
    var value := ParseValue(lib, t, line);
    if value.None? || name.value.0 == [] {
      return None;
    }
    e := Some((name.value.0, value.value));
  }

  /** The first loop of LoadPersistent: the first line that is neither blank nor a comment. */
  method FindHeader(text: Bytes) returns (r: Option<(Bytes, Bytes)>)
    ensures r == FirstLine(text)
  {
    var is_ := text;
    while is_ != []
      invariant FirstLine(is_) == FirstLine(text)
      decreases |is_|
    {
      var (line, rest) := Split(is_, NEWLINE);
      assert |is_| > 0;
      if !Ignored(Trim(line, IsSpace)) {
        return Some((line, rest));
      }
      is_ := rest;
    }
    r := None;
  }

  /** The second loop of LoadPersistent: line after line. */
  method ParseLines(lib: DoubleText, text: Bytes) returns (entries: seq<NamedValue>)
    ensures entries == Entries(lib, text)
  {
    var is_ := text;
    entries := [];
    while is_ != []
      invariant entries + Entries(lib, is_) == Entries(lib, text)
      decreases |is_|
    {
      var (line, rest) := Split(is_, NEWLINE);
      assert |is_| > 0;
      var e := ParseLine(lib, line);
      NextEntry(lib, entries, is_, line, rest);
      if e.Some? {
        entries := entries + [e.value];
      }
      is_ := rest;
    }
    assert entries + [] == entries;
  }

  lemma NextEntry(lib: DoubleText, done: seq<NamedValue>, text: Bytes, line: Bytes, rest: Bytes)
    requires text != [] && Split(text, NEWLINE) == (line, rest)
    ensures done + Entries(lib, text)
      == (match ReadLine(lib, line) case None => done case Some(e) => done + [e]) + Entries(lib, rest)
  {
    hide ReadLine, Split;
    assert |text| > 0;
    var more := Entries(lib, rest);
    assert Entries(lib, text) == OfLine(lib, line) + more;
    assert done + (OfLine(lib, line) + more) == done + OfLine(lib, line) + more;
    assert done + [] == done;
  }

  /** LoadPersistent, up to the entries it then stores; a first line other than the header, as it stands, ends it. */
  method LoadPersistent(lib: DoubleText, text: Bytes) returns (r: Option<seq<NamedValue>>)
    ensures r == Loaded(lib, text)
  {
    var header := FindHeader(text);
    if header.None? || header.value.0 != HEADER {
      return None;
    }
    var entries := ParseLines(lib, header.value.1);
    r := Some(entries);
  }
}
