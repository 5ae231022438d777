/**
  The persistent file (Storage.cpp): what `SavePersistentImpl` prints for a list of entries and what `LoadPersistent`
  reads from a text. Reading what was printed gives the same entries exactly when every entry is one the format can
  hold.
 */
module PersistentFile {
  import opened Basics
  import opened Messages
  import opened StringTokens
  import Base64

  /** How the C++ library prints and reads doubles; nothing is assumed of it. */
  datatype DoubleText = DoubleText(show: Bits64 -> Bytes, read: Bytes -> Option<Bits64>)

  const SPACE: byte := 32
  const COMMA: byte := 44
  // "true", "false", "boolean", "double", "string", "raw", "array", "[NetworkTables Storage 3.0]"
  const TRUE: Bytes := [116, 114, 117, 101]
  const FALSE: Bytes := [102, 97, 108, 115, 101]
  const BOOLEAN: Bytes := [98, 111, 111, 108, 101, 97, 110]
  const DOUBLE: Bytes := [100, 111, 117, 98, 108, 101]
  const STRING: Bytes := [115, 116, 114, 105, 110, 103]
  const RAW: Bytes := [114, 97, 119]
  const ARRAY: Bytes := [97, 114, 114, 97, 121]
  const HEADER: Bytes := [91, 78, 101, 116, 119, 111, 114, 107, 84, 97, 98, 108, 101, 115, 32,
                          83, 116, 111, 114, 97, 103, 101, 32, 51, 46, 48, 93]

  // ---------------------------------------------------------------------------------------------
  // Printing
  // ---------------------------------------------------------------------------------------------

  function BoolText(b: bool): Bytes { if b then TRUE else FALSE }

  /** Parts with a comma between any two. */
  function Joined(parts: seq<Bytes>): Bytes {
    if parts == [] then [] else if |parts| == 1 then parts[0] else parts[0] + ([COMMA] + Joined(parts[1..]))
  }

  function BoolTexts(bs: seq<bool>): (r: seq<Bytes>)
    ensures |r| == |bs|
  {
    seq(|bs|, i requires 0 <= i < |bs| => BoolText(bs[i]))
  }

  function QuotedAll(ss: seq<Bytes>): (r: seq<Bytes>)
    ensures |r| == |ss|
  {
    seq(|ss|, i requires 0 <= i < |ss| => Quoted(ss[i]))
  }

  function Shown(lib: DoubleText, ds: seq<Bits64>): (r: seq<Bytes>)
    ensures |r| == |ds|
  {
    seq(|ds|, i requires 0 <= i < |ds| => lib.show(ds[i]))
  }

  /** The type word before the name, with the space after it; None for a value that is not saved. */
  function TypeWord(v: Value): Option<Bytes> {
    match v
    case Boolean(_) => Some(BOOLEAN + [SPACE])
    case Double(_) => Some(DOUBLE + [SPACE])
    case String(_) => Some(STRING + [SPACE])
    case Raw(_) => Some(RAW + [SPACE])
    case BooleanArray(_) => Some(ARRAY + [SPACE] + (BOOLEAN + [SPACE]))
    case DoubleArray(_) => Some(ARRAY + [SPACE] + (DOUBLE + [SPACE]))
    case StringArray(_) => Some(ARRAY + [SPACE] + (STRING + [SPACE]))
    case Rpc(_) => None
  }

  function ValueText(lib: DoubleText, v: Value): Bytes {
    match v
    case Boolean(b) => BoolText(b)
    case Double(d) => lib.show(d)
    case String(s) => Quoted(s)
    case Raw(s) => Base64.Encoded(s)
    case BooleanArray(bs) => Joined(BoolTexts(bs))
    case DoubleArray(ds) => Joined(Shown(lib, ds))
    case StringArray(ss) => Joined(QuotedAll(ss))
    case Rpc(_) => []
  }

  type NamedValue = (Bytes, Value)

  /** One line, without its newline. */
  function Line(lib: DoubleText, word: Bytes, e: NamedValue): Bytes {
    word + (Quoted(e.0) + ([EQUALS] + ValueText(lib, e.1)))
  }

  function Body(lib: DoubleText, es: seq<NamedValue>): Bytes {
    if es == [] then []
    else (match TypeWord(es[0].1) case None => [] case Some(word) => Line(lib, word, es[0]) + [NEWLINE]) + Body(lib, es[1..])
  }

  function Saved(lib: DoubleText, es: seq<NamedValue>): Bytes {
    HEADER + [NEWLINE] + Body(lib, es)
  }

  // ---------------------------------------------------------------------------------------------
  // Reading
  // ---------------------------------------------------------------------------------------------

  /** The index of the first `c`, or the length. */
  function Find(s: Bytes, c: byte): (k: nat)
    ensures k <= |s| && (k < |s| ==> s[k] == c) && forall i :: 0 <= i < k ==> s[i] != c
  {
    if s == [] || s[0] == c then 0 else 1 + Find(s[1..], c)
  }

  /** StringRef::split, and getline with `c` the newline: up to the first `c`, and behind it. */
  function Split(s: Bytes, c: byte): (r: (Bytes, Bytes))
    ensures |r.1| < |s| || r == (s, [])
  {
    var k := Find(s, c);
    (s[..k], if k < |s| then s[k + 1..] else [])
  }

  predicate IsSpace(c: byte) { c == 32 || 9 <= c <= 13 }

  predicate IsBlank(c: byte) { c == 32 || c == 9 }

  function LTrim(s: Bytes, drop: byte -> bool): (r: Bytes)
    ensures |r| <= |s| && (s != [] && !drop(s[0]) ==> r == s)
  {
    if s != [] && drop(s[0]) then LTrim(s[1..], drop) else s
  }

  function RTrim(s: Bytes, drop: byte -> bool): (r: Bytes)
    ensures |r| <= |s| && (s != [] && !drop(s[|s| - 1]) ==> r == s)
  {
    if s != [] && drop(s[|s| - 1]) then RTrim(s[..|s| - 1], drop) else s
  }

  function Trim(s: Bytes, drop: byte -> bool): (r: Bytes)
    ensures s != [] && !drop(s[0]) && !drop(s[|s| - 1]) ==> r == s
  {
    RTrim(LTrim(s, drop), drop)
  }

  /** A quoted string and the rest of the line. None when the quote is missing or not closed, and when the source would
      read on past the token. */
  function ReadQuoted(s: Bytes): (r: Option<(Bytes, Bytes)>)
    ensures r.Some? ==> |r.value.1| < |s|
  {
    var (tok, rest) := Token(s);
    assert |tok| + |rest| == |tok + rest| == |s|;
    if |tok| < 2 || tok[|tok| - 1] != QUOTE then None
    else match Unescaped(tok[1..|tok| - 1])
      case None => None
      case Some(str) => Some((str, rest))
  }

  function ReadType(line: Bytes): Option<(Type, Bytes)> {
    var (tok, rest) := Split(line, SPACE);
    if tok == BOOLEAN then Some((BooleanT, rest))
    else if tok == DOUBLE then Some((DoubleT, rest))
    else if tok == STRING then Some((StringT, rest))
    else if tok == RAW then Some((RawT, rest))
    else if tok == ARRAY then
      var (tok2, rest2) := Split(rest, SPACE);
      if tok2 == BOOLEAN then Some((BooleanArrayT, rest2))
      else if tok2 == DOUBLE then Some((DoubleArrayT, rest2))
      else if tok2 == STRING then Some((StringArrayT, rest2))
      else None
    else None
  }

  function ReadBools(line: Bytes): Option<seq<bool>>
    decreases |line|
  {
    if line == [] then Some([])
    else
      var (tok, rest) := Split(line, COMMA);
      var t := Trim(tok, IsBlank);
      if t != TRUE && t != FALSE then None
      else if |rest| >= |line| then None
      else match ReadBools(rest)
        case None => None
        case Some(bs) => Some([t == TRUE] + bs)
  }

  function ReadDoubles(lib: DoubleText, line: Bytes): Option<seq<Bits64>>
    decreases |line|
  {
    if line == [] then Some([])
    else
      var (tok, rest) := Split(line, COMMA);
      match lib.read(Trim(tok, IsBlank))
      case None => None
      case Some(d) =>
        if |rest| >= |line| then None
        else match ReadDoubles(lib, rest)
          case None => None
          case Some(ds) => Some([d] + ds)
  }

  function ReadStrings(line: Bytes): Option<seq<Bytes>>
    decreases |line|
  {
    if line == [] then Some([])
    else match ReadQuoted(line)
      case None => None
      case Some((s, rest)) =>
        var r := LTrim(rest, IsBlank);
        if r == [] then Some([s])
        else if r[0] != COMMA then None
        else match ReadStrings(LTrim(r[1..], IsBlank))
          case None => None
          case Some(ss) => Some([s] + ss)
  }

  function ReadValue(lib: DoubleText, t: Type, line: Bytes): Option<Value> {
    match t
    case BooleanT => if line == TRUE then Some(Boolean(true)) else if line == FALSE then Some(Boolean(false)) else None
    case DoubleT => (match lib.read(line) case None => None case Some(d) => Some(Double(d)))
    case StringT => (match ReadQuoted(line) case None => None case Some((s, _)) => Some(String(s)))
    case RawT => Some(Raw(Base64.Decoded(line)))
    case BooleanArrayT => (match ReadBools(line) case None => None case Some(bs) => Some(BooleanArray(bs)))
    case DoubleArrayT => (match ReadDoubles(lib, line) case None => None case Some(ds) => Some(DoubleArray(ds)))
    case StringArrayT => (match ReadStrings(line) case None => None case Some(ss) => Some(StringArray(ss)))
    case RpcT => None
  }

  /** Blank lines and comments. */
  predicate Ignored(line: Bytes) {
    line == [] || line[0] == 59 || line[0] == 35
  }

  /** The entry of a line, or None when the line is skipped. */
  function ReadLine(lib: DoubleText, raw: Bytes): Option<NamedValue> {
    var line := Trim(raw, IsSpace);
    if Ignored(line) then None
    else match ReadType(line)
      case None => None
      case Some((t, rest)) => ReadNamed(lib, t, rest)
  }

  function ReadNamed(lib: DoubleText, t: Type, line: Bytes): Option<NamedValue> {
    match ReadQuoted(line)
    case None => None
    case Some((name, rest)) =>
      var r := LTrim(rest, IsBlank);
      if r == [] || r[0] != EQUALS then None
      else match ReadValue(lib, t, LTrim(r[1..], IsBlank))
        case None => None
        case Some(v) => if name == [] then None else Some((name, v))
  }

  /** The first line that is not ignored, and what follows it. */
  function FirstLine(text: Bytes): Option<(Bytes, Bytes)>
    decreases |text|
  {
    if text == [] then None
    else
      var (line, rest) := Split(text, NEWLINE);
      if !Ignored(Trim(line, IsSpace)) then Some((line, rest))
      else if |rest| < |text| then FirstLine(rest)
      else None
  }

  function Entries(lib: DoubleText, text: Bytes): seq<NamedValue>
    decreases |text|
  {
    if text == [] then []
    else
      var (line, rest) := Split(text, NEWLINE);
      OfLine(lib, line) + (if |rest| < |text| then Entries(lib, rest) else [])
  }

  function OfLine(lib: DoubleText, line: Bytes): seq<NamedValue> {
    match ReadLine(lib, line) case None => [] case Some(e) => [e]
  }

  /** None when the first line that counts is not the header, as it stands. */
  function Loaded(lib: DoubleText, text: Bytes): Option<seq<NamedValue>> {
    match FirstLine(text)
    case None => None
    case Some((line, rest)) => if line == HEADER then Some(Entries(lib, rest)) else None
  }

  // ---------------------------------------------------------------------------------------------
  // What comes back
  // ---------------------------------------------------------------------------------------------

  /** What the format can hold. */
  predicate HoldsString(s: Bytes) { QUOTE !in s }

  ghost predicate HoldsStrings(ss: seq<Bytes>) {
    && (forall i :: 0 <= i < |ss| ==> HoldsString(ss[i]))
    && (forall i :: 0 <= i < |ss| - 1 ==> !EndsInBackslash(ss[i]))
  }

  ghost predicate Holds(lib: DoubleText, e: NamedValue) {
    e.0 != [] && HoldsString(e.0) && !EndsInBackslash(e.0) && HoldsValue(lib, e.1)
  }

  ghost predicate HoldsValue(lib: DoubleText, v: Value) {
    match v
    case Double(d) => ReadsBack(lib, d)
    case DoubleArray(ds) => forall d :: d in ds ==> ReadsBack(lib, d)
    case String(s) => HoldsString(s)
    case StringArray(ss) => HoldsStrings(ss)
    case Rpc(_) => false
    case _ => true
  }

  /** The library reads back the double that it prints. */
  predicate ReadsBack(lib: DoubleText, d: Bits64) {
    lib.read(lib.show(d)) == Some(d)
  }

  /** The library prints the double as a word: no newline or comma in it, no white space around it. */
  predicate IsWord(lib: DoubleText, d: Bits64) {
    var s := lib.show(d);
    s != [] && NEWLINE !in s && COMMA !in s && !IsSpace(s[0]) && !IsSpace(s[|s| - 1])
  }

  /** All doubles in a value are printed so; nothing is asked of other values. */
  ghost predicate Printed(lib: DoubleText, v: Value) {
    match v
    case Double(d) => IsWord(lib, d)
    case DoubleArray(ds) => forall d :: d in ds ==> IsWord(lib, d)
    case _ => true
  }

  /** A printed string is read back with its quotes turned into backslashes; but when it ends in a backslash and
      something follows it, it is read back longer or not at all. */
  lemma QuotedBack(s: Bytes, tail: Bytes)
    ensures !EndsInBackslash(s) || tail == [] ==> ReadQuoted(Quoted(s) + tail) == Some((Mangled(s), tail))
    ensures EndsInBackslash(s) && tail != [] ==> var r := ReadQuoted(Quoted(s) + tail); r.None? || |r.value.0| > |s|
  {
    hide Token, Mangled;
    var tok := Token(Quoted(s) + tail).0;
    TokenBack(s, tail);
    if tok == Quoted(s) {
      assert Quoted(s)[1..|Quoted(s)| - 1] == Escaped(s) == Escaped(s) + [];
      UnescapeBack(s, []);
      assert Mangled(s) + [] == Mangled(s);
    } else {
      var more := tok[1 + |Escaped(s)|..|tok| - 1];
      Insides(tok, Escaped(s));
      UnescapeBack(s, more);
    }
  }

  lemma Insides(tok: Bytes, e: Bytes)
    requires |tok| >= |e| + 2 && [QUOTE] + e + [QUOTE] <= tok
    ensures tok[1..|tok| - 1] == e + tok[1 + |e|..|tok| - 1]
  {
    assert tok[..|e| + 2] == [QUOTE] + e + [QUOTE];
    assert forall i :: 0 <= i < |e| ==> tok[1 + i] == ([QUOTE] + e + [QUOTE])[1 + i] == e[i];
  }

  lemma StringBack(s: Bytes)
    ensures ReadQuoted(Quoted(s)) == Some((Mangled(s), []))
  {
    QuotedBack(s, []);
    assert Quoted(s) + [] == Quoted(s);
  }

  lemma JoinedStart(ss: seq<Bytes>)
    requires ss != []
    ensures Joined(QuotedAll(ss)) != [] && Joined(QuotedAll(ss))[0] == QUOTE
  {
  }

  lemma RestQuoted(ss: seq<Bytes>)
    requires |ss| > 1
    ensures Joined(QuotedAll(ss)) == Quoted(ss[0]) + ([COMMA] + Joined(QuotedAll(ss[1..])))
  {
    assert QuotedAll(ss)[1..] == QuotedAll(ss[1..]);
  }

  /** A string array is read back exactly when the format holds it. */
  lemma {:induction false} StringsBack(ss: seq<Bytes>)
    ensures ReadStrings(Joined(QuotedAll(ss))) == Some(ss) <==> HoldsStrings(ss)
  {
    if ss == [] {
    } else if |ss| == 1 {
      StringBack(ss[0]);
      MangledSame(ss[0]);
      assert ss == [ss[0]];
    } else {
      var tail := [COMMA] + Joined(QuotedAll(ss[1..]));
      RestQuoted(ss);
      QuotedBack(ss[0], tail);
      MangledSame(ss[0]);
      JoinedStart(ss[1..]);
      assert tail[1..] == Joined(QuotedAll(ss[1..]));
      StringsBack(ss[1..]);
      HoldsRest(ss);
      if !EndsInBackslash(ss[0]) {
        NextString(Quoted(ss[0]) + tail, Mangled(ss[0]), tail);
        assert ss == [ss[0]] + ss[1..];
      }
    }
  }

  lemma HoldsRest(ss: seq<Bytes>)
    requires |ss| > 1
    ensures HoldsStrings(ss) <==> HoldsString(ss[0]) && !EndsInBackslash(ss[0]) && HoldsStrings(ss[1..])
  {
    var t := ss[1..];
    if HoldsString(ss[0]) && !EndsInBackslash(ss[0]) && HoldsStrings(t) {
      assert forall i :: 0 < i < |ss| ==> ss[i] == t[i - 1];
    }
    if HoldsStrings(ss) {
      assert forall i :: 0 <= i < |t| ==> t[i] == ss[i + 1];
    }
  }

  /** One element, its comma, and the next element right behind it. */
  lemma NextString(line: Bytes, s: Bytes, tail: Bytes)
    requires ReadQuoted(line) == Some((s, tail)) && |tail| > 1 && tail[0] == COMMA && tail[1] == QUOTE
    ensures ReadStrings(line) == match ReadStrings(tail[1..]) case None => None case Some(ss) => Some([s] + ss)
  {
    assert LTrim(tail, IsBlank) == tail && LTrim(tail[1..], IsBlank) == tail[1..];
  }

  lemma FindComma(word: Bytes, more: Bytes)
    requires COMMA !in word
    ensures Split(word, COMMA) == (word, []) && Split(word + ([COMMA] + more), COMMA) == (word, more)
  {
    SplitAt(word, COMMA, more);
    var k := Find(word, COMMA);
    assert k == |word| && word[..k] == word;
  }

  lemma SplitAt(word: Bytes, c: byte, more: Bytes)
    requires c !in word
    ensures Split(word + ([c] + more), c) == (word, more)
  {
    var s := word + ([c] + more);
    var k := Find(s, c);
    assert s[|word|] == c;
    assert forall i :: 0 <= i < |word| ==> s[i] == word[i];
    assert k == |word|;
    assert s[..k] == word && s[k + 1..] == more;
  }

  lemma {:induction false} BoolsBack(bs: seq<bool>)
    ensures ReadBools(Joined(BoolTexts(bs))) == Some(bs)
  {
    if bs != [] {
      var rest := BoolTexts(bs[1..]);
      assert BoolTexts(bs)[1..] == rest;
      assert BoolTexts(bs) == [BoolText(bs[0])] + rest;
      BoolsBack(bs[1..]);
      NextBool(bs[0], rest, bs[1..]);
      assert bs == [bs[0]] + bs[1..];
    }
  }

  lemma NextBool(b: bool, rest: seq<Bytes>, bs: seq<bool>)
    requires ReadBools(Joined(rest)) == Some(bs) && (rest == [] <==> bs == [])
    ensures ReadBools(Joined([BoolText(b)] + rest)) == Some([b] + bs)
  {
    var word := BoolText(b);
    FindComma(word, Joined(rest));
    if rest == [] {
      assert Joined([word] + rest) == word;
      ReadsBool(word, b, [], bs);
    } else {
      assert ([word] + rest)[1..] == rest;
      ReadsBool(word + ([COMMA] + Joined(rest)), b, Joined(rest), bs);
    }
  }

  lemma ReadsBool(line: Bytes, b: bool, rest: Bytes, bs: seq<bool>)
    requires line != [] && Split(line, COMMA) == (BoolText(b), rest) && |rest| < |line| && ReadBools(rest) == Some(bs)
    ensures ReadBools(line) == Some([b] + bs)
  {
  }

  lemma StringValueBack(lib: DoubleText, s: Bytes)
    ensures ReadValue(lib, StringT, Quoted(s)) == Some(String(s)) <==> HoldsString(s)
  {
    StringBack(s);
    MangledSame(s);
  }

  lemma StringArrayBack(lib: DoubleText, ss: seq<Bytes>)
    ensures ReadValue(lib, StringArrayT, Joined(QuotedAll(ss))) == Some(StringArray(ss)) <==> HoldsStrings(ss)
  {
    var line := Joined(QuotedAll(ss));
    StringsBack(ss);
    ArrayOf(lib, line, ss);
  }

  lemma ArrayOf(lib: DoubleText, line: Bytes, ss: seq<Bytes>)
    ensures ReadValue(lib, StringArrayT, line) == Some(StringArray(ss)) <==> ReadStrings(line) == Some(ss)
  {
  }

  /** A value whose doubles are printed as words is read back exactly when the format holds it. */
  lemma ValueBack(lib: DoubleText, v: Value)
    requires Printed(lib, v) && !v.Rpc?
    ensures ReadValue(lib, v.Type(), ValueText(lib, v)) == Some(v) <==> HoldsValue(lib, v)
  {
    if v.String? {
      StringValueBack(lib, v.s);
    } else if v.StringArray? {
      StringArrayBack(lib, v.strings);
    } else if v.Raw? {
      Base64.RoundTrip(v.s);
    } else if v.BooleanArray? {
      BoolsBack(v.bools);
    } else if v.DoubleArray? {
      DoublesBack(lib, v.doubles);
    }
  }

  /** An array of doubles is read back exactly when each of them is. */
  lemma {:induction false} DoublesBack(lib: DoubleText, ds: seq<Bits64>)
    requires forall d :: d in ds ==> IsWord(lib, d)
    ensures ReadDoubles(lib, Joined(Shown(lib, ds))) == Some(ds) <==> forall d :: d in ds ==> ReadsBack(lib, d)
    decreases |ds|
  {
    hide IsWord, ReadDoubles, Joined;
    if ds == [] {
      NoDoublesBack(lib);
    } else {
      var d, t := ds[0], ds[1..];
      var rest := Shown(lib, t);
      assert ds == [d] + t;
      assert Shown(lib, ds)[1..] == rest;
      assert Shown(lib, ds) == [lib.show(d)] + rest;
      DoublesBack(lib, t);
      NoDoublesBack(lib);
      NextDouble(lib, d, rest);
      if ReadDoubles(lib, Joined(rest)).Some? && lib.read(lib.show(d)).Some? {
        SameCons(lib.read(lib.show(d)).value, ReadDoubles(lib, Joined(rest)).value, d, t);
      }
    }
  }

  lemma SameCons<T>(a: T, s: seq<T>, b: T, t: seq<T>)
    ensures [a] + s == [b] + t <==> a == b && s == t
  {
    if [a] + s == [b] + t {
      assert a == ([a] + s)[0] && s == ([a] + s)[1..] && t == ([b] + t)[1..];
    }
  }

  lemma NoDoublesBack(lib: DoubleText)
    ensures ReadDoubles(lib, Joined(Shown(lib, []))) == ReadDoubles(lib, []) == Some([])
  {
  }

  /** The first double and then the others. */
  lemma NextDouble(lib: DoubleText, d: Bits64, rest: seq<Bytes>)
    requires IsWord(lib, d) && (rest == [] ==> ReadDoubles(lib, Joined(rest)) == Some([]))
    ensures ReadDoubles(lib, Joined([lib.show(d)] + rest)) ==
      match lib.read(lib.show(d))
      case None => None
      case Some(x) => (match ReadDoubles(lib, Joined(rest)) case None => None case Some(xs) => Some([x] + xs))
  {
    var word := lib.show(d);
    FindComma(word, Joined(rest));
    assert Trim(word, IsBlank) == word;
    if rest == [] {
      assert Joined([word] + rest) == word;
    } else {
      assert ([word] + rest)[1..] == rest;
      assert Joined([word] + rest) == word + ([COMMA] + Joined(rest));
    }
  }

  // ---------------------------------------------------------------------------------------------
  // Lines
  // ---------------------------------------------------------------------------------------------

  lemma WordBack(lib: DoubleText, v: Value, rest: Bytes)
    requires !v.Rpc?
    ensures ReadType(TypeWord(v).value + rest) == Some((v.Type(), rest))
  {
    match v
    case Boolean(_) => OneWord(BOOLEAN, rest);
    case Double(_) => OneWord(DOUBLE, rest);
    case String(_) => OneWord(STRING, rest);
    case Raw(_) => OneWord(RAW, rest);
    case BooleanArray(_) => TwoWords(BOOLEAN, rest);
    case DoubleArray(_) => TwoWords(DOUBLE, rest);
    case StringArray(_) => TwoWords(STRING, rest);
  }

  lemma OneWord(word: Bytes, rest: Bytes)
    requires SPACE !in word
    ensures Split(word + [SPACE] + rest, SPACE) == (word, rest)
  {
    Assoc(word, [SPACE], rest);
    SplitAt(word, SPACE, rest);
  }

  lemma TwoWords(word: Bytes, rest: Bytes)
    requires SPACE !in word
    ensures Split(ARRAY + [SPACE] + (word + [SPACE]) + rest, SPACE) == (ARRAY, word + [SPACE] + rest)
    ensures Split(word + [SPACE] + rest, SPACE) == (word, rest)
  {
    Assoc(ARRAY + [SPACE], word + [SPACE], rest);
    OneWord(ARRAY, word + [SPACE] + rest);
    OneWord(word, rest);
  }

  /** The text of a value starts with no blank. */
  lemma ValueStart(lib: DoubleText, v: Value)
    requires Printed(lib, v)
    ensures LTrim(ValueText(lib, v), IsBlank) == ValueText(lib, v)
  {
    var t := ValueText(lib, v);
    if t != [] {
      match v
      case Boolean(_) =>
      case String(_) =>
      case Raw(s) =>
        Base64.EncodedAlphabet(s);
        assert t[0] in Base64.Encoded(s);
      case BooleanArray(bs) => assert t[0] == BoolTexts(bs)[0][0];
      case Double(_) =>
      case DoubleArray(ds) =>
        assert ds[0] in ds;
        assert t[0] == Shown(lib, ds)[0][0];
      case StringArray(ss) => JoinedStart(ss);
    }
  }

  /** Name and value are read back exactly when the format holds both. */
  lemma NamedBack(lib: DoubleText, e: NamedValue)
    requires Printed(lib, e.1) && !e.1.Rpc?
    ensures ReadNamed(lib, e.1.Type(), Quoted(e.0) + ([EQUALS] + ValueText(lib, e.1))) == Some(e) <==> Holds(lib, e)
  {
    var text := ValueText(lib, e.1);
    var tail := [EQUALS] + text;
    QuotedBack(e.0, tail);
    MangledSame(e.0);
    ValueBack(lib, e.1);
    ValueStart(lib, e.1);
    assert tail[1..] == text;
  }

  /** A printed line neither starts nor ends in white space, is no comment, and holds no newline. */
  lemma LineShape(lib: DoubleText, word: Bytes, e: NamedValue)
    requires Printed(lib, e.1) && TypeWord(e.1) == Some(word)
    ensures var line := Line(lib, word, e);
      line != [] && !IsSpace(line[0]) && !IsSpace(line[|line| - 1]) && !Ignored(line) && NEWLINE !in line
  {
    var line, text := Line(lib, word, e), ValueText(lib, e.1);
    ValueShape(lib, e.1);
    QuotedShape(e.0);
    assert line[|line| - 1] == if text == [] then EQUALS else text[|text| - 1];
    assert line == word + Quoted(e.0) + [EQUALS] + text;
    assert NEWLINE !in word;
  }

  ghost predicate Sound(s: Bytes) {
    NEWLINE !in s && (s != [] ==> !IsSpace(s[|s| - 1]))
  }

  lemma QuotedShape(s: Bytes)
    ensures Sound(Quoted(s))
  {
    EscapedPlain(s);
  }

  lemma {:induction false} JoinedShape(parts: seq<Bytes>)
    requires forall p :: p in parts ==> Sound(p) && p != []
    ensures Sound(Joined(parts)) && (parts != [] ==> Joined(parts) != [])
  {
    if parts != [] {
      assert parts[0] in parts;
    }
    if |parts| > 1 {
      JoinedShape(parts[1..]);
      SoundAfter(parts[0], Joined(parts[1..]));
    }
  }

  lemma SoundAfter(part: Bytes, last: Bytes)
    requires Sound(part) && Sound(last) && last != []
    ensures Sound(part + ([COMMA] + last))
  {
    var s := part + ([COMMA] + last);
    assert s[|s| - 1] == last[|last| - 1];
  }

  lemma ValueShape(lib: DoubleText, v: Value)
    requires Printed(lib, v)
    ensures Sound(ValueText(lib, v))
  {
    match v
    case Boolean(_) =>
    case String(s) => QuotedShape(s);
    case Raw(s) =>
      Base64.EncodedAlphabet(s);
      var text := Base64.Encoded(s);
      assert text != [] ==> text[|text| - 1] in text;
    case BooleanArray(bs) =>
      assert forall p :: p in BoolTexts(bs) ==> p == TRUE || p == FALSE;
      JoinedShape(BoolTexts(bs));
    case Double(_) =>
    case DoubleArray(ds) =>
      forall p | p in Shown(lib, ds)
        ensures Sound(p) && p != []
      {
        var i :| 0 <= i < |ds| && p == lib.show(ds[i]);
        assert ds[i] in ds;
      }
      JoinedShape(Shown(lib, ds));
    case StringArray(ss) =>
      forall p | p in QuotedAll(ss)
        ensures Sound(p) && p != []
      {
        var i :| 0 <= i < |ss| && p == Quoted(ss[i]);
        QuotedShape(ss[i]);
      }
      JoinedShape(QuotedAll(ss));
    case Rpc(_) =>
  }

  /** A line is read back exactly when the format holds its entry. */
  lemma LineBack(lib: DoubleText, word: Bytes, e: NamedValue)
    requires Printed(lib, e.1) && TypeWord(e.1) == Some(word)
    ensures ReadLine(lib, Line(lib, word, e)) == Some(e) <==> Holds(lib, e)
  {
    LineShape(lib, word, e);
    WordBack(lib, e.1, Quoted(e.0) + ([EQUALS] + ValueText(lib, e.1)));
    NamedBack(lib, e);
  }

  // ---------------------------------------------------------------------------------------------
  // Files
  // ---------------------------------------------------------------------------------------------

  /** What is read from the line of an entry, if it has one. */
  function OfEntry(lib: DoubleText, e: NamedValue): seq<NamedValue> {
    match TypeWord(e.1) case None => [] case Some(word) => OfLine(lib, Line(lib, word, e))
  }

  lemma EntryBack(lib: DoubleText, e: NamedValue)
    requires Printed(lib, e.1)
    ensures |OfEntry(lib, e)| <= 1 && (OfEntry(lib, e) == [e] <==> Holds(lib, e))
  {
    match TypeWord(e.1)
    case None =>
    case Some(word) => LineBack(lib, word, e);
  }

  /** The first entry's line and the rest of the body are read one after the other. */
  lemma FirstEntry(lib: DoubleText, es: seq<NamedValue>)
    requires es != [] && Printed(lib, es[0].1)
    ensures Entries(lib, Body(lib, es)) == OfEntry(lib, es[0]) + Entries(lib, Body(lib, es[1..]))
  {
    match TypeWord(es[0].1)
    case None =>
      assert Body(lib, es) == Body(lib, es[1..]);
      assert [] + Entries(lib, Body(lib, es[1..])) == Entries(lib, Body(lib, es[1..]));
    case Some(word) =>
      var line, rest := Line(lib, word, es[0]), Body(lib, es[1..]);
      LineShape(lib, word, es[0]);
      Assoc(line, [NEWLINE], rest);
      SplitAt(line, NEWLINE, rest);
  }

  ghost predicate AllHold(lib: DoubleText, es: seq<NamedValue>) {
    forall e :: e in es ==> Holds(lib, e)
  }

  lemma FirstAndRest(lib: DoubleText, es: seq<NamedValue>)
    requires es != []
    ensures AllHold(lib, es) <==> Holds(lib, es[0]) && AllHold(lib, es[1..])
  {
    assert es == [es[0]] + es[1..];
  }

  /** The entries are read back exactly when the format holds every one. */
  lemma {:induction false} BodyBack(lib: DoubleText, es: seq<NamedValue>)
    requires forall e :: e in es ==> Printed(lib, e.1)
    ensures |Entries(lib, Body(lib, es))| <= |es|
    ensures Entries(lib, Body(lib, es)) == es <==> AllHold(lib, es)
  {
    if es != [] {
      var rest := Entries(lib, Body(lib, es[1..]));
      FirstEntry(lib, es);
      EntryBack(lib, es[0]);
      BodyBack(lib, es[1..]);
      FirstAndRest(lib, es);
      SameParts(OfEntry(lib, es[0]), rest, es[0], es[1..]);
      assert es == [es[0]] + es[1..];
    }
  }

  lemma SameParts<T>(front: seq<T>, rest: seq<T>, x: T, xs: seq<T>)
    requires |front| <= 1 && |rest| <= |xs|
    ensures front + rest == [x] + xs <==> front == [x] && rest == xs
  {
    if front + rest == [x] + xs {
      assert |front| == 1;
      assert front[0] == (front + rest)[0];
      assert rest == (front + rest)[1..] == ([x] + xs)[1..] == xs;
    }
  }

  /** Loading what was saved gives the same entries exactly when the format holds every one of them. */
  lemma SaveLoad(lib: DoubleText, es: seq<NamedValue>)
    requires forall e :: e in es ==> Printed(lib, e.1)
    ensures Loaded(lib, Saved(lib, es)) == Some(es) <==> AllHold(lib, es)
  {
    HeaderBack(lib, Body(lib, es));
    BodyBack(lib, es);
  }

  lemma HeaderBack(lib: DoubleText, body: Bytes)
    ensures Loaded(lib, HEADER + [NEWLINE] + body) == Some(Entries(lib, body))
  {
    Assoc(HEADER, [NEWLINE], body);
    HeaderCounts();
    SplitAt(HEADER, NEWLINE, body);
  }

  lemma HeaderCounts()
    ensures NEWLINE !in HEADER && Trim(HEADER, IsSpace) == HEADER && !Ignored(HEADER)
  {
  }

  /** Name and value of a line whatever its text: the value is what the type makes of the text behind the equals sign. */
  lemma NamedText(lib: DoubleText, t: Type, name: Bytes, text: Bytes)
    requires name != [] && HoldsString(name) && !EndsInBackslash(name)
    ensures ReadNamed(lib, t, Quoted(name) + ([EQUALS] + text)) ==
      match ReadValue(lib, t, LTrim(text, IsBlank)) case None => None case Some(v) => Some((name, v))
  {
    hide ReadQuoted, Quoted, Mangled, ReadValue;
    QuotedBack(name, [EQUALS] + text);
    MangledSame(name);
    assert ([EQUALS] + text)[1..] == text;
  }

  lemma WordLine(lib: DoubleText, word: Bytes, rest: Bytes)
    requires word != [] && SPACE !in word && !IsSpace(word[0]) && !Ignored(word) && rest != [] && !IsSpace(rest[|rest| - 1])
    ensures ReadLine(lib, word + [SPACE] + rest) ==
      match ReadType(word + [SPACE] + rest) case None => None case Some((t, more)) => ReadNamed(lib, t, more)
  {
    hide ReadType, ReadNamed;
    var line := word + [SPACE] + rest;
    assert line[0] == word[0] && line[|line| - 1] == rest[|rest| - 1];
  }

  /** Whatever stands behind the equals sign of a `double` line, the entry is what the library reads in the trimmed text,
      and there is none where it reads nothing. */
  lemma DoubleLine(lib: DoubleText, name: Bytes, text: Bytes)
    requires name != [] && HoldsString(name) && !EndsInBackslash(name)
    requires text != [] ==> !IsSpace(text[|text| - 1])
    ensures ReadLine(lib, DOUBLE + [SPACE] + (Quoted(name) + ([EQUALS] + text))) ==
      match lib.read(LTrim(text, IsBlank)) case None => None case Some(d) => Some((name, Double(d)))
  {
    hide ReadLine, ReadNamed, ReadValue, Quoted, LTrim, ReadType;
    var rest := Quoted(name) + ([EQUALS] + text);
    assert rest[|rest| - 1] == if text == [] then EQUALS else text[|text| - 1];
    DoubleWordLine(lib, rest);
    NamedText(lib, DoubleT, name, text);
    ReadDouble(lib, LTrim(text, IsBlank));
  }

  lemma DoubleWordLine(lib: DoubleText, rest: Bytes)
    requires rest != [] && !IsSpace(rest[|rest| - 1])
    ensures ReadLine(lib, DOUBLE + [SPACE] + rest) == ReadNamed(lib, DoubleT, rest)
  {
    hide ReadLine, ReadType, ReadNamed;
    WordLine(lib, DOUBLE, rest);
    WordBack(lib, Double(0), rest);
  }

  lemma ReadDouble(lib: DoubleText, text: Bytes)
    ensures ReadValue(lib, DoubleT, text) == match lib.read(text) case None => None case Some(d) => Some(Double(d))
  {
  }
}
