/**
  The text of the persistent file as a person reads and edits it: the words, escapes and lines that are printed, written
  out, and the spaces, comments and mistakes that a reader puts up with.
 */
module FileText {
  import opened Basics
  import opened Messages
  import opened StringTokens
  import opened PersistentFile
  import Base64

  /** A string literal of this file as bytes; no others than the characters of ASCII are in them. */
  function Ascii(s: string): (r: Bytes)
    ensures |r| == |s|
  {
    seq(|s|, i requires 0 <= i < |s| => Code(s[i]))
  }

  function Code(c: char): byte {
    if c < 127 as char then c as int else 0
  }

  // ---------------------------------------------------------------------------------------------
  // Printing
  // ---------------------------------------------------------------------------------------------

  lemma EmptyFile(lib: DoubleText)
    ensures Saved(lib, []) == Ascii("[NetworkTables Storage 3.0]\n")
  {
    hide Ascii;
    assert HEADER == Ascii("[NetworkTables Storage 3.0]") by {
      HeaderText();
    }
    assert Ascii("[NetworkTables Storage 3.0]") + [10] == Ascii("[NetworkTables Storage 3.0]\n") by {
      NewlineText();
    }
    assert HEADER + [NEWLINE] + [] == HEADER + [NEWLINE];
  }

  lemma HeaderText()
    ensures HEADER == Ascii("[NetworkTables Storage 3.0]")
  {
  }

  lemma NewlineText()
    ensures Ascii("[NetworkTables Storage 3.0]") + [10] == Ascii("[NetworkTables Storage 3.0]\n")
  {
  }

  /** The words before the name. An RPC definition is not printed. */
  lemma TypeWords(v: Value)
    ensures v.Boolean? ==> TypeWord(v) == Some(Ascii("boolean "))
    ensures v.Double? ==> TypeWord(v) == Some(Ascii("double "))
    ensures v.String? ==> TypeWord(v) == Some(Ascii("string "))
    ensures v.Raw? ==> TypeWord(v) == Some(Ascii("raw "))
    ensures v.BooleanArray? ==> TypeWord(v) == Some(Ascii("array boolean "))
    ensures v.DoubleArray? ==> TypeWord(v) == Some(Ascii("array double "))
    ensures v.StringArray? ==> TypeWord(v) == Some(Ascii("array string "))
    ensures v.Rpc? ==> TypeWord(v) == None
  {
    hide Ascii;
    SimpleWords();
    ArrayWords();
  }

  lemma SimpleWords()
    ensures BOOLEAN + [SPACE] == Ascii("boolean ") && DOUBLE + [SPACE] == Ascii("double ")
    ensures STRING + [SPACE] == Ascii("string ") && RAW + [SPACE] == Ascii("raw ")
  {
  }

  lemma ArrayWords()
    ensures ARRAY + [SPACE] + (BOOLEAN + [SPACE]) == Ascii("array boolean ")
    ensures ARRAY + [SPACE] + (DOUBLE + [SPACE]) == Ascii("array double ")
    ensures ARRAY + [SPACE] + (STRING + [SPACE]) == Ascii("array string ")
  {
  }

  /** How a byte stands in a quoted string: a backslash before a backslash, a quote, `t` for a tab and `n` for a newline;
      printable characters as they are, but not the equals sign; the rest as two upper-case hexadecimal digits. */
  lemma EscapeTable(c: byte)
    ensures c == 92 ==> EscapeChar(c) == Ascii("\\\\")
    ensures c == 9 ==> EscapeChar(c) == Ascii("\\t")
    ensures c == 10 ==> EscapeChar(c) == Ascii("\\n")
    ensures c == 34 ==> EscapeChar(c) == Ascii("\\\"")
    ensures c == 61 ==> EscapeChar(c) == Ascii("\\x3D")
    ensures 32 <= c < 127 && c !in [34, 61, 92] ==> EscapeChar(c) == [c]
    ensures (c < 32 && c !in [9, 10]) || c >= 127 ==>
      EscapeChar(c) == [92, 120, "0123456789ABCDEF"[c / 16] as int, "0123456789ABCDEF"[c % 16] as int]
  {
    HexTable(c / 16);
    HexTable(c % 16);
  }

  lemma HexTable(d: nat)
    requires d < 16
    ensures HexDigit(d) == "0123456789ABCDEF"[d] as int
  {
  }

  /** The texts of values that are not strings. */
  lemma ValueTexts(lib: DoubleText, x: bool, y: bool, d: Bits64, e: Bits64)
    ensures ValueText(lib, Boolean(x)) == if x then Ascii("true") else Ascii("false")
    ensures ValueText(lib, Double(d)) == lib.show(d)
    ensures ValueText(lib, BooleanArray([x, y])) ==
      ValueText(lib, Boolean(x)) + Ascii(",") + ValueText(lib, Boolean(y))
    ensures ValueText(lib, DoubleArray([d, e])) == lib.show(d) + Ascii(",") + lib.show(e)
    ensures ValueText(lib, BooleanArray([])) == ValueText(lib, DoubleArray([])) == ValueText(lib, StringArray([])) == []
  {
    assert Ascii(",") == [COMMA];
    PlainWords();
    assert BoolTexts([x, y])[1..] == [BoolText(y)];
    assert Shown(lib, [d, e])[1..] == [lib.show(e)];
    assert Joined([BoolText(y)]) == BoolText(y) && Joined([lib.show(e)]) == lib.show(e);
    Assoc(BoolText(x), [COMMA], BoolText(y));
    Assoc(lib.show(d), [COMMA], lib.show(e));
  }

  /** Raw bytes in Base64, strings in quotes, two of them with a comma between. */
  lemma StringTexts(lib: DoubleText, s: Bytes, t: Bytes)
    ensures ValueText(lib, Raw(s)) == Base64.Encoded(s)
    ensures ValueText(lib, String(s)) == [34] + Escaped(s) + [34]
    ensures ValueText(lib, StringArray([s, t])) == ([34] + Escaped(s) + [34]) + [44] + ([34] + Escaped(t) + [34])
  {
    assert QuotedAll([s, t])[1..] == [Quoted(t)];
    assert Joined([Quoted(t)]) == Quoted(t);
    Assoc(Quoted(s), [COMMA], Quoted(t));
  }

  /** A file of one entry: header, type, quoted name, equals sign, value, newline. */
  lemma OneEntryFile(lib: DoubleText, name: Bytes, v: Value)
    requires !v.Rpc?
    ensures Saved(lib, [(name, v)]) == Ascii("[NetworkTables Storage 3.0]\n")
      + (TypeWord(v).value + (([34] + Escaped(name) + [34]) + ([61] + ValueText(lib, v))) + [10])
  {
    hide Ascii, TypeWord, ValueText, Escaped;
    EmptyFile(lib);
    TypeWords(v);
    var es := [(name, v)];
    assert es[1..] == [];
    var line := Line(lib, TypeWord(v).value, es[0]);
    assert Body(lib, []) == [];
    assert Body(lib, es) == line + [NEWLINE] + [] == line + [NEWLINE];
    assert Saved(lib, []) == HEADER + [NEWLINE] + [] == HEADER + [NEWLINE];
  }

  // ---------------------------------------------------------------------------------------------
  // Escapes
  // ---------------------------------------------------------------------------------------------

  /** What the escapes are read as. A quote is read as a backslash; an unknown escape as a backslash, without the
      character; `\x` without a digit as `x`. */
  lemma EscapesRead(c: byte, rest: Bytes)
    ensures c != 92 ==> FirstByte([c] + rest) == Some((c, 1))
    ensures FirstByte([92]) == None
    ensures FirstByte([92, 92] + rest) == Some((92, 2))
    ensures FirstByte([92, 34] + rest) == Some((92, 2))
    ensures FirstByte([92, 116] + rest) == Some((9, 2))
    ensures FirstByte([92, 110] + rest) == Some((10, 2))
    ensures c !in [92, 34, 116, 110, 120] ==> FirstByte([92, c] + rest) == Some((92, 2))
  {
  }

  /** Hexadecimal digits in either case; one of them will do. */
  lemma HexRead(d: nat, e: nat, c: byte, rest: Bytes)
    requires d < 16 && e < 16
    ensures FirstByte([92, 120, "0123456789ABCDEF"[d] as int, "0123456789ABCDEF"[e] as int] + rest) == Some((d * 16 + e, 4))
    ensures FirstByte([92, 120, "0123456789abcdef"[d] as int, "0123456789abcdef"[e] as int] + rest) == Some((d * 16 + e, 4))
    ensures c !in Ascii("0123456789abcdefABCDEF") ==>
      && FirstByte([92, 120, "0123456789ABCDEF"[d] as int, c] + rest) == Some((d, 3))
      && FirstByte([92, 120, c] + rest) == Some((120, 2))
    ensures FirstByte([92, 120, "0123456789ABCDEF"[d] as int]) == Some((d, 3)) && FirstByte([92, 120]) == Some((120, 2))
  {
    hide FromXDigit, IsXDigit;
    DigitRead(d);
    DigitRead(e);
    NoDigit(c);
  }

  lemma DigitRead(d: nat)
    requires d < 16
    ensures var upper, lower: byte := "0123456789ABCDEF"[d] as int, "0123456789abcdef"[d] as int;
      IsXDigit(upper) && IsXDigit(lower) && FromXDigit(upper) == FromXDigit(lower) == d
  {
  }

  lemma NoDigit(c: byte)
    ensures c !in Ascii("0123456789abcdefABCDEF") ==> !IsXDigit(c)
  {
    var all := Ascii("0123456789abcdefABCDEF");
    if IsXDigit(c) {
      var i := if c <= 57 then c - 48 else if c <= 70 then c - 65 + 16 else c - 97 + 10;
      assert all[i] == c;
    }
  }

  // ---------------------------------------------------------------------------------------------
  // Lines that are put up with, and lines that are not
  // ---------------------------------------------------------------------------------------------

  /** Blank lines and comments yield nothing, whatever white space is around them. */
  lemma NothingInLine(lib: DoubleText, front: Bytes, text: Bytes, back: Bytes)
    requires (forall c :: c in front ==> IsSpace(c)) && (forall c :: c in back ==> IsSpace(c))
    ensures ReadLine(lib, front) == None
    ensures text != [] && !IsSpace(text[|text| - 1]) && text[0] in [59, 35] ==> ReadLine(lib, front + (text + back)) == None
  {
    hide ReadType, ReadNamed;
    TrimmedAway(front);
    if text != [] && !IsSpace(text[|text| - 1]) && text[0] in [59, 35] {
      TrimmedOff(front, text, back, IsSpace);
    }
  }

  lemma TrimmedAway(s: Bytes)
    requires forall c :: c in s ==> IsSpace(c)
    ensures Trim(s, IsSpace) == []
  {
    LeftOff(s, [], IsSpace);
    assert s + [] == s;
  }

  /** Trimming takes away what may go at both ends and stops at what may not. */
  lemma TrimmedOff(front: Bytes, text: Bytes, back: Bytes, drop: byte -> bool)
    requires (forall c :: c in front ==> drop(c)) && (forall c :: c in back ==> drop(c))
    requires text != [] && !drop(text[0]) && !drop(text[|text| - 1])
    ensures Trim(front + (text + back), drop) == text
  {
    LeftOff(front, text + back, drop);
    assert (text + back)[0] == text[0];
    RightOff(text, back, drop);
  }

  lemma {:induction false} LeftOff(front: Bytes, s: Bytes, drop: byte -> bool)
    requires (forall c :: c in front ==> drop(c)) && (s != [] ==> !drop(s[0]))
    ensures LTrim(front + s, drop) == s
  {
    if front == [] {
      assert front + s == s;
    } else {
      assert (front + s)[0] == front[0] && (front + s)[1..] == front[1..] + s;
      LeftOff(front[1..], s, drop);
    }
  }

  lemma {:induction false} RightOff(s: Bytes, back: Bytes, drop: byte -> bool)
    requires (forall c :: c in back ==> drop(c)) && (s != [] ==> !drop(s[|s| - 1]))
    ensures RTrim(s + back, drop) == s
    decreases |back|
  {
    var t, n := s + back, |back|;
    if back == [] {
      assert t == s;
    } else {
      assert t[|t| - 1] == back[n - 1] && t[..|t| - 1] == s + back[..n - 1];
      RightOff(s, back[..n - 1], drop);
    }
  }

  /** White space around a line changes nothing; so a file with carriage returns is read as one without. */
  lemma SpaceAroundLine(lib: DoubleText, front: Bytes, line: Bytes, back: Bytes)
    requires (forall c :: c in front ==> IsSpace(c)) && (forall c :: c in back ==> IsSpace(c))
    requires line != [] && !IsSpace(line[0]) && !IsSpace(line[|line| - 1])
    ensures ReadLine(lib, front + (line + back)) == ReadLine(lib, line)
  {
    hide ReadType, ReadNamed;
    TrimmedOff(front, line, back, IsSpace);
  }

  lemma SpaceTable(c: byte)
    ensures IsSpace(c) <==> c in [9, 10, 11, 12, 13, 32]
    ensures IsBlank(c) <==> c in [9, 32]
  {
  }

  /** Blanks around the equals sign change nothing. Without the sign, the name or a value the line yields nothing. */
  lemma BlanksAroundEquals(lib: DoubleText, t: Type, name: Bytes, front: Bytes, back: Bytes, text: Bytes)
    requires HoldsString(name) && !EndsInBackslash(name)
    requires (forall c :: c in front ==> c in [9, 32]) && (forall c :: c in back ==> c in [9, 32])
    requires text != [] ==> text[0] !in [9, 32]
    ensures ReadNamed(lib, t, Quoted(name) + (front + ([61] + (back + text)))) ==
      if name == [] then None
      else match ReadValue(lib, t, text) case None => None case Some(v) => Some((name, v))
    ensures text != [] && text[0] != 61 ==> ReadNamed(lib, t, Quoted(name) + (front + text)) == None
    ensures ReadNamed(lib, t, text) == None || text[0] == 34
  {
    hide Quoted, Mangled, ReadValue, Unescaped;
    var after := [61] + (back + text);
    QuotedBack(name, front + after);
    QuotedBack(name, front + text);
    MangledSame(name);
    LeftOff(front, after, IsBlank);
    LeftOff(front, text, IsBlank);
    assert after[1..] == back + text;
    LeftOff(back, text, IsBlank);
  }

  /** Only these words name a type, and only the two words are booleans. */
  lemma WordsRead(lib: DoubleText, word: Bytes, rest: Bytes)
    requires 32 !in word
    ensures ReadType(word + [32] + rest) ==
      if word == Ascii("boolean") then Some((BooleanT, rest))
      else if word == Ascii("double") then Some((DoubleT, rest))
      else if word == Ascii("string") then Some((StringT, rest))
      else if word == Ascii("raw") then Some((RawT, rest))
      else if word == Ascii("array") then ArrayWord(rest)
      else None
    ensures ReadValue(lib, BooleanT, word) ==
      if word == Ascii("true") then Some(Boolean(true)) else if word == Ascii("false") then Some(Boolean(false)) else None
  {
    OneWord(word, rest);
    PlainWords();
  }

  lemma PlainWords()
    ensures BOOLEAN == Ascii("boolean") && DOUBLE == Ascii("double") && STRING == Ascii("string")
    ensures RAW == Ascii("raw") && ARRAY == Ascii("array") && TRUE == Ascii("true") && FALSE == Ascii("false")
  {
  }

  /** The second word of an array type. */
  function ArrayWord(rest: Bytes): Option<(Type, Bytes)> {
    var (word, more) := Split(rest, 32);
    if word == Ascii("boolean") then Some((BooleanArrayT, more))
    else if word == Ascii("double") then Some((DoubleArrayT, more))
    else if word == Ascii("string") then Some((StringArrayT, more))
    else None
  }

  /** One element of an array of booleans, blanks around it and a comma behind it, and then the others. */
  lemma BoolsRead(front: Bytes, word: Bytes, back: Bytes, rest: Bytes)
    requires (forall c :: c in front ==> c in [9, 32]) && (forall c :: c in back ==> c in [9, 32])
    requires word != [] && 44 !in word && word[0] !in [9, 32] && word[|word| - 1] !in [9, 32]
    ensures ReadBools(front + (word + back) + ([44] + rest)) ==
      if word != Ascii("true") && word != Ascii("false") then None
      else match ReadBools(rest) case None => None case Some(bs) => Some([word == Ascii("true")] + bs)
    ensures ReadBools([]) == Some([])
  {
    var tok := front + (word + back);
    FindComma(tok, rest);
    TrimmedOff(front, word, back, IsBlank);
    PlainWords();
  }

  /** The same of doubles, as the library reads them. */
  lemma DoublesRead(lib: DoubleText, front: Bytes, word: Bytes, back: Bytes, rest: Bytes)
    requires (forall c :: c in front ==> c in [9, 32]) && (forall c :: c in back ==> c in [9, 32])
    requires word != [] && 44 !in word && word[0] !in [9, 32] && word[|word| - 1] !in [9, 32]
    ensures ReadDoubles(lib, front + (word + back) + ([44] + rest)) ==
      match lib.read(word)
      case None => None
      case Some(d) => (match ReadDoubles(lib, rest) case None => None case Some(ds) => Some([d] + ds))
    ensures ReadDoubles(lib, []) == Some([])
  {
    var tok := front + (word + back);
    FindComma(tok, rest);
    TrimmedOff(front, word, back, IsBlank);
  }

  /** And of strings: blanks are allowed on both sides of the comma. */
  lemma StringsRead(s: Bytes, front: Bytes, back: Bytes, rest: Bytes)
    requires HoldsString(s) && !EndsInBackslash(s)
    requires (forall c :: c in front ==> c in [9, 32]) && (forall c :: c in back ==> c in [9, 32])
    requires rest != [] ==> rest[0] !in [9, 32]
    ensures ReadStrings(Quoted(s) + (front + ([44] + (back + rest)))) ==
      match ReadStrings(rest) case None => None case Some(ss) => Some([s] + ss)
    ensures ReadStrings(Quoted(s) + front) == Some([s])
    ensures rest != [] && rest[0] != 44 ==> ReadStrings(Quoted(s) + (front + rest)) == None
    ensures rest != [] && rest[0] != 34 ==> ReadStrings(rest) == None
  {
    hide Quoted, Mangled, Unescaped;
    var after := [44] + (back + rest);
    QuotedBack(s, front + after);
    QuotedBack(s, front);
    QuotedBack(s, front + rest);
    MangledSame(s);
    LeftOff(front, after, IsBlank);
    LeftOff(front, rest, IsBlank);
    LeftOff(front, [], IsBlank);
    assert front + [] == front;
    assert after[1..] == back + rest;
    LeftOff(back, rest, IsBlank);
  }

  // ---------------------------------------------------------------------------------------------
  // Files
  // ---------------------------------------------------------------------------------------------

  /** Lines are read one by one; a bad one takes nothing with it. */
  lemma LineByLine(lib: DoubleText, line: Bytes, rest: Bytes)
    requires 10 !in line
    ensures Entries(lib, line + ([10] + rest)) ==
      (match ReadLine(lib, line) case None => [] case Some(e) => [e]) + Entries(lib, rest)
    ensures Entries(lib, []) == []
  {
    hide ReadLine;
    SplitAt(line, NEWLINE, rest);
  }

  /** Blank lines and comments may stand above the header; any other first line makes the reader refuse the file. */
  lemma HeaderFirst(lib: DoubleText, line: Bytes, rest: Bytes)
    requires 10 !in line
    ensures var text, trimmed := line + ([10] + rest), Trim(line, IsSpace);
      Loaded(lib, text) ==
        if trimmed == [] || trimmed[0] in [59, 35] then Loaded(lib, rest)
        else if line == Ascii("[NetworkTables Storage 3.0]") then Some(Entries(lib, rest)) else None
    ensures Loaded(lib, []) == None
  {
    hide Entries, Trim;
    SplitAt(line, NEWLINE, rest);
    HeaderText();
  }
}
