/**
  Quoted strings of the persistent file (Storage.cpp): what `WriteString` prints, what `ReadStringToken` cuts off a
  line, and what `UnescapeString` makes of it.
 */
module StringTokens {
  import opened Basics

  const QUOTE: byte := 34
  const BACKSLASH: byte := 92
  const TAB: byte := 9
  const NEWLINE: byte := 10
  const EQUALS: byte := 61

  // ---------------------------------------------------------------------------------------------
  // Printing
  // ---------------------------------------------------------------------------------------------

  predicate IsPrint(c: byte) { 32 <= c < 127 }

  /** llvm::hexdigit, upper case. */
  function HexDigit(d: nat): byte
    requires d < 16
  {
    if d < 10 then 48 + d else 55 + d
  }

  function EscapeChar(c: byte): (r: Bytes)
    ensures 1 <= |r| <= 4
  {
    if c == BACKSLASH then [BACKSLASH, BACKSLASH]
    else if c == TAB then [BACKSLASH, 116]
    else if c == NEWLINE then [BACKSLASH, 110]
    else if c == QUOTE then [BACKSLASH, QUOTE]
    else if IsPrint(c) && c != EQUALS then [c]
    else [BACKSLASH, 120, HexDigit(c / 16), HexDigit(c % 16)]
  }

  function Escaped(s: Bytes): Bytes {
    if s == [] then [] else EscapeChar(s[0]) + Escaped(s[1..])
  }

  function Quoted(s: Bytes): Bytes {
    [QUOTE] + Escaped(s) + [QUOTE]
  }

  lemma Assoc(a: Bytes, b: Bytes, c: Bytes)
    ensures a + b + c == a + (b + c)
  {
  }

  /** WriteString. */
  method WriteString(os: Bytes, str: Bytes) returns (out: Bytes)
    ensures out == os + Quoted(str)
  {
    out := os + [QUOTE];
    ghost var start := out;
    assert str[0..] == str;
    for i := 0 to |str|
      invariant out + Escaped(str[i..]) == start + Escaped(str)
    {
      var c := str[i];
      ghost var was := out;
      if c == BACKSLASH {
        out := out + [BACKSLASH, BACKSLASH];
      } else if c == TAB {
        out := out + [BACKSLASH, 116];
      } else if c == NEWLINE {
        out := out + [BACKSLASH, 110];
      } else if c == QUOTE {
        out := out + [BACKSLASH, QUOTE];
      } else if IsPrint(c) && c != EQUALS {
        out := out + [c];
      } else {
        out := out + [BACKSLASH, 120, HexDigit(c / 16), HexDigit(c % 16)];
      }
      assert str[i..][1..] == str[i + 1..];
      Assoc(was, EscapeChar(c), Escaped(str[i + 1..]));
    }
    assert out == start + Escaped(str);
    out := out + [QUOTE];
    Assoc(os, [QUOTE], Escaped(str));
    Assoc(os, [QUOTE] + Escaped(str), [QUOTE]);
  }

  /** Every printed byte is a printable character other than the equals sign. */
  predicate Plain(s: Bytes) {
    forall c :: c in s ==> IsPrint(c) && c != EQUALS
  }

  lemma {:induction false} EscapedPlain(s: Bytes)
    ensures Plain(Escaped(s))
  {
    if s != [] {
      EscapedPlain(s[1..]);
    }
  }

  // ---------------------------------------------------------------------------------------------
  // Cutting off a token
  // ---------------------------------------------------------------------------------------------

  predicate Closes(source: Bytes, pos: nat)
    requires 0 < pos < |source|
  {
    source[pos] == QUOTE && source[pos - 1] != BACKSLASH
  }

  /** Just behind the first quote at or after `pos` that has no backslash before it, or the end. */
  function TokenEnd(source: Bytes, pos: nat): (end: nat)
    requires 0 < pos <= |source|
    ensures pos <= end <= |source|
    decreases |source| - pos
  {
    if pos == |source| then pos
    else if Closes(source, pos) then pos + 1
    else TokenEnd(source, pos + 1)
  }

  /** The token and the rest; an empty token when there is no opening quote. */
  function Token(source: Bytes): (r: (Bytes, Bytes))
    ensures r.0 + r.1 == source
  {
    if source == [] || source[0] != QUOTE then ([], source)
    else
      var end := TokenEnd(source, 1);
      (source[..end], source[end..])
  }

  method ReadStringToken(source: Bytes) returns (token: Bytes, tail: Bytes)
    ensures (token, tail) == Token(source)
  {
    if source == [] || source[0] != QUOTE {
      return [], source;
    }
    var size := |source|;
    var pos := 1;
    while pos < size
      invariant 1 <= pos <= size && TokenEnd(source, 1) == TokenEnd(source, pos)
    {
      if source[pos] == QUOTE && source[pos - 1] != BACKSLASH {
        pos := pos + 1;
        return source[..pos], source[pos..];
      }
      pos := pos + 1;
    }
    return source[..pos], source[pos..];
  }

  /** No quote in `s` lacks a backslash before it. */
  ghost predicate NoBareQuote(s: Bytes) {
    forall k :: 0 <= k < |s| && s[k] == QUOTE ==> k > 0 && s[k - 1] == BACKSLASH
  }

  lemma {:induction false} EscapedNoBareQuote(s: Bytes)
    ensures NoBareQuote(Escaped(s))
  {
    if s != [] {
      EscapedNoBareQuote(s[1..]);
      var a, b := EscapeChar(s[0]), Escaped(s[1..]);
      forall k | 0 <= k < |a + b| && (a + b)[k] == QUOTE
        ensures k > 0 && (a + b)[k - 1] == BACKSLASH
      {
        if k >= |a| {
          assert b[k - |a|] == QUOTE;
        }
      }
    }
  }

  predicate EndsInBackslash(s: Bytes) {
    s != [] && s[|s| - 1] == BACKSLASH
  }

  /** A printed string ends in a backslash exactly when the string does. */
  lemma {:induction false} EscapedEnd(s: Bytes)
    ensures EndsInBackslash(Escaped(s)) <==> EndsInBackslash(s)
    ensures s != [] ==> Escaped(s) != []
  {
    if |s| > 1 {
      EscapedEnd(s[1..]);
      assert Escaped(s)[|Escaped(s)| - 1] == Escaped(s[1..])[|Escaped(s[1..])| - 1];
    } else if |s| == 1 {
      assert Escaped(s) == EscapeChar(s[0]) + Escaped([]);
    }
  }

  /** The scan passes over a stretch without a closing quote. */
  lemma {:induction false} ScanOver(source: Bytes, lo: nat, hi: nat)
    requires 0 < lo <= hi <= |source|
    requires forall p :: lo <= p < hi ==> !Closes(source, p)
    ensures TokenEnd(source, lo) == TokenEnd(source, hi)
    decreases hi
  {
    if lo < hi {
      ScanOver(source, lo, hi - 1);
      assert !Closes(source, hi - 1);
    }
  }

  /** Where the scan of a printed string goes on. */
  lemma ScanQuoted(s: Bytes, tail: Bytes)
    ensures var source, close := Quoted(s) + tail, 1 + |Escaped(s)|;
      && TokenEnd(source, 1) == TokenEnd(source, close)
      && source[close] == QUOTE
      && (source[close - 1] == BACKSLASH <==> EndsInBackslash(s))
  {
    var e := Escaped(s);
    var source, close := Quoted(s) + tail, 1 + |e|;
    EscapedNoBareQuote(s);
    forall p | 1 <= p < close
      ensures !Closes(source, p)
    {
      assert source[p] == e[p - 1];
      assert p > 1 ==> source[p - 1] == e[p - 2];
    }
    ScanOver(source, 1, close);
    EscapedEnd(s);
    assert e != [] ==> source[close - 1] == e[|e| - 1];
  }

  /** The token of a printed string is that string exactly when it does not end in a backslash, or when nothing that
      follows it ends the token earlier or later: nothing follows. */
  lemma TokenBack(s: Bytes, tail: Bytes)
    ensures !EndsInBackslash(s) ==> Token(Quoted(s) + tail) == (Quoted(s), tail)
    ensures EndsInBackslash(s) && tail == [] ==> Token(Quoted(s) + tail) == (Quoted(s), tail)
    ensures EndsInBackslash(s) ==> Quoted(s) <= Token(Quoted(s) + tail).0
    ensures EndsInBackslash(s) && tail != [] ==> |Token(Quoted(s) + tail).0| > |Quoted(s)|
  {
    var source, close := Quoted(s) + tail, 1 + |Escaped(s)|;
    ScanQuoted(s, tail);
    var end := TokenEnd(source, 1);
    if !EndsInBackslash(s) {
      assert end == close + 1;
    } else {
      assert end == TokenEnd(source, close + 1);
      assert tail != [] ==> end > close + 1;
    }
    assert source[..close + 1] == Quoted(s) && source[close + 1..] == tail;
    assert source[..end][..close + 1] == Quoted(s);
  }

  // ---------------------------------------------------------------------------------------------
  // Unescaping
  // ---------------------------------------------------------------------------------------------

  predicate IsXDigit(c: byte) { 48 <= c <= 57 || 65 <= c <= 70 || 97 <= c <= 102 }

  function FromXDigit(c: byte): (d: nat)
    requires IsXDigit(c)
    ensures d < 16
  {
    if c >= 97 then c - 97 + 10 else if c >= 65 then c - 65 + 10 else c - 48
  }

  /** The first escape or plain byte of a token's inside: the byte pushed and how much was read. None when a backslash
      is the last byte: the source then reads on past the token. */
  function FirstByte(s: Bytes): (r: Option<(byte, nat)>)
    requires s != []
    ensures r.Some? ==> 0 < r.value.1 <= |s|
  {
    if s[0] != BACKSLASH then Some((s[0], 1))
    else if |s| == 1 then None
    else if s[1] == BACKSLASH || s[1] == QUOTE then Some((BACKSLASH, 2))
    else if s[1] == 116 then Some((TAB, 2))
    else if s[1] == 110 then Some((NEWLINE, 2))
    else if s[1] == 120 then
      if |s| == 2 || !IsXDigit(s[2]) then Some((120, 2))
      else if |s| == 3 || !IsXDigit(s[3]) then Some((FromXDigit(s[2]), 3))
      else Some((FromXDigit(s[2]) * 16 + FromXDigit(s[3]), 4))
    else Some((BACKSLASH, 2))
  }

  /** The unescaped inside of a token. */
  function Unescaped(s: Bytes): Option<Bytes>
    decreases |s|
  {
    if s == [] then Some([])
    else match FirstByte(s)
      case None => None
      case Some(first) => Push(first.0, Unescaped(s[first.1..]))
  }

  function Push(c: byte, r: Option<Bytes>): Option<Bytes> {
    match r
    case None => None
    case Some(t) => Some([c] + t)
  }

  /** One round of UnescapeString's loop: the byte pushed and where the next round starts. */
  method NextByte(inside: Bytes, start: nat) returns (ok: bool, c: byte, s: nat)
    requires start < |inside|
    ensures ok == FirstByte(inside[start..]).Some? && start < s <= |inside|
    ensures ok ==> FirstByte(inside[start..]).value == (c, s - start)
  {
    s := start;
    if inside[s] != BACKSLASH {
      return true, inside[s], s + 1;
    }
    s := s + 1;
    if s == |inside| {
      return false, 0, s;
    }
    c := inside[s];
    if c == BACKSLASH || c == QUOTE {
      c := inside[s - 1];
    } else if c == 116 {
      c := TAB;
    } else if c == 110 {
      c := NEWLINE;
    } else if c == 120 {
      if s + 1 < |inside| && IsXDigit(inside[s + 1]) {
        s := s + 1;
        c := FromXDigit(inside[s]);
        if s + 1 < |inside| && IsXDigit(inside[s + 1]) {
          s := s + 1;
          c := c * 16 + FromXDigit(inside[s]);
        }
      }
    } else {
      c := inside[s - 1];
    }
    ok, s := true, s + 1;
  }

  /** UnescapeString, for a token with both its quotes. */
  method UnescapeString(source: Bytes) returns (dest: Option<Bytes>)
    requires |source| >= 2
    ensures dest == Unescaped(source[1..|source| - 1])
  {
    var inside := source[1..|source| - 1];
    var s := 0;
    var out: Bytes := [];
    assert inside[0..] == inside;
    PrependNothing(Unescaped(inside));
    while s != |inside|
      invariant s <= |inside| && Prepend(out, Unescaped(inside[s..])) == Unescaped(inside)
    {
      var ok, c, next := NextByte(inside, s);
      if !ok {
        return None;
      }
      assert inside[s..][next - s..] == inside[next..];
      Pushed(inside[s..], inside[next..], out, out + [c]);
      out := out + [c];
      s := next;
    }
    assert inside[s..] == [] && out + [] == out;
    dest := Some(out);
  }

  lemma PrependNothing(r: Option<Bytes>)
    ensures Prepend([], r) == r
  {
    if r.Some? {
      assert [] + r.value == r.value;
    }
  }

  ghost function Prepend(t: Bytes, r: Option<Bytes>): Option<Bytes> {
    match r
    case None => None
    case Some(u) => Some(t + u)
  }

  lemma Pushed(s: Bytes, more: Bytes, was: Bytes, out: Bytes)
    requires s != [] && FirstByte(s).Some?
    requires out == was + [FirstByte(s).value.0] && more == s[FirstByte(s).value.1..]
    ensures Prepend(out, Unescaped(more)) == Prepend(was, Unescaped(s))
  {
    if Unescaped(more).Some? {
      Assoc(was, [FirstByte(s).value.0], Unescaped(more).value);
    }
  }

  /** The string that comes back: every double quote has become a backslash. */
  function Mangled(s: Bytes): (r: Bytes)
    ensures |r| == |s|
  {
    if s == [] then [] else [if s[0] == QUOTE then BACKSLASH else s[0]] + Mangled(s[1..])
  }

  lemma FirstOfEscaped(c: byte, rest: Bytes)
    ensures FirstByte(EscapeChar(c) + rest) == Some((if c == QUOTE then BACKSLASH else c, |EscapeChar(c)|))
  {
    HexBack(c / 16);
    HexBack(c % 16);
  }

  lemma HexBack(d: nat)
    requires d < 16
    ensures IsXDigit(HexDigit(d)) && FromXDigit(HexDigit(d)) == d
  {
  }

  /** Unescaping a printed string, whatever follows it. */
  lemma {:induction false} UnescapeBack(s: Bytes, tail: Bytes)
    ensures Unescaped(Escaped(s) + tail) == Prepend(Mangled(s), Unescaped(tail))
  {
    if s == [] {
      assert Escaped(s) + tail == tail;
      PrependNothing(Unescaped(tail));
    } else {
      var a, b := EscapeChar(s[0]), Escaped(s[1..]);
      Assoc(a, b, tail);
      FirstOfEscaped(s[0], b + tail);
      assert (a + (b + tail))[|a|..] == b + tail;
      UnescapeBack(s[1..], tail);
      if Unescaped(tail).Some? {
        Assoc([if s[0] == QUOTE then BACKSLASH else s[0]], Mangled(s[1..]), Unescaped(tail).value);
      }
    }
  }

  /** Printing and unescaping give a string back exactly when it holds no double quote. */
  lemma {:induction false} MangledSame(s: Bytes)
    ensures Mangled(s) == s <==> QUOTE !in s
  {
    if s != [] {
      MangledSame(s[1..]);
      assert s == [s[0]] + s[1..];
      assert Mangled(s)[1..] == Mangled(s[1..]);
    }
  }
}
