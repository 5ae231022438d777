/**
  UTF-8, UTF-16 and UTF-32 (ConvertUTF.cpp): the encodings themselves, and `isLegalUTF8` against them (section 4 of
  RFC 3629).
 */
module Utf {
  import opened Basics

  type Unit16 = x: nat | x < 0x1_0000
  type Unit32 = x: nat | x < 0x1_0000_0000

  predicate IsSurrogate(c: nat) { 0xD800 <= c <= 0xDFFF }

  predicate IsHigh(c: nat) { 0xD800 <= c <= 0xDBFF }

  predicate IsLow(c: nat) { 0xDC00 <= c <= 0xDFFF }

  predicate IsScalar(c: nat) { c <= 0x10FFFF && !IsSurrogate(c) }

  predicate AllScalar(cs: seq<nat>) {
    forall i :: 0 <= i < |cs| ==> IsScalar(cs[i])
  }

  /** Code points, surrogates included. */
  predicate AllPoints(cs: seq<nat>) {
    forall i :: 0 <= i < |cs| ==> cs[i] <= 0x10FFFF
  }

  /** How many bytes, and how many 16-bit units, a code point takes. */
  function Width8(c: nat): (n: nat)
    ensures 1 <= n <= 4
  {
    if c < 0x80 then 1 else if c < 0x800 then 2 else if c < 0x1_0000 then 3 else 4
  }

  function Width16(c: nat): (n: nat)
    ensures 1 <= n <= 2
  {
    if c < 0x1_0000 then 1 else 2
  }

  // ---------------------------------------------------------------------------------------------
  // Encodings
  // ---------------------------------------------------------------------------------------------

  function Encode8(c: nat): (r: Bytes)
    requires c <= 0x10FFFF
    ensures |r| == Width8(c)
  {
    if c < 0x80 then [c]
    else if c < 0x800 then [0xC0 + c / 0x40, 0x80 + c % 0x40]
    else if c < 0x1_0000 then [0xE0 + c / 0x1000, 0x80 + c / 0x40 % 0x40, 0x80 + c % 0x40]
    else [0xF0 + c / 0x4_0000, 0x80 + c / 0x1000 % 0x40, 0x80 + c / 0x40 % 0x40, 0x80 + c % 0x40]
  }

  function Encode16(c: nat): (r: seq<Unit16>)
    requires c <= 0x10FFFF
    ensures |r| == Width16(c)
  {
    if c < 0x1_0000 then [c]
    else [(c - 0x1_0000) / 0x400 + 0xD800, (c - 0x1_0000) % 0x400 + 0xDC00]
  }

  function Utf8(cs: seq<nat>): Bytes
    requires AllPoints(cs)
  {
    if cs == [] then [] else Encode8(cs[0]) + Utf8(cs[1..])
  }

  function Utf16(cs: seq<nat>): seq<Unit16>
    requires AllPoints(cs)
  {
    if cs == [] then [] else Encode16(cs[0]) + Utf16(cs[1..])
  }

  /** The table of section 3 of RFC 3629: the payload of each byte, six bits in all but the first. */
  lemma Utf8Table(v: nat, y: nat, z: nat, w: nat)
    requires y < 0x40 && z < 0x40 && w < 0x40
    ensures v < 0x80 ==> Encode8(v) == [v]
    ensures 2 <= v < 0x20 ==> Encode8(v * 0x40 + w) == [0xC0 + v, 0x80 + w]
    ensures v < 0x10 && (v > 0 || z >= 0x20) ==> Encode8(v * 0x1000 + z * 0x40 + w) == [0xE0 + v, 0x80 + z, 0x80 + w]
    ensures v <= 4 && (v > 0 || y >= 0x10) && (v == 4 ==> y < 0x10) ==>
      Encode8(v * 0x4_0000 + y * 0x1000 + z * 0x40 + w) == [0xF0 + v, 0x80 + y, 0x80 + z, 0x80 + w]
  {
    if v < 0x10 {
      Digits3(v, z, w);
    }
    if v <= 4 {
      Digits4(v, y, z, w);
    }
  }

  /** Section 2.1 of RFC 2781: ten bits in each unit of a pair. */
  lemma Utf16Table(c: Unit16, hi: nat, lo: nat)
    requires hi < 0x400 && lo < 0x400
    ensures Encode16(c) == [c] && Encode16(0x1_0000 + hi * 0x400 + lo) == [0xD800 + hi, 0xDC00 + lo]
  {
  }

  /** The euro sign and a face. */
  lemma Utf8Examples()
    ensures Encode8(0x41) == [0x41] && Encode8(0xE9) == [0xC3, 0xA9] && Encode8(0x20AC) == [0xE2, 0x82, 0xAC]
    ensures Encode8(0x1F600) == [0xF0, 0x9F, 0x98, 0x80] && Encode16(0x1F600) == [0xD83D, 0xDE00]
  {
  }

  // ---------------------------------------------------------------------------------------------
  // One UTF-8 sequence
  // ---------------------------------------------------------------------------------------------

  /** trailingBytesForUTF8 */
  function Trailing(first: byte): nat {
    if first < 0xC0 then 0 else if first < 0xE0 then 1 else if first < 0xF0 then 2 else if first < 0xF8 then 3
    else if first < 0xFC then 4 else 5
  }

  predicate IsTail(b: byte) { 0x80 <= b <= 0xBF }

  /** isLegalUTF8, on the bytes it is given the length of. */
  predicate IsLegal(s: Bytes) {
    && 1 <= |s| <= 4
    && (|s| >= 4 ==> IsTail(s[3]))
    && (|s| >= 3 ==> IsTail(s[2]))
    && (|s| >= 2 ==> IsTail(s[1]) && SecondFits(s[0], s[1]))
    && !(0x80 <= s[0] < 0xC2) && s[0] <= 0xF4
  }

  predicate SecondFits(first: byte, a: byte) {
    match first
    case 0xE0 => a >= 0xA0
    case 0xED => a <= 0x9F
    case 0xF0 => a >= 0x90
    case 0xF4 => a <= 0x8F
    case _ => a >= 0x80
  }

  /** offsetsFromUTF8, as far as legal sequences use it. */
  function Offset(trailing: nat): nat {
    if trailing == 0 then 0 else if trailing == 1 then 0x3080 else if trailing == 2 then 0xE2080 else 0x3C82080
  }

  /** A sequence as long as its first byte says, and legal. */
  predicate IsSequence(s: Bytes) {
    s != [] && |s| == Trailing(s[0]) + 1 && IsLegal(s)
  }

  /** The code point of a legal sequence. */
  function Decode8(s: Bytes): (c: nat)
    requires IsSequence(s)
  {
    match |s|
    case 1 => s[0]
    case 2 => (s[0] as int) * 0x40 + s[1] - 0x3080
    case 3 => (s[0] as int) * 0x1000 + (s[1] as int) * 0x40 + s[2] - 0xE2080
    case _ => (s[0] as int) * 0x4_0000 + (s[1] as int) * 0x1000 + (s[2] as int) * 0x40 + s[3] - 0x3C82080
  }

  // Six-bit digits.

  lemma Digit(x: nat, w: nat)
    requires w < 0x40
    ensures (x * 0x40 + w) / 0x40 == x && (x * 0x40 + w) % 0x40 == w
  {
  }

  lemma DivideTwice(c: nat)
    ensures c / 0x1000 == c / 0x40 / 0x40 && c / 0x4_0000 == c / 0x1000 / 0x40
  {
  }

  lemma Digits3(v: nat, z: nat, w: nat)
    requires z < 0x40 && w < 0x40
    ensures var c := v * 0x1000 + z * 0x40 + w; c / 0x1000 == v && c / 0x40 % 0x40 == z && c % 0x40 == w
  {
    var x := v * 0x40 + z;
    Digit(x, w);
    Digit(v, z);
    DivideTwice(x * 0x40 + w);
  }

  lemma Digits4(v: nat, y: nat, z: nat, w: nat)
    requires y < 0x40 && z < 0x40 && w < 0x40
    ensures var c := v * 0x4_0000 + y * 0x1000 + z * 0x40 + w;
      c / 0x4_0000 == v && c / 0x1000 % 0x40 == y && c / 0x40 % 0x40 == z && c % 0x40 == w
  {
    Digits3(v * 0x40 + y, z, w);
    Digit(v, y);
    DivideTwice((v * 0x40 + y) * 0x1000 + z * 0x40 + w);
  }

  lemma Digits3Of(c: nat)
    ensures c == c / 0x1000 * 0x1000 + c / 0x40 % 0x40 * 0x40 + c % 0x40
  {
    DivideTwice(c);
  }

  lemma Digits4Of(c: nat)
    ensures c / 0x1000 == c / 0x4_0000 * 0x40 + c / 0x1000 % 0x40
  {
    DivideTwice(c);
  }

  lemma Encode1(c: nat)
    requires c < 0x80
    ensures IsSequence(Encode8(c)) && Decode8(Encode8(c)) == c
  {
  }

  lemma Encode2(c: nat)
    requires 0x80 <= c < 0x800
    ensures IsSequence(Encode8(c)) && Decode8(Encode8(c)) == c
  {
  }

  lemma Encode3(c: nat)
    requires 0x800 <= c < 0x1_0000 && !IsSurrogate(c)
    ensures IsSequence(Encode8(c)) && Decode8(Encode8(c)) == c
  {
    Digits3Of(c);
    var v, z, w := c / 0x1000, c / 0x40 % 0x40, c % 0x40;
    assert Encode8(c) == [0xE0 + v, 0x80 + z, 0x80 + w];
  }

  lemma Encode4(c: nat)
    requires 0x1_0000 <= c <= 0x10FFFF
    ensures IsSequence(Encode8(c)) && Decode8(Encode8(c)) == c
  {
    Digits3Of(c);
    Digits4Of(c);
    var v, y, z, w := c / 0x4_0000, c / 0x1000 % 0x40, c / 0x40 % 0x40, c % 0x40;
    assert Encode8(c) == [0xF0 + v, 0x80 + y, 0x80 + z, 0x80 + w];
  }

  /** Encoding a scalar value makes a legal sequence that decodes to it. */
  lemma EncodeDecode(c: nat)
    requires IsScalar(c)
    ensures IsSequence(Encode8(c)) && Decode8(Encode8(c)) == c
  {
    if c < 0x80 {
      Encode1(c);
    } else if c < 0x800 {
      Encode2(c);
    } else if c < 0x1_0000 {
      Encode3(c);
    } else {
      Encode4(c);
    }
  }

  lemma Decode3(s: Bytes)
    requires IsSequence(s) && |s| == 3
    ensures IsScalar(Decode8(s)) && Encode8(Decode8(s)) == s
  {
    var v, z, w: nat := s[0] - 0xE0, s[1] - 0x80, s[2] - 0x80;
    Digits3(v, z, w);
    assert Decode8(s) == v * 0x1000 + z * 0x40 + w;
  }

  lemma Decode4(s: Bytes)
    requires IsSequence(s) && |s| == 4
    ensures IsScalar(Decode8(s)) && Encode8(Decode8(s)) == s
  {
    var v, y, z, w: nat := s[0] - 0xF0, s[1] - 0x80, s[2] - 0x80, s[3] - 0x80;
    Digits4(v, y, z, w);
    assert Decode8(s) == v * 0x4_0000 + y * 0x1000 + z * 0x40 + w;
  }

  lemma Decode2(s: Bytes)
    requires IsSequence(s) && |s| <= 2
    ensures IsScalar(Decode8(s)) && Encode8(Decode8(s)) == s
  {
    if |s| == 2 {
      var x, w: nat := s[0] - 0xC0, s[1] - 0x80;
      Digit(x, w);
      assert Decode8(s) == x * 0x40 + w;
    }
  }

  /** A legal sequence is the encoding of a scalar value. */
  lemma DecodeEncode(s: Bytes)
    requires IsSequence(s)
    ensures IsScalar(Decode8(s)) && Encode8(Decode8(s)) == s
  {
    if |s| <= 2 {
      Decode2(s);
    } else if |s| == 3 {
      Decode3(s);
    } else {
      Decode4(s);
    }
  }

  // ---------------------------------------------------------------------------------------------
  // Strings
  // ---------------------------------------------------------------------------------------------

  /** The scalar values a byte string encodes, if it is UTF-8. */
  function Scalars8(s: Bytes): (r: Option<seq<nat>>)
    ensures r.Some? ==> AllScalar(r.value)
    decreases |s|
  {
    if s == [] then Some([])
    else
      var n := Trailing(s[0]) + 1;
      if n > |s| || !IsLegal(s[..n]) then None
      else
        DecodeEncode(s[..n]);
        match Scalars8(s[n..])
        case None => None
        case Some(cs) => Some([Decode8(s[..n])] + cs)
  }

  /** The scalar values a sequence of units encodes, if it is UTF-16. */
  function Scalars16(u: seq<Unit16>): (r: Option<seq<nat>>)
    ensures r.Some? ==> AllScalar(r.value)
    decreases |u|
  {
    if u == [] then Some([])
    else if IsHigh(u[0]) then
      if |u| == 1 || !IsLow(u[1]) then None
      else match Scalars16(u[2..])
        case None => None
        case Some(cs) => Some([Joined(u[0], u[1])] + cs)
    else if IsLow(u[0]) then None
    else match Scalars16(u[1..])
      case None => None
      case Some(cs) => Some([u[0]] + cs)
  }

  /** The code point of a surrogate pair. */
  function Joined(high: Unit16, low: Unit16): (c: nat)
    requires IsHigh(high) && IsLow(low)
    ensures 0x1_0000 <= c <= 0x10FFFF
  {
    (high - 0xD800) * 0x400 + (low - 0xDC00) + 0x1_0000
  }

  lemma {:induction false} Utf8Scalars(cs: seq<nat>)
    requires AllScalar(cs)
    ensures Scalars8(Utf8(cs)) == Some(cs)
  {
    if cs != [] {
      var e, rest := Encode8(cs[0]), Utf8(cs[1..]);
      EncodeDecode(cs[0]);
      Utf8Scalars(cs[1..]);
      assert (e + rest)[0] == e[0] && (e + rest)[..|e|] == e && (e + rest)[|e|..] == rest;
      assert cs == [cs[0]] + cs[1..];
    }
  }

  lemma {:induction false} ScalarsUtf8(s: Bytes)
    requires Scalars8(s).Some?
    ensures Utf8(Scalars8(s).value) == s
    decreases |s|
  {
    if s != [] {
      var n := Trailing(s[0]) + 1;
      var piece, rest := s[..n], s[n..];
      DecodeEncode(piece);
      ScalarsUtf8(rest);
      Utf8Cons(Decode8(piece), Scalars8(rest).value);
      Cut(s, n);
    }
  }

  lemma Cut(s: Bytes, n: nat)
    requires n <= |s|
    ensures s[..n] + s[n..] == s
  {
  }

  lemma Utf8Cons(c: nat, cs: seq<nat>)
    requires c <= 0x10FFFF && AllPoints(cs)
    ensures AllPoints([c] + cs) && Utf8([c] + cs) == Encode8(c) + Utf8(cs)
  {
    assert ([c] + cs)[1..] == cs;
  }

  lemma {:induction false} Utf16Scalars(cs: seq<nat>)
    requires AllScalar(cs)
    ensures Scalars16(Utf16(cs)) == Some(cs)
  {
    if cs != [] {
      var e, rest := Encode16(cs[0]), Utf16(cs[1..]);
      Utf16Scalars(cs[1..]);
      assert (e + rest)[|e|..] == rest;
      assert cs == [cs[0]] + cs[1..];
    }
  }

  lemma {:induction false} ScalarsUtf16(u: seq<Unit16>)
    requires Scalars16(u).Some?
    ensures Utf16(Scalars16(u).value) == u
    decreases |u|
  {
    if u != [] {
      var n := if IsHigh(u[0]) then 2 else 1;
      ScalarsUtf16(u[n..]);
      var c, cs := Scalars16(u).value[0], Scalars16(u[n..]).value;
      assert Scalars16(u).value == [c] + cs && ([c] + cs)[1..] == cs;
      assert u == u[..n] + u[n..] && Encode16(c) == u[..n];
    }
  }

  /** A byte string is UTF-8 exactly when it is the concatenation of the encodings of some scalar values, and it is so
      of one list only. */
  lemma WellFormed8(s: Bytes, cs: seq<nat>)
    requires AllScalar(cs)
    ensures Scalars8(s) == Some(cs) <==> Utf8(cs) == s
  {
    Utf8Scalars(cs);
    if Scalars8(s) == Some(cs) {
      ScalarsUtf8(s);
    }
  }

  lemma WellFormed16(u: seq<Unit16>, cs: seq<nat>)
    requires AllScalar(cs)
    ensures Scalars16(u) == Some(cs) <==> Utf16(cs) == u
  {
    Utf16Scalars(cs);
    if Scalars16(u) == Some(cs) {
      ScalarsUtf16(u);
    }
  }

  /** isLegalUTF8String: whether the walk gets through, and where it ends: where no legal sequence begins. */
  method IsLegalUtf8String(s: Bytes) returns (ok: bool, source: nat)
    ensures ok <==> Scalars8(s).Some?
    ensures source <= |s| && Scalars8(s[..source]).Some? && (ok ==> source == |s|)
    ensures !ok ==> source < |s| && forall end :: source < end <= |s| ==> !IsSequence(s[source..end])
  {
    hide Scalars8, IsLegal, IsSequence, Trailing;
    source := 0;
    ghost var seen: seq<nat> := [];
    assert s[0..] == s && s[..0] == [];
    while source != |s|
      invariant source <= |s| && AllScalar(seen) && Utf8(seen) == s[..source]
      invariant Scalars8(s).Some? <==> Scalars8(s[source..]).Some?
    {
      var length := Trailing(s[source]) + 1;
      if length > |s| - source || !IsLegal(s[source..source + length]) {
        WellFormed8(s[..source], seen);
        NoneBegins(s, source);
        return false, source;
      }
      FirstSequence(s, source, length);
      seen := Extend(seen, s[..source], s[source..source + length]);
      assert s[..source] + s[source..source + length] == s[..source + length];
      source := source + length;
    }
    WellFormed8(s[..source], seen);
    assert s[..source] == s;
    ok := true;
  }

  /** Where the sequence announced by the first byte is cut off or not legal, none begins. */
  lemma NoneBegins(s: Bytes, source: nat)
    requires source < |s|
    requires var n := Trailing(s[source]) + 1; n > |s| - source || !IsLegal(s[source..source + n])
    ensures forall end :: source < end <= |s| ==> !IsSequence(s[source..end])
    ensures Scalars8(s[source..]).None?
  {
    var n := Trailing(s[source]) + 1;
    assert n <= |s| - source ==> s[source..][..n] == s[source..source + n];
    forall end | source < end <= |s|
      ensures !IsSequence(s[source..end])
    {
      assert s[source..end][0] == s[source];
    }
  }

  lemma FirstSequence(s: Bytes, source: nat, n: nat)
    requires source < |s| && n == Trailing(s[source]) + 1 <= |s| - source && IsLegal(s[source..source + n])
    ensures Scalars8(s[source..]).Some? <==> Scalars8(s[source + n..]).Some?
  {
    var t := s[source..];
    assert t[..n] == s[source..source + n] && t[n..] == s[source + n..];
  }

  lemma Extend(seen: seq<nat>, before: Bytes, piece: Bytes) returns (next: seq<nat>)
    requires AllScalar(seen) && Utf8(seen) == before && IsSequence(piece)
    ensures AllScalar(next) && Utf8(next) == before + piece
  {
    DecodeEncode(piece);
    Utf8Append(seen, Decode8(piece));
    next := seen + [Decode8(piece)];
  }

  lemma {:induction false} Utf8Append(cs: seq<nat>, c: nat)
    requires AllPoints(cs) && c <= 0x10FFFF
    ensures Utf8(cs + [c]) == Utf8(cs) + Encode8(c)
  {
    if cs == [] {
      assert [] + [c] == [c] && Utf8([c]) == Encode8(c) + [] == Encode8(c);
    } else {
      Utf8Append(cs[1..], c);
      assert (cs + [c])[1..] == cs[1..] + [c];
    }
  }

  lemma {:induction false} Utf16Append(cs: seq<nat>, c: nat)
    requires AllPoints(cs) && c <= 0x10FFFF
    ensures Utf16(cs + [c]) == Utf16(cs) + Encode16(c)
  {
    if cs == [] {
      assert [] + [c] == [c] && Utf16([c]) == Encode16(c) + [] == Encode16(c);
    } else {
      Utf16Append(cs[1..], c);
      assert (cs + [c])[1..] == cs[1..] + [c];
    }
  }
}
