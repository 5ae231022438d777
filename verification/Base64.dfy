/** Base64 as the persistent file uses it (Base64.cpp; section 4 of RFC 4648). Decoding inverts encoding. */
module Base64 {
  import opened Basics

  /** basis_64: the character of a six-bit digit. */
  function Digit(d: nat): (c: byte)
    requires d < 64
  {
    if d < 26 then 65 + d else if d < 52 then 97 + (d - 26) else if d < 62 then 48 + (d - 52) else if d == 62 then 43 else 47
  }

  /** pr2six: the digit of a character, or 64. */
  function Six(c: byte): (d: nat)
    ensures d <= 64
  {
    if 65 <= c <= 90 then c - 65 else if 97 <= c <= 122 then c - 97 + 26 else if 48 <= c <= 57 then c - 48 + 52
    else if c == 43 then 62 else if c == 47 then 63 else 64
  }

  const PAD: byte := 61

  /** The four digits of three bytes. */
  function Quad(a: byte, b: byte, c: byte): (r: Bytes)
    ensures |r| == 4 && forall i :: 0 <= i < 4 ==> Six(r[i]) <= 63
  {
    [Digit(a / 4), Digit(a % 4 * 16 + b / 16), Digit(b % 16 * 4 + c / 64), Digit(c % 64)]
  }

  function Encoded(plain: Bytes): Bytes {
    if |plain| == 0 then []
    else if |plain| == 1 then [Digit(plain[0] / 4), Digit(plain[0] % 4 * 16), PAD, PAD]
    else if |plain| == 2 then
      [Digit(plain[0] / 4), Digit(plain[0] % 4 * 16 + plain[1] / 16), Digit(plain[1] % 16 * 4), PAD]
    else Quad(plain[0], plain[1], plain[2]) + Encoded(plain[3..])
  }

  /** How many digits come first. */
  function Digits(s: Bytes): (n: nat)
    ensures n <= |s|
  {
    if s == [] || Six(s[0]) > 63 then 0 else 1 + Digits(s[1..])
  }

  /** The bytes of `n` leading digits; a single last digit is ignored. */
  function Plain(s: Bytes, n: nat): Bytes
    requires n <= |s|
  {
    if n <= 1 then []
    else if n == 2 then [High(Six(s[0]), Six(s[1]))]
    else if n == 3 then [High(Six(s[0]), Six(s[1])), Middle(Six(s[1]), Six(s[2]))]
    else [High(Six(s[0]), Six(s[1])), Middle(Six(s[1]), Six(s[2])), Low(Six(s[2]), Six(s[3]))] + Plain(s[4..], n - 4)
  }

  // A byte from two neighbouring digits, cut to eight bits.

  function High(d0: nat, d1: nat): byte { (d0 * 4 + d1 / 16) % 0x100 }

  function Middle(d1: nat, d2: nat): byte { (d1 * 16 + d2 / 4) % 0x100 }

  function Low(d2: nat, d3: nat): byte { (d2 * 64 + d3) % 0x100 }

  function Decoded(s: Bytes): Bytes {
    Plain(s, Digits(s))
  }

  lemma DigitBack(d: nat)
    requires d < 64
    ensures Six(Digit(d)) == d
  {
  }

  lemma HighBack(a: byte, b: byte)
    ensures High(a / 4, a % 4 * 16 + b / 16) == a
  {
  }

  lemma MiddleBack(a: byte, b: byte, c: byte)
    ensures Middle(a % 4 * 16 + b / 16, b % 16 * 4 + c / 64) == b
  {
    var x := a % 4;
    var y, z := b / 16, b % 16;
    assert b == 16 * y + z && (x * 16 + y) * 16 == x * 0x100 + y * 16;
    assert (z * 4 + c / 64) / 4 == z;
  }

  lemma LowBack(b: byte, c: byte)
    ensures Low(b % 16 * 4 + c / 64, c % 64) == c
  {
    var z := b % 16;
    assert (z * 4 + c / 64) * 64 == z * 0x100 + c / 64 * 64;
  }

  lemma QuadBack(a: byte, b: byte, c: byte)
    ensures var s := Quad(a, b, c);
      High(Six(s[0]), Six(s[1])) == a && Middle(Six(s[1]), Six(s[2])) == b && Low(Six(s[2]), Six(s[3])) == c
  {
    DigitBack(a / 4);
    DigitBack(a % 4 * 16 + b / 16);
    DigitBack(b % 16 * 4 + c / 64);
    DigitBack(c % 64);
    HighBack(a, b);
    MiddleBack(a, b, c);
    LowBack(b, c);
  }

  /** Digits run through a whole quad. */
  lemma DigitsQuad(q: Bytes, rest: Bytes)
    requires |q| == 4 && forall i :: 0 <= i < 4 ==> Six(q[i]) <= 63
    ensures Digits(q + rest) == 4 + Digits(rest)
  {
    assert q + rest == [q[0]] + ([q[1]] + ([q[2]] + ([q[3]] + rest)));
    OneDigit(q[0], [q[1]] + ([q[2]] + ([q[3]] + rest)));
    OneDigit(q[1], [q[2]] + ([q[3]] + rest));
    OneDigit(q[2], [q[3]] + rest);
    OneDigit(q[3], rest);
  }

  lemma OneDigit(d: byte, rest: Bytes)
    requires Six(d) <= 63
    ensures Digits([d] + rest) == 1 + Digits(rest)
  {
    assert ([d] + rest)[1..] == rest;
  }

  /** Decoding inverts encoding, for every byte string. */
  lemma {:induction false} RoundTrip(plain: Bytes)
    ensures Decoded(Encoded(plain)) == plain
  {
    var n := |plain|;
    if n == 0 {
    } else if n == 1 {
      OneByte(plain[0]);
      assert plain == [plain[0]];
    } else if n == 2 {
      TwoBytes(plain[0], plain[1]);
      assert plain == [plain[0], plain[1]];
    } else {
      var q, rest := Quad(plain[0], plain[1], plain[2]), Encoded(plain[3..]);
      RoundTrip(plain[3..]);
      DigitsQuad(q, rest);
      QuadBack(plain[0], plain[1], plain[2]);
      assert (q + rest)[4..] == rest;
      assert plain == [plain[0], plain[1], plain[2]] + plain[3..];
    }
  }

  lemma OneByte(a: byte)
    ensures Decoded([Digit(a / 4), Digit(a % 4 * 16), PAD, PAD]) == [a]
  {
    var x, y := Digit(a / 4), Digit(a % 4 * 16);
    TwoDigits(x, y, [PAD, PAD]);
    assert [x, y] + [PAD, PAD] == [x, y, PAD, PAD];
    HighBack(a, 0);
  }

  lemma TwoBytes(a: byte, b: byte)
    ensures Decoded([Digit(a / 4), Digit(a % 4 * 16 + b / 16), Digit(b % 16 * 4), PAD]) == [a, b]
  {
    var x, y, z := Digit(a / 4), Digit(a % 4 * 16 + b / 16), Digit(b % 16 * 4);
    OneDigit(z, [PAD]);
    TwoDigits(x, y, [z] + [PAD]);
    assert [x, y] + ([z] + [PAD]) == [x, y, z, PAD];
    HighBack(a, b);
    MiddleBack(a, b, 0);
  }

  lemma TwoDigits(x: byte, y: byte, rest: Bytes)
    requires Six(x) <= 63 && Six(y) <= 63
    ensures Digits([x, y] + rest) == 2 + Digits(rest)
  {
    OneDigit(y, rest);
    OneDigit(x, [y] + rest);
    assert [x] + ([y] + rest) == [x, y] + rest;
  }

  /** What an encoding can contain: digits and padding. */
  lemma {:induction false} EncodedAlphabet(plain: Bytes)
    ensures forall c :: c in Encoded(plain) ==> Six(c) <= 63 || c == PAD
  {
    if |plain| > 2 {
      EncodedAlphabet(plain[3..]);
    }
  }

  /** The alphabet of RFC 4648, and no other characters. */
  lemma Alphabet(d: nat, c: byte)
    requires d < 64
    ensures d < 26 ==> Digit(d) == "ABCDEFGHIJKLMNOPQRSTUVWXYZ"[d] as int
    ensures 26 <= d < 52 ==> Digit(d) == "abcdefghijklmnopqrstuvwxyz"[d - 26] as int
    ensures 52 <= d ==> Digit(d) == "0123456789+/"[d - 52] as int
    ensures Six(Digit(d)) == d && if Six(c) < 64 then Digit(Six(c)) == c else Digit(d) != c
  {
    UpperCase(d);
    LowerCase(d);
  }

  lemma UpperCase(d: nat)
    ensures d < 26 ==> Digit(d) == "ABCDEFGHIJKLMNOPQRSTUVWXYZ"[d] as int
  {
  }

  lemma LowerCase(d: nat)
    ensures 26 <= d < 52 ==> Digit(d) == "abcdefghijklmnopqrstuvwxyz"[d - 26] as int
  {
  }

  /** The examples of section 10 of RFC 4648 for "f", "fo", "foo" and "foobar". */
  lemma Examples()
    ensures Encoded([102]) == [90, 103, 61, 61] && Encoded([102, 111]) == [90, 109, 56, 61]
    ensures Encoded([102, 111, 111]) == [90, 109, 57, 118]
    ensures Encoded([102, 111, 111, 98, 97, 114]) == [90, 109, 57, 118, 89, 109, 70, 121]
  {
    hide Quad;
    Quads();
    OneQuad(102, 111, 111, []);
    OneQuad(98, 97, 114, []);
    OneQuad(102, 111, 111, [98, 97, 114]);
    assert [102, 111, 111] + [98, 97, 114] == [102, 111, 111, 98, 97, 114];
    assert [102, 111, 111] + [] == [102, 111, 111] && [98, 97, 114] + [] == [98, 97, 114];
  }

  lemma Quads()
    ensures Quad(102, 111, 111) == [90, 109, 57, 118] && Quad(98, 97, 114) == [89, 109, 70, 121]
  {
  }

  lemma OneQuad(a: byte, b: byte, c: byte, rest: Bytes)
    ensures Encoded([a, b, c] + rest) == Quad(a, b, c) + Encoded(rest)
  {
    hide Quad;
    assert ([a, b, c] + rest)[3..] == rest;
  }

  /** Text that is no Base64 is read up to its first foreign character; a single digit left over counts for nothing, two
      make one byte, three make two. */
  lemma Leftovers(x: byte, y: byte, z: byte, c: byte, rest: Bytes)
    requires Six(x) <= 63 && Six(y) <= 63 && Six(z) <= 63 && Six(c) == 64
    ensures Decoded([]) == Decoded([c] + rest) == Decoded([x] + ([c] + rest)) == []
    ensures Decoded([x, y] + ([c] + rest)) == [Six(x) * 4 + Six(y) / 16]
    ensures Decoded([x, y, z] + ([c] + rest)) == [Six(x) * 4 + Six(y) / 16, Six(y) % 16 * 16 + Six(z) / 4]
  {
    hide Six;
    var t := [c] + rest;
    OneDigit(x, t);
    TwoDigits(x, y, t);
    OneDigit(z, t);
    TwoDigits(x, y, [z] + t);
    assert [x, y] + ([z] + t) == [x, y, z] + t;
    MiddleCut(Six(y), Six(z));
  }

  lemma MiddleCut(d1: nat, d2: nat)
    requires d1 < 64 && d2 < 64
    ensures Middle(d1, d2) == d1 % 16 * 16 + d2 / 4
  {
    var q, r := d1 / 16, d1 % 16;
    assert d1 * 16 == q * 0x100 + r * 16;
  }

  lemma NextQuad(done: Bytes, plain: Bytes, i: nat)
    requires i + 2 < |plain|
    ensures done + Encoded(plain[i..]) == done + Quad(plain[i], plain[i + 1], plain[i + 2]) + Encoded(plain[i + 3..])
  {
    assert plain[i..][3..] == plain[i + 3..];
    Associate(done, Quad(plain[i], plain[i + 1], plain[i + 2]), Encoded(plain[i + 3..]));
  }

  lemma Associate(a: Bytes, b: Bytes, c: Bytes)
    ensures a + b + c == a + (b + c)
  {
  }

  method Encode(plain: Bytes) returns (encoded: Bytes)
    ensures encoded == Encoded(plain)
  {
    encoded := [];
    if plain == [] {
      return;
    }
    var len := |plain|;
    var i := 0;
    while i + 2 < len
      invariant i <= len && encoded + Encoded(plain[i..]) == Encoded(plain)
    {
      NextQuad(encoded, plain, i);
      encoded := encoded + [Digit(plain[i] / 4), Digit(plain[i] % 4 * 16 + plain[i + 1] / 16),
                            Digit(plain[i + 1] % 16 * 4 + plain[i + 2] / 64), Digit(plain[i + 2] % 64)];
      i := i + 3;
    }
    if i < len {
      var last := [Digit(plain[i] / 4)];
      if i == len - 1 {
        last := last + [Digit(plain[i] % 4 * 16)];
        last := last + [PAD];
      } else {
        last := last + [Digit(plain[i] % 4 * 16 + plain[i + 1] / 16)];
        last := last + [Digit(plain[i + 1] % 16 * 4)];
      }
      last := last + [PAD];
      encoded := encoded + last;
    }
  }

  lemma NextPlain(done: Bytes, s: Bytes, cur: nat, n: nat)
    requires n > 4 && cur + n <= |s|
    ensures done + Plain(s[cur..], n)
         == done + [High(Six(s[cur]), Six(s[cur + 1])), Middle(Six(s[cur + 1]), Six(s[cur + 2])), Low(Six(s[cur + 2]), Six(s[cur + 3]))]
            + Plain(s[cur + 4..], n - 4)
  {
    assert s[cur..][4..] == s[cur + 4..];
    Associate(done, [High(Six(s[cur]), Six(s[cur + 1])), Middle(Six(s[cur + 1]), Six(s[cur + 2])), Low(Six(s[cur + 2]), Six(s[cur + 3]))],
              Plain(s[cur + 4..], n - 4));
  }

  /** The scan for the first character that is not a digit. */
  method CountDigits(encoded: Bytes) returns (end: nat)
    ensures end == Digits(encoded)
  {
    end := 0;
    assert encoded[0..] == encoded;
    while end != |encoded| && Six(encoded[end]) <= 63
      invariant end <= |encoded| && Digits(encoded) == end + Digits(encoded[end..])
    {
      assert encoded[end..][1..] == encoded[end + 1..];
      end := end + 1;
    }
  }

  /** The bytes of the last one to four digits. */
  method DecodeLast(encoded: Bytes, cur: nat, n: nat) returns (last: Bytes)
    requires 0 < n <= 4 && cur + n <= |encoded|
    ensures last == Plain(encoded[cur..], n)
  {
    last := [];
    if n > 1 {
      last := last + [High(Six(encoded[cur]), Six(encoded[cur + 1]))];
    }
    if n > 2 {
      last := last + [Middle(Six(encoded[cur + 1]), Six(encoded[cur + 2]))];
    }
    if n > 3 {
      last := last + [Low(Six(encoded[cur + 2]), Six(encoded[cur + 3]))];
    }
  }

  method Decode(encoded: Bytes) returns (plain: Bytes)
    ensures plain == Decoded(encoded)
  {
    var nprbytes := CountDigits(encoded);
    ghost var end := nprbytes;
    plain := [];
    if nprbytes == 0 {
      return;
    }
    var cur := 0;
    assert encoded[0..] == encoded;
    while nprbytes > 4
      invariant nprbytes > 0 && cur + nprbytes == end && plain + Plain(encoded[cur..], nprbytes) == Decoded(encoded)
    {
      NextPlain(plain, encoded, cur, nprbytes);
      plain := plain + [High(Six(encoded[cur]), Six(encoded[cur + 1])), Middle(Six(encoded[cur + 1]), Six(encoded[cur + 2])),
                        Low(Six(encoded[cur + 2]), Six(encoded[cur + 3]))];
      cur := cur + 4;
      nprbytes := nprbytes - 4;
    }
    var last := DecodeLast(encoded, cur, nprbytes);
    plain := plain + last;
  }
}
