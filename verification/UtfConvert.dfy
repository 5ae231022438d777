/**
  The converters between UTF-8, UTF-16 and UTF-32 (ConvertUTF.cpp) as runs of single steps into a target of limited
  size. In strict mode a conversion succeeds exactly on well-formed input that fits.
 */
module UtfConvert {
  import opened Basics
  import opened Utf

  datatype Outcome = ConversionOk | SourceExhausted | TargetExhausted | SourceIllegal

  /** One turn of a converter's loop: it ends the conversion, or takes some units as a code point; `illegal` marks a value
      that was replaced but is reported at the end. */
  datatype Step = Stop(outcome: Outcome) | Go(used: nat, ch: nat, illegal: bool)

  const REPLACEMENT := 0xFFFD

  /** ConvertUTF32toUTF8 at unit `i` of the source. */
  function Next32(s: seq<Unit32>, i: nat, strict: bool): Step {
    if i >= |s| then Stop(ConversionOk)
    else if strict && IsSurrogate(s[i]) then Stop(SourceIllegal)
    else if s[i] <= 0x10FFFF then Go(1, s[i], false)
    else Go(1, REPLACEMENT, true)
  }

  /** ConvertUTF16toUTF8 */
  function Next16(s: seq<Unit16>, i: nat, strict: bool): Step {
    if i >= |s| then Stop(ConversionOk)
    else if IsHigh(s[i]) then
      if i + 1 == |s| then Stop(SourceExhausted)
      else if IsLow(s[i + 1]) then Go(2, Joined(s[i], s[i + 1]), false)
      else if strict then Stop(SourceIllegal)
      else Go(1, s[i], false)
    else if strict && IsLow(s[i]) then Stop(SourceIllegal)
    else Go(1, s[i], false)
  }

  /** Both readers of UTF-8. The code points of legal sequences need no further check, for they are scalar values
      (Utf.DecodeEncode). */
  function Next8(s: Bytes, i: nat): Step {
    if i >= |s| then Stop(ConversionOk)
    else if Trailing(s[i]) + 1 > |s| - i then Stop(SourceExhausted)
    else if !IsLegal(s[i..i + Trailing(s[i]) + 1]) then Stop(SourceIllegal)
    else Go(Trailing(s[i]) + 1, Decode8(s[i..i + Trailing(s[i]) + 1]), false)
  }

  function Step32(strict: bool): (seq<Unit32>, nat) -> Step {
    (s: seq<Unit32>, i: nat) => Next32(s, i, strict)
  }

  function Step16(strict: bool): (seq<Unit16>, nat) -> Step {
    (s: seq<Unit16>, i: nat) => Next16(s, i, strict)
  }

  function Step8(): (Bytes, nat) -> Step {
    (s: Bytes, i: nat) => Next8(s, i)
  }

  function Width32(c: nat): nat { 1 }

  type Result = (Outcome, nat, seq<nat>)

  /** A conversion from where `used` units are used and `out` is written: the outcome, how many units were used, and the
      code points written. `bad` says that an earlier value was replaced; `eager` that a full target is noticed before an
      illegal sequence. */
  function Run<S>(step: (seq<S>, nat) -> Step, width: nat -> nat, src: seq<S>, eager: bool, used: nat, room: nat,
                  out: seq<nat>, bad: bool): Result
    requires used <= |src|
    decreases |src| - used
  {
    if used == |src| then (if bad then SourceIllegal else ConversionOk, used, out)
    else match step(src, used)
      case Stop(o) => (if eager && room == 0 && o == SourceIllegal then TargetExhausted else o, used, out)
      case Go(n, ch, illegal) =>
        if n == 0 || n > |src| - used then (SourceIllegal, used, out)
        else if width(ch) > room then (TargetExhausted, used, out)
        else Run(step, width, src, eager, used + n, room - width(ch), out + [ch], bad || illegal)
  }

  /** A whole conversion. */
  function Convert<S>(step: (seq<S>, nat) -> Step, width: nat -> nat, src: seq<S>, eager: bool, room: nat): Result {
    Run(step, width, src, eager, 0, room, [], false)
  }

  // ---------------------------------------------------------------------------------------------
  // Strict conversions
  // ---------------------------------------------------------------------------------------------

  /** The space a list of code points takes. */
  function Total(width: nat -> nat, cs: seq<nat>): nat {
    if cs == [] then 0 else width(cs[0]) + Total(width, cs[1..])
  }

  lemma {:induction false} Total8(cs: seq<nat>)
    requires AllPoints(cs)
    ensures Total(Width8, cs) == |Utf8(cs)|
  {
    if cs != [] {
      Total8(cs[1..]);
    }
  }

  lemma {:induction false} Total16(cs: seq<nat>)
    requires AllPoints(cs)
    ensures Total(Width16, cs) == |Utf16(cs)|
  {
    if cs != [] {
      Total16(cs[1..]);
    }
  }

  lemma {:induction false} Total32(cs: seq<nat>)
    ensures Total(Width32, cs) == |cs|
  {
    if cs != [] {
      Total32(cs[1..]);
    }
  }

  lemma TotalCons(width: nat -> nat, c: nat, cs: seq<nat>)
    ensures Total(width, [c] + cs) == width(c) + Total(width, cs)
  {
    assert ([c] + cs)[1..] == cs;
  }

  /** The conversion succeeds exactly when the rest of the source stands for code points that fit, and then it uses all of
      the source and writes them. */
  ghost predicate Succeeds(r: Result, meaning: Option<seq<nat>>, width: nat -> nat, end: nat, room: nat,
                           out: seq<nat>) {
    && (r.0 == ConversionOk <==> meaning.Some? && Total(width, meaning.value) <= room)
    && (r.0 == ConversionOk ==> r == (ConversionOk, end, out + meaning.value))
  }

  function Prepended(c: nat, r: Option<seq<nat>>): Option<seq<nat>> {
    match r
    case None => None
    case Some(cs) => Some([c] + cs)
  }

  /** A code point taken from the front of the source keeps success exact. */
  lemma StepSucceeds(r: Result, width: nat -> nat, end: nat, room: nat, out: seq<nat>, c: nat, rest: Option<seq<nat>>,
                     meaning: Option<seq<nat>>)
    requires meaning == Prepended(c, rest)
    requires if width(c) <= room then Succeeds(r, rest, width, end, room - width(c), out + [c]) else r.0 == TargetExhausted
    ensures Succeeds(r, meaning, width, end, room, out)
  {
    if rest.Some? {
      TotalCons(width, c, rest.value);
      assert out + [c] + rest.value == out + ([c] + rest.value);
    }
  }

  /** The step at `i` takes what `read` takes from the front of the rest, and refuses what `read` refuses. */
  ghost predicate Follows<S>(step: (seq<S>, nat) -> Step, read: seq<S> -> Option<seq<nat>>, s: seq<S>, i: nat)
    requires i < |s|
  {
    var t := step(s, i);
    && (t.Stop? ==> t.outcome != ConversionOk && t.outcome != TargetExhausted && read(s[i..]).None?)
    && (t.Go? ==> !t.illegal && 0 < t.used <= |s| - i && read(s[i..]) == Prepended(t.ch, read(s[i + t.used..])))
  }

  /** A converter whose steps follow a decoder succeeds exactly where the decoder does. */
  lemma {:induction false} Exact<S>(step: (seq<S>, nat) -> Step, read: seq<S> -> Option<seq<nat>>, width: nat -> nat,
                                    src: seq<S>, eager: bool,
                                    used: nat, room: nat, out: seq<nat>)
    requires used <= |src| && read([]) == Some([])
    requires forall i: nat | i < |src| :: Follows(step, read, src, i)
    ensures Succeeds(Run(step, width, src, eager, used, room, out, false), read(src[used..]), width, |src|, room, out)
    decreases |src| - used
  {
    if used == |src| {
      assert src[used..] == [] && out + [] == out;
    } else {
      assert Follows(step, read, src, used);
      var t := step(src, used);
      if t.Go? {
        if width(t.ch) <= room {
          Exact(step, read, width, src, eager, used + t.used, room - width(t.ch), out + [t.ch]);
        }
        StepSucceeds(Run(step, width, src, eager, used, room, out, false), width, |src|, room, out, t.ch, read(src[used + t.used..]), read(src[used..]));
      }
    }
  }

  function Reader8(): Bytes -> Option<seq<nat>> {
    s => Scalars8(s)
  }

  function Reader16(): seq<Unit16> -> Option<seq<nat>> {
    u => Scalars16(u)
  }

  /** What UTF-32 stands for: itself, if every unit is a scalar value. */
  function Scalars32(src: seq<Unit32>): Option<seq<nat>> {
    if AllScalar(src) then Some(src) else None
  }

  /** Reading UTF-8: the first sequence, then the rest. */
  lemma FirstThenRest(t: Bytes, n: nat)
    requires t != [] && n == Trailing(t[0]) + 1
    ensures n > |t| || !IsLegal(t[..n]) ==> Scalars8(t).None?
    ensures n <= |t| && IsLegal(t[..n]) ==> Scalars8(t) == Prepended(Decode8(t[..n]), Scalars8(t[n..]))
  {
    if n <= |t| && IsLegal(t[..n]) {
      DecodeEncode(t[..n]);
    }
  }

  lemma Pieces(s: Bytes, i: nat, n: nat)
    requires i + n <= |s|
    ensures s[i..][..n] == s[i..i + n] && s[i..][n..] == s[i + n..]
  {
  }

  lemma Follows8(s: Bytes, i: nat)
    requires i < |s|
    ensures Follows(Step8(), Reader8(), s, i)
  {
    var n := Trailing(s[i]) + 1;
    FirstThenRest(s[i..], n);
    if n <= |s| - i {
      Pieces(s, i, n);
    }
  }

  lemma Follows16(u: seq<Unit16>, i: nat)
    requires i < |u|
    ensures Follows(Step16(true), Reader16(), u, i)
  {
    var t := u[i..];
    assert t[1..] == u[i + 1..];
    if |t| > 1 {
      assert t[2..] == u[i + 2..];
    }
  }

  /** UTF-8 to UTF-16, and strictly to UTF-32: they succeed exactly on UTF-8. */
  lemma Strict8(s: Bytes, width: nat -> nat, eager: bool, room: nat)
    ensures Succeeds(Convert(Step8(), width, s, eager, room), Scalars8(s), width, |s|, room, [])
  {
    forall i: nat | i < |s|
      ensures Follows(Step8(), Reader8(), s, i)
    {
      Follows8(s, i);
    }
    Exact(Step8(), Reader8(), width, s, eager, 0, room, []);
    assert s[0..] == s;
  }

  /** Strict UTF-16 to UTF-8 succeeds exactly on UTF-16. */
  lemma Strict16(u: seq<Unit16>, width: nat -> nat, room: nat)
    ensures Succeeds(Convert(Step16(true), width, u, false, room), Scalars16(u), width, |u|, room, [])
  {
    forall i: nat | i < |u|
      ensures Follows(Step16(true), Reader16(), u, i)
    {
      Follows16(u, i);
    }
    Exact(Step16(true), Reader16(), width, u, false, 0, room, []);
    assert u[0..] == u;
  }

  /** Strict UTF-32 to UTF-8 succeeds exactly on scalar values. */
  lemma Strict32(src: seq<Unit32>, room: nat)
    ensures Succeeds(Convert(Step32(true), Width8, src, false, room), Scalars32(src), Width8, |src|, room, [])
  {
    Strict32From(src, 0, room, []);
    assert src[0..] == src;
  }

  lemma {:induction false} Strict32From(src: seq<Unit32>, used: nat, room: nat, out: seq<nat>)
    requires used <= |src|
    ensures Succeeds(Run(Step32(true), Width8, src, false, used, room, out, false), Scalars32(src[used..]), Width8, |src|, room, out)
    decreases |src| - used
  {
    if used == |src| {
      assert src[used..] == [] && out + [] == out;
    } else {
      var c, rest := src[used], src[used + 1..];
      assert src[used..] == [c] + rest;
      AllScalarCons(c, rest);
      if c <= 0x10FFFF && !IsSurrogate(c) {
        if Width8(c) <= room {
          Strict32From(src, used + 1, room - Width8(c), out + [c]);
        }
        StepSucceeds(Run(Step32(true), Width8, src, false, used, room, out, false), Width8, |src|, room, out, c, Scalars32(rest), Scalars32(src[used..]));
      } else if c > 0x10FFFF && Width8(REPLACEMENT) <= room {
        NeverOk(src, used + 1, room - Width8(REPLACEMENT), out + [REPLACEMENT]);
      }
    }
  }

  lemma AllScalarCons(c: nat, cs: seq<nat>)
    ensures AllScalar([c] + cs) <==> IsScalar(c) && AllScalar(cs)
  {
    if AllScalar([c] + cs) {
      assert ([c] + cs)[0] == c;
      forall i | 0 <= i < |cs|
        ensures IsScalar(cs[i])
      {
        assert cs[i] == ([c] + cs)[i + 1];
      }
    }
  }

  /** Once a value has been replaced the conversion does not succeed. */
  lemma {:induction false} NeverOk(src: seq<Unit32>, used: nat, room: nat, out: seq<nat>)
    requires used <= |src|
    ensures Run(Step32(true), Width8, src, false, used, room, out, true).0 != ConversionOk
    decreases |src| - used
  {
    if used < |src| {
      var t := Step32(true)(src, used);
      if t.Go? && Width8(t.ch) <= room {
        NeverOk(src, used + 1, room - Width8(t.ch), out + [t.ch]);
      }
    }
  }

  /** A target with `k` places for each unit left never runs out, if no step takes more than that. */
  lemma {:induction false} Roomy<S>(step: (seq<S>, nat) -> Step, width: nat -> nat, src: seq<S>, used: nat, room: nat,
                                    out: seq<nat>, bad: bool, k: nat)
    requires used <= |src| && room >= k * (|src| - used)
    requires forall i: nat | i < |src| :: step(src, i).Go? ==> width(step(src, i).ch) <= k * step(src, i).used
    requires forall i: nat | i < |src| :: step(src, i).Stop? ==> step(src, i).outcome != TargetExhausted
    ensures Run(step, width, src, false, used, room, out, bad).0 != TargetExhausted
    decreases |src| - used
  {
    if used < |src| && step(src, used).Go? {
      var t := step(src, used);
      if 0 < t.used <= |src| - used {
        assert k * (|src| - used) == k * t.used + k * (|src| - used - t.used);
        Roomy(step, width, src, used + t.used, room - width(t.ch), out + [t.ch], bad || t.illegal, k);
      }
    }
  }

  // ---------------------------------------------------------------------------------------------
  // Round trips
  // ---------------------------------------------------------------------------------------------

  /** There and back from UTF-16, for every well-formed input. */
  lemma RoundTrip16(u: seq<Unit16>, room8: nat, room16: nat)
    requires Scalars16(u).Some? && room8 >= |Utf8(Scalars16(u).value)| && room16 >= |u|
    ensures var cs := Scalars16(u).value;
      && Convert(Step16(true), Width8, u, false, room8) == (ConversionOk, |u|, cs)
      && Convert(Step8(), Width16, Utf8(cs), false, room16) == (ConversionOk, |Utf8(cs)|, cs)
      && Utf16(cs) == u
  {
    var cs := Scalars16(u).value;
    Total8(cs);
    Strict16(u, Width8, room8);
    Utf8Scalars(cs);
    ScalarsUtf16(u);
    Total16(cs);
    Strict8(Utf8(cs), Width16, false, room16);
    assert [] + cs == cs;
  }

  /** There and back from UTF-32. */
  lemma RoundTrip32(cs: seq<Unit32>, room8: nat, room32: nat)
    requires AllScalar(cs) && room8 >= |Utf8(cs)| && room32 >= |cs|
    ensures Convert(Step32(true), Width8, cs, false, room8) == (ConversionOk, |cs|, cs)
    ensures Convert(Step8(), Width32, Utf8(cs), true, room32) == (ConversionOk, |Utf8(cs)|, cs)
  {
    Total8(cs);
    Strict32(cs, room8);
    Utf8Scalars(cs);
    Total32(cs);
    Strict8(Utf8(cs), Width32, true, room32);
    assert [] + cs == cs;
  }

  // ---------------------------------------------------------------------------------------------
  // Any input, in either mode
  // ---------------------------------------------------------------------------------------------

  lemma PairBack(high: Unit16, low: Unit16)
    requires IsHigh(high) && IsLow(low)
    ensures Encode16(Joined(high, low)) == [high, low]
  {
    Utf16Table(0, high - 0xD800, low - 0xDC00);
  }

  /** What a step reads encodes to the units it has used. */
  lemma Step16Back(u: seq<Unit16>, i: nat, strict: bool)
    requires i < |u|
    ensures var t := Next16(u, i, strict);
      t.Go? ==> 0 < t.used <= |u| - i && !t.illegal && t.ch <= 0x10FFFF && Encode16(t.ch) == u[i..i + t.used]
  {
    if IsHigh(u[i]) && i + 1 < |u| && IsLow(u[i + 1]) {
      PairBack(u[i], u[i + 1]);
    }
  }

  lemma {:induction false} Run16Back(u: seq<Unit16>, strict: bool, width: nat -> nat, used: nat, room: nat, out: seq<nat>)
    requires used <= |u| && AllPoints(out) && Utf16(out) == u[..used]
    ensures var r := Run(Step16(strict), width, u, false, used, room, out, false);
      r.1 <= |u| && AllPoints(r.2) && Utf16(r.2) == u[..r.1]
    decreases |u| - used
  {
    hide Next16, Utf16, Encode16;
    if used < |u| {
      Step16Back(u, used, strict);
      var t := Next16(u, used, strict);
      if t.Go? && width(t.ch) <= room {
        Utf16Append(out, t.ch);
        assert u[..used] + u[used..used + t.used] == u[..used + t.used];
        Run16Back(u, strict, width, used + t.used, room - width(t.ch), out + [t.ch]);
      }
    }
  }

  /** Strict or not, on any units and however it ends: what has been read of UTF-16 stands for exactly the units used. */
  lemma UsedUnits16(u: seq<Unit16>, strict: bool, width: nat -> nat, room: nat)
    ensures var r := Convert(Step16(strict), width, u, false, room);
      r.1 <= |u| && AllPoints(r.2) && Utf16(r.2) == u[..r.1]
  {
    Run16Back(u, strict, width, 0, room, []);
  }

  lemma {:induction false} Run8Back(s: Bytes, width: nat -> nat, eager: bool, used: nat, room: nat, out: seq<nat>)
    requires used <= |s| && AllScalar(out) && Utf8(out) == s[..used]
    ensures var r := Run(Step8(), width, s, eager, used, room, out, false);
      r.1 <= |s| && AllScalar(r.2) && Utf8(r.2) == s[..r.1]
    decreases |s| - used
  {
    hide Utf8, Encode8, Decode8, IsLegal;
    if used < |s| {
      var t := Next8(s, used);
      if t.Go? && width(t.ch) <= room {
        DecodeEncode(s[used..used + t.used]);
        Utf8Append(out, t.ch);
        assert s[..used] + s[used..used + t.used] == s[..used + t.used];
        Run8Back(s, width, eager, used + t.used, room - width(t.ch), out + [t.ch]);
      }
    }
  }

  /** The same of UTF-8; and only scalar values are ever read from it. */
  lemma UsedBytes8(s: Bytes, width: nat -> nat, eager: bool, room: nat)
    ensures var r := Convert(Step8(), width, s, eager, room);
      r.1 <= |s| && AllScalar(r.2) && Utf8(r.2) == s[..r.1]
  {
    Run8Back(s, width, eager, 0, room, []);
  }

  lemma {:induction false} LenientRun16(u: seq<Unit16>, used: nat, room: nat, out: seq<nat>)
    requires used <= |u| && room >= 4 * (|u| - used)
    ensures var r := Run(Step16(false), Width8, u, false, used, room, out, false);
      if used < |u| && IsHigh(u[|u| - 1]) then r.0 == SourceExhausted && r.1 == |u| - 1 else r.0 == ConversionOk && r.1 == |u|
    decreases |u| - used
  {
    hide Joined;
    if used < |u| {
      var t := Next16(u, used, false);
      if t.Go? {
        LenientRun16(u, used + t.used, room - Width8(t.ch), out + [t.ch]);
      }
    }
  }

  /** Leniently every list of 16-bit units is converted to its end, lone surrogates as they are, unless it breaks off
      after the first half of a pair; and that half alone is left. */
  lemma Lenient16(u: seq<Unit16>, room: nat)
    requires room >= 4 * |u|
    ensures var r := Convert(Step16(false), Width8, u, false, room);
      && AllPoints(r.2)
      && if u != [] && 0xD800 <= u[|u| - 1] <= 0xDBFF then r.0 == SourceExhausted && Utf16(r.2) == u[..|u| - 1]
         else r.0 == ConversionOk && Utf16(r.2) == u
  {
    LenientRun16(u, 0, room, []);
    UsedUnits16(u, false, Width8, room);
    assert u[..|u|] == u;
  }

  /** What is no code point becomes the replacement character. */
  function Replaced(u: seq<Unit32>): (r: seq<nat>)
    ensures |r| == |u| && forall i :: 0 <= i < |u| ==> r[i] == if u[i] <= 0x10FFFF then u[i] else 0xFFFD
  {
    seq(|u|, i requires 0 <= i < |u| => if u[i] <= 0x10FFFF then u[i] else 0xFFFD)
  }

  lemma {:induction false} LenientRun32(u: seq<Unit32>, used: nat, room: nat, bad: bool)
    requires used <= |u| && room >= 4 * (|u| - used) && (bad <==> exists i :: 0 <= i < used && u[i] > 0x10FFFF)
    ensures Run(Step32(false), Width8, u, false, used, room, Replaced(u)[..used], bad) ==
      (if exists i :: 0 <= i < |u| && u[i] > 0x10FFFF then SourceIllegal else ConversionOk, |u|, Replaced(u))
    decreases |u| - used
  {
    var all := Replaced(u);
    if used == |u| {
      assert all[..used] == all;
    } else {
      var t := Next32(u, used, false);
      assert all[..used] + [t.ch] == all[..used + 1];
      LenientRun32(u, used + 1, room - Width8(t.ch), bad || t.illegal);
    }
  }

  /** Leniently every list of 32-bit units is converted to its end; the outcome says whether anything was replaced. */
  lemma Lenient32(u: seq<Unit32>, room: nat)
    requires room >= 4 * |u|
    ensures Convert(Step32(false), Width8, u, false, room) ==
      (if exists i :: 0 <= i < |u| && u[i] > 0x10FFFF then SourceIllegal else ConversionOk, |u|, Replaced(u))
  {
    LenientRun32(u, 0, room, false);
    assert Replaced(u)[..0] == [];
  }

  // ---------------------------------------------------------------------------------------------
  // Why a conversion stops
  // ---------------------------------------------------------------------------------------------

  /** A conversion that does not come to the end stops at a step that stops, or where the next code point does not fit. */
  ghost predicate StopsAt<S>(step: (seq<S>, nat) -> Step, width: nat -> nat, src: seq<S>, eager: bool, room: nat, r: Result)
    requires r.1 < |src|
  {
    var t := step(src, r.1);
    var left := room - Total(width, r.2);
    if t.Go? then r.0 == TargetExhausted && width(t.ch) > left
    else r.0 == if eager && left == 0 && t.outcome == SourceIllegal then TargetExhausted else t.outcome
  }

  lemma {:induction false} TotalAppend(width: nat -> nat, cs: seq<nat>, c: nat)
    ensures Total(width, cs + [c]) == Total(width, cs) + width(c)
  {
    if cs == [] {
      assert [] + [c] == [c] && Total(width, [c]) == width(c) + Total(width, []);
    } else {
      assert (cs + [c])[1..] == cs[1..] + [c];
      TotalAppend(width, cs[1..], c);
    }
  }

  lemma {:induction false} RunStops<S>(step: (seq<S>, nat) -> Step, width: nat -> nat, src: seq<S>, eager: bool, used: nat,
                                       room: nat, out: seq<nat>, whole: nat)
    requires used <= |src| && room == whole - Total(width, out)
    requires forall i: nat {:trigger step(src, i)} | i < |src| ::
      step(src, i).Go? ==> !step(src, i).illegal && 0 < step(src, i).used <= |src| - i
    ensures var r := Run(step, width, src, eager, used, room, out, false);
      r.1 <= |src| && if r.1 == |src| then r.0 == ConversionOk else StopsAt(step, width, src, eager, whole, r)
    decreases |src| - used
  {
    if used < |src| {
      var t := step(src, used);
      if t.Go? && width(t.ch) <= room {
        TotalAppend(width, out, t.ch);
        RunStops(step, width, src, eager, used + t.used, room - width(t.ch), out + [t.ch], whole);
      }
    }
  }

  /** A conversion of UTF-8 ends at the end of the source, or for one of three reasons: the sequence at which it stops is
      cut off, or is there and is not legal, or does not fit. Only a reader that looks at a full target first calls that
      exhausted although the sequence is not legal. */
  lemma Stops8(s: Bytes, width: nat -> nat, eager: bool, room: nat)
    ensures var r := Convert(Step8(), width, s, eager, room);
      && r.1 <= |s| && (r.0 == ConversionOk <==> r.1 == |s|)
      && (r.1 < |s| ==>
            var n, left := Trailing(s[r.1]) + 1, room - Total(width, r.2);
            && (r.0 == SourceExhausted <==> n > |s| - r.1)
            && (r.0 == SourceIllegal <==> n <= |s| - r.1 && !IsLegal(s[r.1..r.1 + n]) && !(eager && left == 0))
            && (r.0 == TargetExhausted <==>
                  (n <= |s| - r.1 &&
                   if IsLegal(s[r.1..r.1 + n]) then width(Decode8(s[r.1..r.1 + n])) > left else eager && left == 0)))
  {
    hide IsLegal, Decode8;
    assert Total(width, []) == 0;
    RunStops(Step8(), width, s, eager, 0, room, [], room);
  }

  /** A conversion of UTF-16 likewise: a high surrogate at the very end is half a pair; one followed by anything but a low
      one, and a low one by itself, are illegal, but only strictly. */
  lemma Stops16(u: seq<Unit16>, strict: bool, width: nat -> nat, room: nat)
    ensures var r := Convert(Step16(strict), width, u, false, room);
      && r.1 <= |u| && (r.0 == ConversionOk <==> r.1 == |u|)
      && (r.1 < |u| ==>
            var c, last := u[r.1], r.1 + 1 == |u|;
            && (r.0 == SourceExhausted <==> 0xD800 <= c <= 0xDBFF && last)
            && (r.0 == SourceIllegal <==>
                  (strict && ((0xD800 <= c <= 0xDBFF && !last && !(0xDC00 <= u[r.1 + 1] <= 0xDFFF)) || 0xDC00 <= c <= 0xDFFF))))
  {
    hide Joined;
    assert Total(width, []) == 0;
    RunStops(Step16(strict), width, u, false, 0, room, [], room);
  }

  /** And strictly of UTF-32, where a value that is no code point does not stop the conversion but is reported. */
  lemma Stops32(u: seq<Unit32>, room: nat)
    requires forall i :: 0 <= i < |u| ==> u[i] <= 0x10FFFF
    ensures var r := Convert(Step32(true), Width8, u, false, room);
      && r.1 <= |u| && (r.0 == ConversionOk <==> r.1 == |u|)
      && (r.1 < |u| ==> r.0 == if 0xD800 <= u[r.1] <= 0xDFFF then SourceIllegal else TargetExhausted)
  {
    assert Total(Width8, []) == 0;
    RunStops(Step32(true), Width8, u, false, 0, room, [], room);
  }
}
