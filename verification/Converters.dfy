/** The loops of the converters (ConvertUTF.cpp) into target arrays, and the wrappers (ConvertUTFWrapper.cpp). */
module Converters {
  import opened Basics
  import opened Utf
  import opened UtfConvert

  // The fall-through writes of a code point, from its last byte to its first.

  method Put2(target: array<byte>, t: nat, c: nat)
    requires 0x80 <= c < 0x800 && t + 2 <= target.Length
    modifies target
    ensures target[..t + 2] == old(target[..t]) + Encode8(c)
  {
    target[t + 1] := 0x80 + c % 0x40;
    target[t] := 0xC0 + c / 0x40;
  }

  method Put3(target: array<byte>, t: nat, c: nat)
    requires 0x800 <= c < 0x1_0000 && t + 3 <= target.Length
    modifies target
    ensures target[..t + 3] == old(target[..t]) + Encode8(c)
  {
    DivideTwice(c);
    target[t + 2] := 0x80 + c % 0x40;
    var ch := c / 0x40;
    target[t + 1] := 0x80 + ch % 0x40;
    target[t] := 0xE0 + ch / 0x40;
  }

  method Put4(target: array<byte>, t: nat, c: nat)
    requires 0x1_0000 <= c <= 0x10FFFF && t + 4 <= target.Length
    modifies target
    ensures target[..t + 4] == old(target[..t]) + Encode8(c)
  {
    DivideTwice(c);
    target[t + 3] := 0x80 + c % 0x40;
    var ch := c / 0x40;
    target[t + 2] := 0x80 + ch % 0x40;
    ch := ch / 0x40;
    target[t + 1] := 0x80 + ch % 0x40;
    target[t] := 0xF0 + ch / 0x40;
  }

  method Put8(target: array<byte>, t: nat, c: nat) returns (bytesToWrite: nat)
    requires c <= 0x10FFFF && t + Width8(c) <= target.Length
    modifies target
    ensures bytesToWrite == Width8(c) && target[..t + bytesToWrite] == old(target[..t]) + Encode8(c)
  {
    if c < 0x80 {
      target[t] := c;
      return 1;
    } else if c < 0x800 {
      Put2(target, t, c);
      return 2;
    } else if c < 0x1_0000 {
      Put3(target, t, c);
      return 3;
    }
    Put4(target, t, c);
    return 4;
  }

  method Put16(target: array<Unit16>, t: nat, c: nat) returns (units: nat)
    requires c <= 0x10FFFF && t + Width16(c) <= target.Length
    modifies target
    ensures units == Width16(c) && target[..t + units] == old(target[..t]) + Encode16(c)
  {
    if c <= 0xFFFF {
      target[t] := c;
      return 1;
    }
    var ch := c - 0x1_0000;
    target[t] := ch / 0x400 + 0xD800;
    target[t + 1] := ch % 0x400 + 0xDC00;
    return 2;
  }

  // ---------------------------------------------------------------------------------------------
  // Reading one code point
  // ---------------------------------------------------------------------------------------------

  method Read32(source: seq<Unit32>, used: nat, strict: bool) returns (r: Step)
    requires used < |source|
    ensures r == Next32(source, used, strict) && (r.Go? ==> r.ch <= 0x10FFFF && r.used == 1)
  {
    var ch := source[used];
    if strict && IsSurrogate(ch) {
      return Stop(SourceIllegal);
    }
    if ch > 0x10FFFF {
      return Go(1, REPLACEMENT, true);
    }
    r := Go(1, ch, false);
  }

  method Read16(source: seq<Unit16>, used: nat, strict: bool) returns (r: Step)
    requires used < |source|
    ensures r == Next16(source, used, strict) && (r.Go? ==> r.ch <= 0x10FFFF && !r.illegal && 0 < r.used <= |source| - used)
  {
    var ch := source[used];
    if IsHigh(ch) {
      if used + 1 == |source| {
        return Stop(SourceExhausted);
      }
      var ch2 := source[used + 1];
      if IsLow(ch2) {
        return Go(2, Joined(ch, ch2), false);
      } else if strict {
        return Stop(SourceIllegal);
      }
    } else if strict && IsLow(ch) {
      return Stop(SourceIllegal);
    }
    r := Go(1, ch, false);
  }

  /** The code point of a legal sequence: its bytes added up with shifts, less the offset. */
  method Gather(s: Bytes) returns (ch: nat)
    requires IsSequence(s)
    ensures ch == Decode8(s)
  {
    var extraBytesToRead := Trailing(s[0]);
    var acc := 0;
    var k := 0;
    if extraBytesToRead >= 3 {
      acc := (acc + s[k]) * 0x40;
      k := k + 1;
    }
    if extraBytesToRead >= 2 {
      acc := (acc + s[k]) * 0x40;
      k := k + 1;
    }
    if extraBytesToRead >= 1 {
      acc := (acc + s[k]) * 0x40;
      k := k + 1;
    }
    acc := acc + s[k];
    DecodeEncode(s);
    ch := acc - Offset(extraBytesToRead);
  }

  /** `full` is the reader's early look at the target, between the two checks of the source. */
  method Read8(source: Bytes, used: nat, full: bool) returns (r: Step)
    requires used < |source|
    ensures var t := Next8(source, used);
      r == if full && (t.Go? || t.outcome == SourceIllegal) then Stop(TargetExhausted) else t
    ensures r.Go? ==> r.ch <= 0x10FFFF && 0 < r.used <= |source| - used && !r.illegal && !full
  {
    var length := Trailing(source[used]) + 1;
    if length > |source| - used {
      return Stop(SourceExhausted);
    }
    var s := source[used..used + length];
    if full {
      return Stop(TargetExhausted);
    }
    if !IsLegal(s) {
      return Stop(SourceIllegal);
    }
    DecodeEncode(s);
    var ch := Gather(s);
    r := Go(length, ch, false);
  }

  // ---------------------------------------------------------------------------------------------
  // Loops
  // ---------------------------------------------------------------------------------------------

  /** `spell` grows by the encoding of each code point. */
  ghost predicate Spells8(spell: seq<nat> -> Bytes) {
    && spell([]) == []
    && forall cs: seq<nat>, c: nat {:trigger spell(cs + [c])} | AllPoints(cs) && c <= 0x10FFFF ::
         spell(cs + [c]) == spell(cs) + Encode8(c)
  }

  ghost predicate Spells16(spell: seq<nat> -> seq<Unit16>) {
    && spell([]) == []
    && forall cs: seq<nat>, c: nat {:trigger spell(cs + [c])} | AllPoints(cs) && c <= 0x10FFFF ::
         spell(cs + [c]) == spell(cs) + Encode16(c)
  }

  ghost function Spelling8(): (f: seq<nat> -> Bytes)
    ensures Spells8(f) && forall cs :: AllPoints(cs) ==> f(cs) == Utf8(cs)
  {
    var f := (cs: seq<nat>) => if AllPoints(cs) then Utf8(cs) else [];
    assert Spells8(f) by {
      forall cs: seq<nat>, c: nat | AllPoints(cs) && c <= 0x10FFFF
        ensures f(cs + [c]) == f(cs) + Encode8(c)
      {
        Utf8Append(cs, c);
      }
    }
    f
  }

  ghost function Spelling16(): (f: seq<nat> -> seq<Unit16>)
    ensures Spells16(f) && forall cs :: AllPoints(cs) ==> f(cs) == Utf16(cs)
  {
    var f := (cs: seq<nat>) => if AllPoints(cs) then Utf16(cs) else [];
    assert Spells16(f) by {
      forall cs: seq<nat>, c: nat | AllPoints(cs) && c <= 0x10FFFF
        ensures f(cs + [c]) == f(cs) + Encode16(c)
      {
        Utf16Append(cs, c);
      }
    }
    f
  }

  /** The end of a turn that writes UTF-8: stop, find the target full, or write. */
  method Emit8<S>(ghost spell: seq<nat> -> Bytes, ghost step: (seq<S>, nat) -> Step, ghost source: seq<S>,
                  target: array<byte>, ghost used: nat, written: nat,
                   ghost out: seq<nat>, ghost bad: bool, r: Step) returns (stop: bool, n: nat, ghost outNow: seq<nat>)
    requires used < |source| && written <= target.Length && AllPoints(out) && target[..written] == spell(out)
    requires Spells8(spell)
    requires r == step(source, used) && (r.Go? ==> 0 < r.used <= |source| - used && r.ch <= 0x10FFFF)
    modifies target
    ensures n <= target.Length - written && AllPoints(outNow) && target[..written + n] == spell(outNow)
    ensures stop ==> n == 0
    ensures stop ==> (Run(step, Width8, source, false, used, target.Length - written, out, bad)
      == (if r.Stop? then r.outcome else TargetExhausted, used, outNow))
    ensures !stop ==> r.Go?
    ensures !stop ==> (Run(step, Width8, source, false, used, target.Length - written, out, bad)
      == Run(step, Width8, source, false, used + r.used, target.Length - (written + n), outNow, bad || r.illegal))
  {
    outNow := out;
    if r.Stop? || written + Width8(r.ch) > target.Length {
      return true, 0, out;
    }
    outNow := out + [r.ch];
    assert spell(outNow) == spell(out) + Encode8(r.ch);
    n := Put8(target, written, r.ch);
    stop := false;
  }

  /** The end of a turn that writes UTF-16: stop, find the target full, or write. */
  method Emit16<S>(ghost spell: seq<nat> -> seq<Unit16>, ghost step: (seq<S>, nat) -> Step, ghost source: seq<S>,
                   target: array<Unit16>, ghost used: nat, written: nat,
                   ghost out: seq<nat>, ghost bad: bool, r: Step) returns (stop: bool, n: nat, ghost outNow: seq<nat>)
    requires used < |source| && written <= target.Length && AllPoints(out) && target[..written] == spell(out)
    requires Spells16(spell)
    requires r == step(source, used) && (r.Go? ==> 0 < r.used <= |source| - used && r.ch <= 0x10FFFF)
    modifies target
    ensures n <= target.Length - written && AllPoints(outNow) && target[..written + n] == spell(outNow)
    ensures stop ==> n == 0
    ensures stop ==> (Run(step, Width16, source, false, used, target.Length - written, out, bad)
      == (if r.Stop? then r.outcome else TargetExhausted, used, outNow))
    ensures !stop ==> r.Go?
    ensures !stop ==> (Run(step, Width16, source, false, used, target.Length - written, out, bad)
      == Run(step, Width16, source, false, used + r.used, target.Length - (written + n), outNow, bad || r.illegal))
  {
    outNow := out;
    if r.Stop? || written + Width16(r.ch) > target.Length {
      return true, 0, out;
    }
    outNow := out + [r.ch];
    assert spell(outNow) == spell(out) + Encode16(r.ch);
    n := Put16(target, written, r.ch);
    stop := false;
  }

  lemma RunEnd<S>(step: (seq<S>, nat) -> Step, width: nat -> nat, src: seq<S>, room: nat, out: seq<nat>, bad: bool)
    ensures Run(step, width, src, false, |src|, room, out, bad) == (if bad then SourceIllegal else ConversionOk, |src|, out)
  {
  }

  // The loops know of the step only that it is what the reading makes it.

  method Loop32To8(ghost spell: seq<nat> -> Bytes, ghost step: (seq<Unit32>, nat) -> Step, source: seq<Unit32>,
                   target: array<byte>, strict: bool)
    returns (result: Outcome, used: nat, written: nat, ghost out: seq<nat>)
    requires Spells8(spell)
    requires forall i: nat {:trigger Next32(source, i, strict)} | i < |source| :: step(source, i) == Next32(source, i, strict)
    modifies target
    ensures written <= target.Length && AllPoints(out) && target[..written] == spell(out)
    ensures (result, used, out) == Convert(step, Width8, source, false, target.Length)
  {
    hide Next32, Width8;
    used, written, out := 0, 0, [];
    var bad := false;
    ghost var whole := Convert(step, Width8, source, false, target.Length);
    while used < |source|
      invariant used <= |source| && written <= target.Length
      invariant AllPoints(out) && target[..written] == spell(out)
      invariant Run(step, Width8, source, false, used, target.Length - written, out, bad) == whole
    {
      var r := Read32(source, used, strict);
      var stop, n;
      stop, n, out := Emit8(spell, step, source, target, used, written, out, bad, r);
      if stop {
        return if r.Stop? then r.outcome else TargetExhausted, used, written, out;
      }
      used, written := used + r.used, written + n;
      bad := bad || r.illegal;
    }
    RunEnd(step, Width8, source, target.Length - written, out, bad);
    result := if bad then SourceIllegal else ConversionOk;
  }

  method ConvertUtf32ToUtf8(source: seq<Unit32>, target: array<byte>, strict: bool)
    returns (result: Outcome, used: nat, written: nat, ghost out: seq<nat>)
    modifies target
    ensures written <= target.Length && AllPoints(out) && target[..written] == Utf8(out)
    ensures (result, used, out) == Convert(Step32(strict), Width8, source, false, target.Length)
  {
    result, used, written, out := Loop32To8(Spelling8(), Step32(strict), source, target, strict);
  }

  method Loop16To8(ghost spell: seq<nat> -> Bytes, ghost step: (seq<Unit16>, nat) -> Step, source: seq<Unit16>,
                   target: array<byte>, strict: bool)
    returns (result: Outcome, used: nat, written: nat, ghost out: seq<nat>)
    requires Spells8(spell)
    requires forall i: nat {:trigger Next16(source, i, strict)} | i < |source| :: step(source, i) == Next16(source, i, strict)
    modifies target
    ensures written <= target.Length && AllPoints(out) && target[..written] == spell(out)
    ensures (result, used, out) == Convert(step, Width8, source, false, target.Length)
  {
    hide Next16, Next8, Width8, Width16;
    used, written, out := 0, 0, [];
    ghost var bad, whole := false, Convert(step, Width8, source, false, target.Length);
    while used < |source|
      invariant used <= |source| && written <= target.Length && !bad
      invariant AllPoints(out) && target[..written] == spell(out)
      invariant Run(step, Width8, source, false, used, target.Length - written, out, bad) == whole
    {
      var r := Read16(source, used, strict);
      var stop, n;
      stop, n, out := Emit8(spell, step, source, target, used, written, out, bad, r);
      if stop {
        return if r.Stop? then r.outcome else TargetExhausted, used, written, out;
      }
      used, written := used + r.used, written + n;
      bad := bad || r.illegal;
    }
    result := ConversionOk;
  }

  method ConvertUtf16ToUtf8(source: seq<Unit16>, target: array<byte>, strict: bool)
    returns (result: Outcome, used: nat, written: nat, ghost out: seq<nat>)
    modifies target
    ensures written <= target.Length && AllPoints(out) && target[..written] == Utf8(out)
    ensures (result, used, out) == Convert(Step16(strict), Width8, source, false, target.Length)
  {
    result, used, written, out := Loop16To8(Spelling8(), Step16(strict), source, target, strict);
  }

  method Loop8To16(ghost spell: seq<nat> -> seq<Unit16>, ghost step: (Bytes, nat) -> Step, source: Bytes,
                   target: array<Unit16>)
    returns (result: Outcome, used: nat, written: nat, ghost out: seq<nat>)
    requires Spells16(spell)
    requires forall i: nat {:trigger Next8(source, i)} | i < |source| :: step(source, i) == Next8(source, i)
    modifies target
    ensures written <= target.Length && AllPoints(out) && target[..written] == spell(out)
    ensures (result, used, out) == Convert(step, Width16, source, false, target.Length)
  {
    hide Next16, Next8, Width8, Width16;
    used, written, out := 0, 0, [];
    ghost var bad, whole := false, Convert(step, Width16, source, false, target.Length);
    while used < |source|
      invariant used <= |source| && written <= target.Length && !bad
      invariant AllPoints(out) && target[..written] == spell(out)
      invariant Run(step, Width16, source, false, used, target.Length - written, out, bad) == whole
    {
      var r := Read8(source, used, false);
      var stop, n;
      stop, n, out := Emit16(spell, step, source, target, used, written, out, bad, r);
      if stop {
        return if r.Stop? then r.outcome else TargetExhausted, used, written, out;
      }
      used, written := used + r.used, written + n;
      bad := bad || r.illegal;
    }
    result := ConversionOk;
  }

  method ConvertUtf8ToUtf16(source: Bytes, target: array<Unit16>)
    returns (result: Outcome, used: nat, written: nat, ghost out: seq<nat>)
    modifies target
    ensures written <= target.Length && AllPoints(out) && target[..written] == Utf16(out)
    ensures (result, used, out) == Convert(Step8(), Width16, source, false, target.Length)
  {
    result, used, written, out := Loop8To16(Spelling16(), Step8(), source, target);
  }

  /** The end of a turn of ConvertUTF8toUTF32. */
  method Emit32(ghost step: (Bytes, nat) -> Step, ghost source: Bytes, target: array<nat>, ghost used: nat,
                written: nat,
                ghost out: seq<nat>, r: Step) returns (ghost outNow: seq<nat>)
    requires used < |source| && written <= target.Length && target[..written] == out
    requires var t := step(source, used);
      && (t.Go? ==> 0 < t.used <= |source| - used && !t.illegal)
      && r == if written == target.Length && (t.Go? || t.outcome == SourceIllegal) then Stop(TargetExhausted) else t
    modifies target
    ensures r.Stop? ==> target[..written] == outNow
    ensures r.Stop? ==> Run(step, Width32, source, true, used, target.Length - written, out, false) == (r.outcome, used, outNow)
    ensures r.Go? ==> written < target.Length && target[..written + 1] == outNow
    ensures r.Go? ==> (Run(step, Width32, source, true, used, target.Length - written, out, false)
      == Run(step, Width32, source, true, used + r.used, target.Length - (written + 1), outNow, false))
  {
    if r.Stop? {
      return out;
    }
    outNow := out + [r.ch];
    target[written] := r.ch;
  }

  method Loop8To32(ghost step: (Bytes, nat) -> Step, source: Bytes, target: array<nat>)
    returns (result: Outcome, used: nat, written: nat, ghost out: seq<nat>)
    requires forall i: nat {:trigger Next8(source, i)} | i < |source| :: step(source, i) == Next8(source, i)
    modifies target
    ensures written <= target.Length && target[..written] == out
    ensures (result, used, out) == Convert(step, Width32, source, true, target.Length)
  {
    used, written, out := 0, 0, [];
    ghost var whole := Convert(step, Width32, source, true, target.Length);
    while used < |source|
      invariant used <= |source| && written <= target.Length && target[..written] == out
      invariant Run(step, Width32, source, true, used, target.Length - written, out, false) == whole
    {
      var r := Read8(source, used, written == target.Length);
      out := Emit32(step, source, target, used, written, out, r);
      if r.Stop? {
        return r.outcome, used, written, out;
      }
      used, written := used + r.used, written + 1;
    }
    result := ConversionOk;
  }

  /** The strict conversion. */
  method ConvertUtf8ToUtf32(source: Bytes, target: array<nat>)
    returns (result: Outcome, used: nat, written: nat, ghost out: seq<nat>)
    modifies target
    ensures written <= target.Length && target[..written] == out
    ensures (result, used, out) == Convert(Step8(), Width32, source, true, target.Length)
  {
    result, used, written, out := Loop8To32(Step8(), source, target);
  }

  // ---------------------------------------------------------------------------------------------
  // Wrappers
  // ---------------------------------------------------------------------------------------------

  const BOM := 0xFEFF
  const BOM_SWAPPED := 0xFFFE

  function Swap(u: Unit16): Unit16 { u % 0x100 * 0x100 + u / 0x100 }

  function Swapped(u: seq<Unit16>): (r: seq<Unit16>)
    ensures |r| == |u|
  {
    seq(|u|, i requires 0 <= i < |u| => Swap(u[i]))
  }

  /** The units to convert: in the machine's byte order, and without a byte order mark. */
  function Unmarked(u: seq<Unit16>): (r: seq<Unit16>)
    ensures |r| <= |u|
  {
    if u == [] then []
    else
      var v := if u[0] == BOM_SWAPPED then Swapped(u) else u;
      if v[0] == BOM then v[1..] else v
  }

  /** A mark in the machine's order is dropped; a mark in the other order is dropped as well, and the bytes of all units
      behind it change places; without a mark nothing is changed. */
  lemma Marks(u: seq<Unit16>, hi: byte, lo: byte)
    ensures Unmarked([0xFEFF] + u) == u && Unmarked([0xFFFE, hi * 0x100 + lo] + u) == [lo * 0x100 + hi] + Swapped(u)
    ensures u != [] && u[0] !in [0xFEFF, 0xFFFE] ==> Unmarked(u) == u
    ensures Unmarked([]) == []
  {
    assert ([0xFEFF] + u)[1..] == u;
    var v := [0xFFFE, hi * 0x100 + lo] + u;
    assert Swap(0xFFFE) == 0xFEFF && Swap(hi * 0x100 + lo) == lo * 0x100 + hi;
    assert Swapped(v) == [0xFEFF, lo * 0x100 + hi] + Swapped(u);
    assert Swapped(v)[1..] == [lo * 0x100 + hi] + Swapped(u);
  }

  /** Four bytes for each unit are always enough. */
  lemma Enough16(u: seq<Unit16>, room: nat)
    requires room >= 4 * |u|
    ensures var r := Convert(Step16(true), Width8, u, false, room);
      && r.0 != TargetExhausted && (r.0 == ConversionOk <==> Scalars16(u).Some?)
      && (Scalars16(u).Some? ==> r.2 == Scalars16(u).value)
  {
    forall i: nat | i < |u|
      ensures Step16(true)(u, i).Stop? ==> Step16(true)(u, i).outcome != TargetExhausted
      ensures Step16(true)(u, i).Go? ==> Width8(Step16(true)(u, i).ch) <= 4 * Step16(true)(u, i).used
    {
      Follows16(u, i);
    }
    Roomy(Step16(true), Width8, u, 0, room, [], false, 4);
    Strict16(u, Width8, room);
    Total16To8(u, 0);
    assert u[0..] == u;
  }

  lemma {:induction false} Total16To8(u: seq<Unit16>, i: nat)
    requires i <= |u|
    ensures Scalars16(u[i..]).Some? ==> Total(Width8, Scalars16(u[i..]).value) <= 4 * (|u| - i)
    decreases |u| - i
  {
    if i == |u| {
      assert u[i..] == [];
    } else {
      Follows16(u, i);
      var t := Step16(true)(u, i);
      if t.Go? {
        Total16To8(u, i + t.used);
        if Scalars16(u[i + t.used..]).Some? {
          TotalCons(Width8, t.ch, Scalars16(u[i + t.used..]).value);
        }
      }
    }
  }

  /** UTF-16 takes no more units than UTF-8 takes bytes. */
  lemma Narrow8(s: Bytes, i: nat)
    requires i < |s| && Step8()(s, i).Go?
    ensures Width16(Step8()(s, i).ch) <= Step8()(s, i).used
  {
    DecodeEncode(s[i..i + Trailing(s[i]) + 1]);
  }

  lemma {:induction false} Total8To16(s: Bytes, i: nat)
    requires i <= |s|
    ensures Scalars8(s[i..]).Some? ==> Total(Width16, Scalars8(s[i..]).value) <= |s| - i
    decreases |s| - i
  {
    if i == |s| {
      assert s[i..] == [];
    } else {
      Follows8(s, i);
      var t := Step8()(s, i);
      if t.Go? {
        Narrow8(s, i);
        Total8To16(s, i + t.used);
        if Scalars8(s[i + t.used..]).Some? {
          TotalCons(Width16, t.ch, Scalars8(s[i + t.used..]).value);
        }
      }
    }
  }

  /** One unit for each byte is always enough. */
  lemma Enough8(s: Bytes, room: nat)
    requires room >= |s|
    ensures var r := Convert(Step8(), Width16, s, false, room);
      && r.0 != TargetExhausted && (r.0 == ConversionOk <==> Scalars8(s).Some?)
      && (Scalars8(s).Some? ==> r.2 == Scalars8(s).value)
  {
    forall i: nat | i < |s|
      ensures Step8()(s, i).Stop? ==> Step8()(s, i).outcome != TargetExhausted
      ensures Step8()(s, i).Go? ==> Width16(Step8()(s, i).ch) <= 1 * Step8()(s, i).used
    {
      Follows8(s, i);
      if Step8()(s, i).Go? {
        Narrow8(s, i);
      }
    }
    Roomy(Step8(), Width16, s, 0, room, [], false, 1);
    Strict8(s, Width16, false, room);
    Total8To16(s, 0);
    assert s[0..] == s;
  }

  /** The string wrapper: it succeeds exactly on UTF-16, and its target never runs out. */
  method ConvertUtf16ToUtf8String(src: seq<Unit16>) returns (ok: bool, dst: Bytes)
    ensures ok <==> Scalars16(Unmarked(src)).Some?
    ensures dst == if ok then Utf8(Scalars16(Unmarked(src)).value) else []
  {
    if src == [] {
      return true, [];
    }
    var units := src;
    if src[0] == BOM_SWAPPED {
      var byteSwapped := [];
      for i := 0 to |src|
        invariant byteSwapped == Swapped(src)[..i]
      {
        byteSwapped := byteSwapped + [Swap(src[i])];
      }
      assert byteSwapped == Swapped(src);
      units := byteSwapped;
    }
    if units[0] == BOM {
      units := units[1..];
    }
    var target := new byte[|src| * 4 + 1];
    var result, used, written, out := ConvertUtf16ToUtf8(units, target, true);
    Enough16(units, target.Length);
    assert result != TargetExhausted;
    if result != ConversionOk {
      return false, [];
    }
    ok, dst := true, target[..written];
  }

  method ConvertUtf8ToUtf16String(src: Bytes) returns (ok: bool, dst: seq<Unit16>)
    ensures ok <==> Scalars8(src).Some?
    ensures dst == if ok then Utf16(Scalars8(src).value) else []
  {
    if src == [] {
      return true, [];
    }
    var target := new Unit16[|src| + 1];
    var result, used, written, out := ConvertUtf8ToUtf16(src, target);
    Enough8(src, target.Length);
    assert result != TargetExhausted;
    if result != ConversionOk {
      return false, [];
    }
    ok, dst := true, target[..written];
  }
}
