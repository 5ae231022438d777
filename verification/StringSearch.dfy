/**
  `StringRef::find` (StringRef.cpp): Boyer-Moore-Horspool search with a byte-indexed skip table, and the naive loop for
  short haystacks and long needles. Both return the first occurrence.
 */
module StringSearch {
  import opened Basics

  predicate OccursAt(hay: Bytes, needle: Bytes, i: nat) {
    i + |needle| <= |hay| && hay[i..i + |needle|] == needle
  }

  ghost predicate NoneIn(hay: Bytes, needle: Bytes, lo: nat, hi: nat) {
    forall i: nat :: lo <= i < hi ==> !OccursAt(hay, needle, i)
  }

  /** How far the needle can move when the haystack byte under its last position is `c`. */
  function Skip(needle: Bytes, c: byte, upto: nat): (r: nat)
    requires upto < |needle|
    ensures r <= |needle|
    ensures forall j :: 0 <= j < upto && needle[j] == c ==> r <= |needle| - 1 - j
    ensures r == |needle| || exists j :: 0 <= j < upto && needle[j] == c && r == |needle| - 1 - j
  {
    if upto == 0 then |needle|
    else if needle[upto - 1] == c then |needle| - upto
    else Skip(needle, c, upto - 1)
  }

  /** Moving by the skip passes over no occurrence. */
  lemma SkipIsSafe(hay: Bytes, needle: Bytes, start: nat)
    requires 0 < |needle| && start + |needle| <= |hay| && !OccursAt(hay, needle, start)
    ensures var d := Skip(needle, hay[start + |needle| - 1], |needle| - 1);
      d > 0 && NoneIn(hay, needle, start, start + d)
  {
    var n, c := |needle|, hay[start + |needle| - 1];
    var d := Skip(needle, c, n - 1);
    forall i: nat | start < i < start + d
      ensures !OccursAt(hay, needle, i)
    {
      var j := start + n - 1 - i;
      assert needle[j] != c;
      assert i + n <= |hay| ==> hay[i..i + n][j] == c;
    }
  }

  /** The skip table: one byte for each byte value. */
  method BuildSkips(str: Bytes) returns (badCharSkip: array<byte>)
    requires 0 < |str| <= 255
    ensures badCharSkip.Length == 256
    ensures forall c :: 0 <= c < 256 ==> badCharSkip[c] == Skip(str, c, |str| - 1)
  {
    badCharSkip := new byte[256](_ => |str|);
    for i := 0 to |str| - 1
      invariant forall c :: 0 <= c < 256 ==> badCharSkip[c] == Skip(str, c, i)
    {
      badCharSkip[str[i]] := |str| - 1 - i;
    }
  }

  /** The loop for short haystacks and unsupported needles. */
  method FindNaive(hay: Bytes, str: Bytes, from: nat) returns (r: Option<nat>)
    requires 0 < |str| && from + |str| <= |hay|
    ensures First(hay, str, from, r)
  {
    var n, start, stop := |str|, from, |hay| - |str| + 1;
    while true
      invariant from <= start < stop && NoneIn(hay, str, from, start)
      decreases stop - start
    {
      if hay[start..start + n] == str {
        return Some(start);
      }
      start := start + 1;
      if start >= stop {
        return None;
      }
    }
  }

  method FindSkipping(hay: Bytes, str: Bytes, from: nat) returns (r: Option<nat>)
    requires 0 < |str| <= 255 && from + |str| <= |hay|
    ensures First(hay, str, from, r)
  {
    var badCharSkip := BuildSkips(str);
    var n, start, stop := |str|, from, |hay| - |str| + 1;
    while true
      invariant from <= start < stop && NoneIn(hay, str, from, start)
      invariant forall c :: 0 <= c < 256 ==> badCharSkip[c] == Skip(str, c, |str| - 1)
      decreases stop - start
    {
      if hay[start..start + n] == str {
        return Some(start);
      }
      var skip := badCharSkip[hay[start + n - 1]];
      SkipIsSafe(hay, str, start);
      assert skip == Skip(str, hay[start + n - 1], n - 1);
      start := start + skip;
      if start >= stop {
        return None;
      }
    }
  }

  /** `r` is the least index at or after `from` where `needle` occurs, or None when there is none. */
  ghost predicate First(hay: Bytes, needle: Bytes, from: nat, r: Option<nat>) {
    match r
    case Some(i) => from <= i && OccursAt(hay, needle, i) && NoneIn(hay, needle, from, i)
    case None => forall i: nat :: from <= i ==> !OccursAt(hay, needle, i)
  }

  /** The least index at or after `from` where `str` occurs, or None for npos. */
  method Find(hay: Bytes, str: Bytes, from: nat) returns (r: Option<nat>)
    ensures First(hay, str, from, r)
  {
    if from > |hay| {
      return None;
    }
    var n := |str|;
    if n == 0 {
      return Some(from);
    }
    var size := |hay| - from;
    if size < n {
      return None;
    }
    if size < 16 || n > 255 {
      r := FindNaive(hay, str, from);
    } else {
      r := FindSkipping(hay, str, from);
    }
  }
}
