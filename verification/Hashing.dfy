/**
  The byte-stream hash (Hashing.h) in its three forms: over contiguous memory, over an iterator through a 64-byte
  buffer, and as the recursive `hash_combine`. The mixing functions themselves are left abstract; what is proved is that
  the three forms feed them the same bytes, whatever the sizes of the pieces.
 */
module Hashing {
  import opened Basics
  import Probing

  /** The seeded mixing functions: create, mix, finalize and hash_short. */
  datatype Hasher<!S(!new)> = Hasher(create: Bytes -> S, mix: (S, Bytes) -> S, finish: (S, nat) -> nat, short: Bytes -> nat)

  /** The state after all of `data`, which is one or more whole 64-byte chunks. */
  ghost function Rounds<S(!new)>(h: Hasher<S>, data: Bytes): S
    requires |data| >= 64 && |data| % 64 == 0
    decreases |data|
  {
    var rest := data[..|data| - 64];
    if rest == [] then h.create(data) else h.mix(Rounds(h, rest), data[|data| - 64..])
  }

  /** The hash of a byte string: short ones in one go; long ones by 64-byte chunks, and if the last chunk is not whole,
      the last 64 bytes once more. */
  ghost function HashOf<S(!new)>(h: Hasher<S>, data: Bytes): nat {
    if |data| <= 64 then h.short(data)
    else
      var state := Rounds(h, data[..|data| - |data| % 64]);
      h.finish(if |data| % 64 == 0 then state else h.mix(state, data[|data| - 64..]), |data|)
  }

  ghost function Concat(items: seq<Bytes>): Bytes {
    if items == [] then [] else Concat(items[..|items| - 1]) + items[|items| - 1]
  }

  /** One more chunk. */
  lemma RoundsMore<S(!new)>(h: Hasher<S>, data: Bytes, chunk: Bytes)
    requires |data| >= 64 && |data| % 64 == 0 && |chunk| == 64
    ensures Rounds(h, data + chunk) == h.mix(Rounds(h, data), chunk)
  {
    assert (data + chunk)[..|data|] == data && (data + chunk)[|data|..] == chunk;
  }

  /** Which bytes go where: 64 start the state, a second 64 are mixed in, and of what is short of another 64 the last 64
      bytes are, part of them again. */
  lemma HashShapes<S(!new)>(h: Hasher<S>, data: Bytes)
    ensures |data| <= 64 ==> HashOf(h, data) == h.short(data)
    ensures 64 < |data| < 128 ==>
      HashOf(h, data) == h.finish(h.mix(h.create(data[..64]), data[|data| - 64..]), |data|)
    ensures |data| == 128 ==> HashOf(h, data) == h.finish(h.mix(h.create(data[..64]), data[64..]), 128)
    ensures 128 < |data| < 192 ==>
      HashOf(h, data) == h.finish(h.mix(h.mix(h.create(data[..64]), data[64..128]), data[|data| - 64..]), |data|)
  {
    if 64 < |data| < 192 {
      var first := data[..64];
      assert first[..0] == [];
      assert Rounds(h, first) == h.create(first);
      if |data| >= 128 {
        RoundsMore(h, first, data[64..128]);
        assert first + data[64..128] == data[..128];
        assert |data| == 128 ==> data[..128] == data && data[64..128] == data[64..];
      }
    }
  }

  /** hash_combine_range_impl over contiguous memory. */
  method HashContiguous<S(!new)>(h: Hasher<S>, data: Bytes) returns (code: nat)
    ensures code == HashOf(h, data)
  {
    var length := |data|;
    if length <= 64 {
      return h.short(data);
    }
    var alignedEnd := length - length % 64;
    var state := h.create(data[..64]);
    var begin := 64;
    assert data[..64][..0] == [];
    while begin != alignedEnd
      invariant 64 <= begin <= alignedEnd && begin % 64 == 0
      invariant state == Rounds(h, data[..begin])
    {
      RoundsMore(h, data[..begin], data[begin..begin + 64]);
      assert data[..begin] + data[begin..begin + 64] == data[..begin + 64];
      state := h.mix(state, data[begin..begin + 64]);
      begin := begin + 64;
    }
    if length % 64 != 0 {
      state := h.mix(state, data[length - 64..]);
    }
    code := h.finish(state, length);
  }

  /** store_and_advance: all of `data` from `offset` on goes into the buffer at `ptr`, if it fits. */
  method StoreAndAdvance(buffer: array<byte>, ptr: nat, data: Bytes, offset: nat) returns (ok: bool, newPtr: nat)
    requires ptr <= buffer.Length && offset <= |data|
    modifies buffer
    ensures ok == (ptr + |data| - offset <= buffer.Length)
    ensures !ok ==> newPtr == ptr && buffer[..] == old(buffer[..])
    ensures ok ==> newPtr == ptr + |data| - offset
    ensures ok ==> buffer[..newPtr] == old(buffer[..ptr]) + data[offset..] && buffer[newPtr..] == old(buffer[newPtr..])
  {
    if ptr + |data| - offset > buffer.Length {
      return false, ptr;
    }
    forall i | offset <= i < |data| {
      buffer[ptr + i - offset] := data[i];
    }
    return true, ptr + |data| - offset;
  }

  /** std::rotate: the element at `k` becomes the first. */
  method Rotate(buffer: array<byte>, k: nat)
    requires k <= buffer.Length
    modifies buffer
    ensures buffer[..] == old(buffer[k..]) + old(buffer[..k])
  {
    var s := buffer[k..] + buffer[..k];
    forall i | 0 <= i < buffer.Length {
      buffer[i] := s[i];
    }
  }

  /** A partly refilled buffer holds, once rotated, the last 64 bytes. */
  lemma RotatedIsLast(fed: Bytes, length: nat, buffer: Bytes, ptr: nat)
    requires |buffer| == 64 && ptr <= 64 <= length && |fed| == length + ptr
    requires buffer[..ptr] == fed[length..] && buffer[ptr..] == fed[length - 64 + ptr..length]
    ensures buffer[ptr..] + buffer[..ptr] == fed[|fed| - 64..]
  {
  }

  /** The buffer at work: `length` bytes are hashed, the `ptr` bytes fed since are at its front, and behind them is
      what remains of the chunk hashed last. */
  ghost predicate Feeding<S(!new)>(h: Hasher<S>, fed: Bytes, length: nat, state: S, buffer: Bytes, ptr: nat) {
    && |buffer| == 64 && ptr <= 64 && |fed| == length + ptr && length % 64 == 0
    && buffer[..ptr] == fed[length..]
    && (length > 0 ==> state == Rounds(h, fed[..length]) && buffer[ptr..] == fed[length - 64 + ptr..length])
  }

  /** A full buffer goes into the state. */
  lemma HashedFull<S(!new)>(h: Hasher<S>, fed: Bytes, length: nat, state: S, buffer: Bytes)
    requires Feeding(h, fed, length, state, buffer, 64)
    ensures Feeding(h, fed, length + 64, if length == 0 then h.create(buffer) else h.mix(state, buffer), buffer, 0)
  {
    assert buffer == fed[length..];
    if length == 0 {
      assert fed == buffer && buffer[..0] == [];
    } else {
      RoundsMore(h, fed[..length], buffer);
      assert fed[..length] + buffer == fed;
    }
    assert fed[..length + 64] == fed;
    assert fed[length + 64 - 64 + 0..length + 64] == buffer;
  }

  /** Finishing with a partly or wholly filled buffer. */
  lemma FinishedBuffer<S(!new)>(h: Hasher<S>, fed: Bytes, length: nat, state: S, buffer: Bytes, ptr: nat)
    requires Feeding(h, fed, length, state, buffer, ptr) && length > 0 && ptr > 0
    ensures HashOf(h, fed) == h.finish(h.mix(state, buffer[ptr..] + buffer[..ptr]), length + ptr)
  {
    RotatedIsLast(fed, length, buffer, ptr);
    if ptr == 64 {
      RoundsMore(h, fed[..length], fed[length..]);
      assert fed[..length] + fed[length..] == fed == fed[..|fed|];
    }
  }

  /** New bytes at the front of a buffer whose contents have been hashed. */
  lemma Refilled<S(!new)>(h: Hasher<S>, fed: Bytes, length: nat, state: S, old_: Bytes, buffer: Bytes, ptr: nat)
    requires Feeding(h, fed, length, state, old_, 0) && length > 0
    requires |buffer| == 64 && ptr <= 64 && buffer[ptr..] == old_[ptr..]
    ensures Feeding(h, fed + buffer[..ptr], length, state, buffer, ptr)
  {
    var now := fed + buffer[..ptr];
    assert now[..length] == fed[..length];
    assert old_ == old_[0..] == fed[length - 64..length];
    assert buffer[ptr..] == now[length - 64 + ptr..length];
  }

  // ---------------------------------------------------------------------------------------------
  // hash_combine_range over an iterator
  // ---------------------------------------------------------------------------------------------

  lemma ConcatNext(items: seq<Bytes>, n: nat)
    requires n < |items|
    ensures Concat(items[..n + 1]) == Concat(items[..n]) + items[n]
  {
    assert items[..n + 1][..n] == items[..n];
  }

  /** `n` items of size `w` are in the buffer and one more does not fit: the buffer is full exactly if `w` divides 64. */
  lemma GapBehind(n: nat, w: nat)
    requires 0 < w && n * w <= 64 < n * w + w
    ensures n == 64 / w && (n * w == 64 <==> 64 % w == 0)
  {
    Probing.Remainder(64, w, n, 64 - n * w);
    InOrder(n + 1, 64 / w, w);
    InOrder(64 / w + 1, n, w);
  }

  lemma InOrder(a: nat, b: nat, w: nat)
    ensures a <= b ==> a * w <= b * w
  {
  }

  /** Items that fill less than the buffer are fewer than would fill it. */
  lemma FewItems(n: nat, w: nat)
    requires 0 < w && n * w <= 64
    ensures n <= 64 / w
  {
    InOrder(64 / w + 1, n, w);
  }

  lemma {:induction false} ConcatLength(items: seq<Bytes>, w: nat)
    requires forall i :: 0 <= i < |items| ==> |items[i]| == w
    ensures |Concat(items)| == |items| * w
  {
    if items != [] {
      ConcatLength(items[..|items| - 1], w);
    }
  }

  /** How much of the buffer the items from `first` to `next` fill. */
  lemma Filled(items: seq<Bytes>, first: nat, next: nat, w: nat, ptr: nat)
    requires first <= next <= |items| && forall i :: 0 <= i < |items| ==> |items[i]| == w
    requires |Concat(items[..next])| == |Concat(items[..first])| + ptr
    ensures ptr == (next - first) * w
  {
    ConcatLength(items[..first], w);
    ConcatLength(items[..next], w);
    Difference(next, first, w);
  }

  lemma Difference(a: int, b: int, w: int)
    ensures a * w - b * w == (a - b) * w
  {
  }

  /** The first filling takes all items, or is full exactly if their size divides the buffer. */
  lemma FirstFill(items: seq<Bytes>, next: nat, w: nat, ptr: nat)
    requires 0 < w && next <= |items| && ptr <= 64 && (next < |items| ==> ptr + w > 64)
    requires forall i :: 0 <= i < |items| ==> |items[i]| == w
    requires |Concat(items[..next])| == |Concat(items[..0])| + ptr
    ensures if next == |items| then |items| <= 64 / w else |items| > 64 / w && (ptr == 64 <==> 64 % w == 0)
  {
    Filled(items, 0, next, w, ptr);
    if next == |items| {
      FewItems(next, w);
    } else {
      GapBehind(next, w);
    }
  }

  /** So is each filling after it; and it takes one item at least. */
  lemma NextFill(items: seq<Bytes>, first: nat, next: nat, w: nat, ptr: nat)
    requires 0 < w && 64 % w == 0 && first < |items| && first <= next <= |items| && ptr <= 64
    requires next < |items| ==> ptr + w > 64
    requires forall i :: 0 <= i < |items| ==> |items[i]| == w
    requires |Concat(items[..next])| == |Concat(items[..first])| + ptr
    ensures first < next && ptr > 0 && (next < |items| ==> ptr == 64)
  {
    Filled(items, first, next, w, ptr);
    if next < |items| {
      GapBehind(next - first, w);
    }
    InOrder(1, next - first, w);
  }

  /** Items, all of the size `w`, are stored until none is left or the next does not fit. */
  method Fill(buffer: array<byte>, items: seq<Bytes>, first: nat, w: nat) returns (next: nat, ptr: nat)
    requires buffer.Length == 64 && first <= |items| && 0 < w
    requires forall i :: 0 <= i < |items| ==> |items[i]| == w
    modifies buffer
    ensures first <= next <= |items| && ptr <= 64 && (next == |items| || ptr + w > 64)
    ensures Concat(items[..next]) == Concat(items[..first]) + buffer[..ptr]
    ensures buffer[ptr..] == old(buffer[ptr..])
  {
    next, ptr := first, 0;
    var ok := true;
    while next != |items| && ok
      invariant first <= next <= |items| && ptr <= 64
      invariant !ok ==> ptr + w > 64
      invariant Concat(items[..next]) == Concat(items[..first]) + buffer[..ptr]
      invariant buffer[ptr..] == old(buffer[ptr..])
      decreases |items| - next, ok
    {
      ConcatNext(items, next);
      ok, ptr := StoreAndAdvance(buffer, ptr, items[next], 0);
      if ok {
        next := next + 1;
      }
    }
  }

  /** hash_combine_range_impl over an iterator. None where the assertion behind the first filling fails: the items do not
      all fit the buffer, and their size does not divide it. */
  method HashIterated<S(!new)>(h: Hasher<S>, items: seq<Bytes>, w: nat) returns (code: Option<nat>)
    requires 0 < w && forall i :: 0 <= i < |items| ==> |items[i]| == w
    ensures code.None? <==> |items| > 64 / w && 64 % w != 0
    ensures code.Some? ==> code.value == HashOf(h, Concat(items))
  {
    var buffer := new byte[64];
    var first, ptr := Fill(buffer, items, 0, w);
    FirstFill(items, first, w, ptr);
    assert items[..|items|] == items;
    if first == |items| {
      assert Concat(items) == buffer[..ptr];
      return Some(h.short(buffer[..ptr]));
    }
    if ptr != 64 {
      return None;
    }
    var state := h.create(buffer[..]);
    var length := 64;
    HashedFull(h, Concat(items[..first]), 0, state, buffer[..]);
    while first != |items|
      invariant first <= |items| && length >= 64
      invariant first < |items| ==> Feeding(h, Concat(items[..first]), length, state, buffer[..], 0)
      invariant first == |items| ==> h.finish(state, length) == HashOf(h, Concat(items))
      decreases |items| - first
    {
      ghost var fed, was := Concat(items[..first]), buffer[..];
      ghost var begin := first;
      first, ptr := Fill(buffer, items, first, w);
      NextFill(items, begin, first, w, ptr);
      ghost var filled := buffer[..];
      Refilled(h, fed, length, state, was, filled, ptr);
      FinishedBuffer(h, fed + filled[..ptr], length, state, filled, ptr);
      Rotate(buffer, ptr);
      if ptr == 64 {
        assert buffer[..] == filled;
        HashedFull(h, fed + filled[..ptr], length, state, filled);
      }
      state := h.mix(state, buffer[..]);
      length := length + ptr;
    }
    code := Some(h.finish(state, length));
  }

  // ---------------------------------------------------------------------------------------------
  // hash_combine
  // ---------------------------------------------------------------------------------------------

  class HashCombineHelper<S(!new)> {
    const h: Hasher<S>
    const buffer: array<byte>
    var state: S

    constructor (h: Hasher<S>, unset: S)
      ensures fresh(buffer) && buffer.Length == 64 && this.h == h
    {
      this.h := h;
      buffer := new byte[64];
      state := unset;
    }

    /** A full buffer starts the state or is mixed into it. */
    method HashBuffer(length: nat, ghost fed: Bytes) returns (newLength: nat)
      requires buffer.Length == 64 && Feeding(h, fed, length, state, buffer[..], 64)
      modifies this
      ensures newLength == length + 64 && Feeding(h, fed, newLength, state, buffer[..], 0)
    {
      HashedFull(h, fed, length, state, buffer[..]);
      if length == 0 {
        state := h.create(buffer[..]);
        newLength := 64;
      } else {
        state := h.mix(state, buffer[..]);
        newLength := length + 64;
      }
    }

    /** What is left of `data` goes to the front of the buffer just hashed. */
    method StoreRest(length: nat, data: Bytes, offset: nat, ghost fed: Bytes) returns (newPtr: nat)
      requires buffer.Length == 64 && Feeding(h, fed, length, state, buffer[..], 0) && length > 0
      requires offset < |data| <= 64
      modifies buffer
      ensures newPtr > 0 && Feeding(h, fed + data[offset..], length, state, buffer[..], newPtr)
    {
      var ok;
      ghost var was := buffer[..];
      ok, newPtr := StoreAndAdvance(buffer, 0, data, offset);
      Refilled(h, fed, length, state, was, buffer[..], newPtr);
      assert buffer[..newPtr] == data[offset..];
    }

    /** One piece of data goes into the buffer; what does not fit goes in after the full buffer has been hashed. */
    method CombineData(length: nat, ptr: nat, data: Bytes, ghost fed: Bytes) returns (newLength: nat, newPtr: nat)
      requires buffer.Length == 64 && |data| <= 64 && Feeding(h, fed, length, state, buffer[..], ptr)
      requires length > 0 ==> ptr > 0
      modifies this, buffer
      ensures Feeding(h, fed + data, newLength, state, buffer[..], newPtr)
      ensures newLength > 0 ==> newPtr > 0
    {
      var ok;
      newLength := length;
      ghost var was := buffer[..];
      ok, newPtr := StoreAndAdvance(buffer, ptr, data, 0);
      if ok {
        Stored(h, fed, length, state, was, ptr, data, buffer[..]);
        return;
      }
      var partialStoreSize := 64 - ptr;
      ok, newPtr := StoreAndAdvance(buffer, ptr, data[..partialStoreSize], 0);
      Stored(h, fed, length, state, was, ptr, data[..partialStoreSize], buffer[..]);
      ghost var fedFull := fed + data[..partialStoreSize];
      newLength := HashBuffer(length, fedFull);
      newPtr := StoreRest(newLength, data, partialStoreSize, fedFull);
      assert fedFull + data[partialStoreSize..] == fed + data;
    }

    static lemma Stored(h: Hasher<S>, fed: Bytes, length: nat, state: S, was: Bytes, ptr: nat, data: Bytes,
                        buffer: Bytes)
      requires Feeding(h, fed, length, state, was, ptr) && ptr + |data| <= 64 == |buffer|
      requires buffer[..ptr + |data|] == was[..ptr] + data && buffer[ptr + |data|..] == was[ptr + |data|..]
      ensures Feeding(h, fed + data, length, state, buffer, ptr + |data|)
    {
      var now, end := fed + data, ptr + |data|;
      assert now[length..] == fed[length..] + data;
      if length > 0 {
        assert now[..length] == fed[..length];
        assert buffer[end..] == was[ptr..][|data|..] == fed[length - 64 + ptr..length][|data|..];
      }
    }

    /** The arguments one after another, then the rest of the buffer. */
    method Combine(length: nat, ptr: nat, args: seq<Bytes>, ghost fed: Bytes) returns (code: nat)
      requires buffer.Length == 64 && Feeding(h, fed, length, state, buffer[..], ptr)
      requires length > 0 ==> ptr > 0
      requires forall i :: 0 <= i < |args| ==> |args[i]| <= 64
      modifies this, buffer
      ensures code == HashOf(h, fed + Concat(args))
      decreases |args|
    {
      if args == [] {
        assert fed + Concat(args) == fed;
        if length == 0 {
          return h.short(buffer[..ptr]);
        }
        FinishedBuffer(h, fed, length, state, buffer[..], ptr);
        Rotate(buffer, ptr);
        state := h.mix(state, buffer[..]);
        return h.finish(state, length + ptr);
      }
      var newLength, newPtr := CombineData(length, ptr, args[0], fed);
      ConcatFirst(args);
      assert fed + Concat(args) == fed + args[0] + Concat(args[1..]);
      code := Combine(newLength, newPtr, args[1..], fed + args[0]);
    }
  }

  lemma {:induction false} ConcatFirst(items: seq<Bytes>)
    requires items != []
    ensures Concat(items) == items[0] + Concat(items[1..])
  {
    var n := |items| - 1;
    if n > 0 {
      ConcatFirst(items[..n]);
      assert items[..n][1..] == items[1..][..n - 1];
    }
  }

  method HashCombine<S(!new)>(h: Hasher<S>, unset: S, args: seq<Bytes>) returns (code: nat)
    requires forall i :: 0 <= i < |args| ==> |args[i]| <= 64
    ensures code == HashOf(h, Concat(args))
  {
    var helper := new HashCombineHelper(h, unset);
    assert [] + Concat(args) == Concat(args);
    code := helper.Combine(0, 0, args, []);
  }
}
