/** How `DenseMap` (DenseMap.h) and `SmallPtrSet` (SmallPtrSet.cpp) choose the sizes of their tables. */
module LoadRules {
  import opened Probing

  /** The bucket count grow() allocates; its argument less one is taken in 32 bits, so that zero gives 64. */
  function Grown(atLeast: nat): nat {
    var n := if atLeast == 0 then 0 else NextPowerOf2(atLeast - 1);
    if n < 64 then 64 else n
  }

  /** The size at which one more entry goes into a DenseMap: it grows when more than 3/4 would be taken, and is rehashed
      when at most 1/8 would be empty, which a table smaller than 64 also takes as a reason to grow. */
  function RoomFor(entries: nat, tombstones: nat, buckets: nat): nat {
    if (entries + 1) * 4 >= buckets * 3 then Grown(buckets * 2)
    else if buckets - (entries + 1 + tombstones) <= buckets / 8 then Grown(buckets)
    else buckets
  }

  /** 1 << (Log2_32_Ceil(n) + 1): the least power of two from `n` on, doubled. */
  function CeilDoubled(n: nat): (r: nat)
    requires n > 0
    ensures IsPow2(r) && 2 * n <= r
  {
    var half := NextPowerOf2(n - 1);
    Doubles(half);
    2 * half
  }

  /** The size of a DenseMap of `entries` entries and `buckets` buckets after shrink_and_clear, which reserves room for
      as many entries as it means to have buckets. */
  function ShrunkFor(entries: nat, buckets: nat): nat {
    var n := if entries == 0 then 0 else if CeilDoubled(entries) < 64 then 64 else CeilDoubled(entries);
    if n == buckets then n else MinBuckets(n)
  }

  /** The least power of two from a power of two on is that power. */
  lemma {:induction false} NextOfLess(n: nat)
    requires IsPow2(n)
    ensures NextPowerOf2(n - 1) == n
    decreases n
  {
    var k: nat :| n == Pow2(k);
    if k > 0 {
      assert n == 2 * Pow2(k - 1);
      NextOfLess(Pow2(k - 1));
      assert (n - 1) / 2 == Pow2(k - 1) - 1;
    }
  }

  lemma GrownOk(atLeast: nat)
    requires atLeast == 0 || IsPow2(atLeast)
    ensures IsPow2(Grown(atLeast)) && atLeast <= Grown(atLeast)
  {
    assert Pow2(6) == 64;
    if atLeast > 0 {
      NextOfLess(atLeast);
    }
  }

  /** The table then has a power of two of buckets, no fewer than before, and is less than 3/4 full with the new entry. */
  lemma RoomIsLeft(entries: nat, tombstones: nat, buckets: nat)
    requires if buckets == 0 then entries == tombstones == 0 else IsPow2(buckets) && entries + tombstones < buckets
    ensures var n := RoomFor(entries, tombstones, buckets);
      IsPow2(n) && buckets <= n && (entries + 1) * 4 < n * 3
  {
    if buckets > 0 {
      Doubles(buckets);
      GrownOk(buckets);
    }
    GrownOk(buckets * 2);
  }

  /** A DenseMap built for `n` entries takes them without growing. */
  lemma ReservedNeverGrows(n: nat, entries: nat)
    requires entries < n
    ensures RoomFor(entries, 0, MinBuckets(n)) == MinBuckets(n)
  {
    assert MinBuckets(n) > n * 4 / 3 + 1;
  }

  /** The sizes of small tables: 64 buckets at first, 128 for the 48th entry, and after a clear twice the power of two that
      holds what was there, with room besides. */
  lemma SmallSizes(entries: nat, tombstones: nat)
    requires entries + tombstones < 64
    ensures RoomFor(0, 0, 0) == 64 && RoomFor(entries, tombstones, 64) == if entries >= 47 then 128 else 64
    ensures Grown(65) == 128 && MinBuckets(0) == 0 && MinBuckets(12) == 32 && MinBuckets(1) == 4
    ensures ShrunkFor(0, 128) == 0 && ShrunkFor(1, 64) == 64 && ShrunkFor(1, 128) == 128 && ShrunkFor(40, 1024) == 256
  {
    hide NextPowerOf2;
    SmallPowers();
  }

  lemma SmallPowers()
    ensures NextPowerOf2(0) == 1 && NextPowerOf2(1) == 2 && NextPowerOf2(2) == 4 && NextPowerOf2(17) == 32
    ensures NextPowerOf2(39) == NextPowerOf2(63) == 64 && NextPowerOf2(64) == NextPowerOf2(127) == 128
    ensures NextPowerOf2(86) == 128 && NextPowerOf2(171) == 256
  {
    assert NextPowerOf2(4) == 8;
    assert NextPowerOf2(8) == 16;
    assert NextPowerOf2(9) == 16;
    assert NextPowerOf2(15) == 16;
    assert NextPowerOf2(16) == NextPowerOf2(31) == NextPowerOf2(21) == NextPowerOf2(19) == 32;
    assert NextPowerOf2(42) == NextPowerOf2(43) == 64;
    assert NextPowerOf2(85) == 128;
  }
}
