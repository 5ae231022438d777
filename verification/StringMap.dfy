/**
  `StringMap` (StringMap.h, StringMap.cpp): a quadratically probed table of power-of-two size with tombstones. The
  class is proved to be a finite map; its counters are exact, and some bucket is always empty, so probing ends.
 */
module StringMaps {
  import opened Basics
  import opened Probing
  import opened Buckets

  const WORD := 0x1_0000_0000

  /** HashString: h * 33 + c over the bytes, in 32 bits. */
  function HashString(s: Bytes): nat {
    if s == [] then 0 else (HashString(s[..|s| - 1]) * 33 + s[|s| - 1]) % WORD
  }

  method ComputeHash(s: Bytes) returns (result: nat)
    ensures result == HashString(s)
  {
    result := 0;
    for i := 0 to |s|
      invariant result == HashString(s[..i])
    {
      assert s[..i + 1][..i] == s[..i];
      result := (result * 33 + s[i]) % WORD;
    }
    assert s[..|s|] == s;
  }

  /** The hash of a longer string, and of "abc". */
  lemma HashExamples(s: Bytes, c: byte)
    ensures HashString(s + [c]) == (HashString(s) * 33 + c) % 0x1_0000_0000
    ensures HashString([]) == 0 && HashString([97, 98, 99]) == 108966
  {
    hide HashString;
    HashNothing();
    HashLonger(s, c);
    HashLonger([], 97);
    HashLonger([97], 98);
    HashLonger([97, 98], 99);
    assert [] + [97] == [97] && [97] + [98] == [97, 98] && [97, 98] + [99] == [97, 98, 99];
  }

  lemma HashLonger(s: Bytes, c: byte)
    ensures HashString(s + [c]) == (HashString(s) * 33 + c) % 0x1_0000_0000
  {
    hide HashString;
    var t := s + [c];
    HashLast(t);
    assert t[..|s|] == s;
  }

  lemma HashNothing()
    ensures HashString([]) == 0
  {
  }

  lemma HashLast(t: Bytes)
    requires t != []
    ensures HashString(t) == (HashString(t[..|t| - 1]) * 33 + t[|t| - 1]) % 0x1_0000_0000
  {
  }

  /** The note beside each item is its key's hash. */
  ghost predicate Noted<V>(t: seq<Bucket<Bytes, V>>, hs: seq<nat>) {
    |t| == |hs| && forall b :: 0 <= b < |t| && t[b].Item? ==> hs[b] == HashString(t[b].key)
  }

  /** A bucket whose note or key differs does not hold the key. */
  lemma Elsewhere<V>(t: seq<Bucket<Bytes, V>>, hs: seq<nat>, b: nat, key: Bytes)
    requires Noted(t, hs) && b < |t|
    requires !(t[b].Item? && hs[b] == HashString(key) && t[b].key == key)
    ensures !IsKey(t, b, key)
  {
  }

  // ---------------------------------------------------------------------------------------------
  // Load rules
  // ---------------------------------------------------------------------------------------------

  /** The size RehashTable moves to, or the present size when it stays. */
  function NewSize(items: nat, tombstones: nat, buckets: nat): nat {
    if items * 4 > buckets * 3 then buckets * 2 else buckets
  }

  predicate MustRehash(items: nat, tombstones: nat, buckets: nat) {
    items * 4 > buckets * 3 || buckets - (items + tombstones) <= buckets / 8
  }

  /** Sixteen buckets: the thirteenth item doubles them; without it the table is rehashed where it is once no more than two
      buckets are empty. */
  lemma SixteenBuckets(items: nat, tombstones: nat)
    requires items + tombstones <= 16
    ensures MustRehash(items, tombstones, 16) <==> items >= 13 || items + tombstones >= 14
    ensures NewSize(items, tombstones, 16) == if items >= 13 then 32 else 16
  {
  }

  /** A table sized for `n` entries takes `n` inserts without rehashing. */
  lemma ReservedNeverRehashes(n: nat, items: nat)
    requires 0 < items <= n
    ensures items <= MinBuckets(n) && !MustRehash(items, 0, MinBuckets(n))
  {
    assert MinBuckets(n) > n * 4 / 3 + 1;
  }

  // ---------------------------------------------------------------------------------------------
  // The class
  // ---------------------------------------------------------------------------------------------

  class StringMap<V> {
    var table: array<Bucket<Bytes, V>>
    var hashes: array<nat>
    var numItems: nat
    var numTombstones: nat
    /** The finite map this table is to be. */
    ghost var contents: map<Bytes, V>

    /** The table stands for the contents and the counters are exact; a table without buckets is empty. */
    ghost predicate Filled()
      reads this, table, hashes
    {
      && table.Length == hashes.Length && Noted(table[..], hashes[..])
      && (table.Length > 0 ==> Stands(HashString, table[..], contents))
      && numItems == |contents| && numTombstones == |Tombstones(table[..])|
      && (table.Length == 0 ==> contents == map[])
    }

    /** What holds between calls: moreover, some bucket is empty. */
    ghost predicate Valid()
      reads this, table, hashes
    {
      Filled() && (table.Length > 0 ==> numItems + numTombstones < table.Length)
    }

    constructor (initSize: nat)
      ensures Valid() && contents == map[] && numTombstones == 0
      ensures table.Length == MinBuckets(initSize) && fresh(table) && fresh(hashes)
    {
      var n := MinBuckets(initSize);
      table := new Bucket<Bytes, V>[n](_ => Empty);
      hashes := new nat[n](_ => 0);
      numItems, numTombstones, contents := 0, 0, map[];
      new;
      AllEmpty(HashString, table[..]);
    }

    /** init(16), for a table used before it has any buckets. */
    method Init()
      requires Valid() && table.Length == 0
      modifies this
      ensures Valid() && contents == old(contents) && table.Length == 16 && fresh(table) && fresh(hashes)
      ensures numItems == 0 && numTombstones == 0
    {
      table := new Bucket<Bytes, V>[16](_ => Empty);
      hashes := new nat[16](_ => 0);
      numItems, numTombstones := 0, 0;
      assert Pow2(4) == 16;
      AllEmpty(HashString, table[..]);
    }

    /** -1 when the key is absent, else the bucket that holds it. */
    method FindKey(key: Bytes) returns (bucket: int)
      requires Valid()
      ensures bucket == -1 <==> key !in contents
      ensures bucket != -1 ==> 0 <= bucket < table.Length && table[bucket] == Item(key, contents[key])
    {
      hide Stands, Tombstones, Items, Probe, HashString, Noted, IsKey, IsPow2, Roomy;
      if table.Length == 0 {
        return -1;
      }
      var h := ComputeHash(key);
      var n := table.Length;
      ghost var t, hs := table[..], hashes[..];
      HasRoom(HashString, t, contents);
      ghost var e := SomeEmpty(t, h);
      bucket := h % n;
      var probeAmt := 1;
      ghost var i: nat := 0;
      ProbeStep(h, 0, n);
      while true
        invariant i <= e < n && probeAmt == i + 1 && 0 <= bucket < n && bucket == Probe(h, i, n)
        invariant forall j: nat :: j < i ==> !IsKey(t, Probe(h, j, n), key)
        decreases e - i
      {
        if table[bucket].Empty? {
          NotFound(HashString, t, contents, key, i);
          return -1;
        }
        if table[bucket].Item? && hashes[bucket] == h && table[bucket].key == key {
          KeyIsThere(HashString, t, contents, bucket, key);
          return;
        }
        Elsewhere(t, hs, bucket, key);
        ProbeStep(h, i, n);
        bucket := (bucket + probeAmt) % n;
        probeAmt := probeAmt + 1;
        i := i + 1;
      }
    }

    /** The probe loop of LookupBucketFor: the bucket of `key`, or the one where it is to go, the first tombstone on
        its way, else the empty bucket at the end of it. */
    method Search(key: Bytes) returns (bucket: nat)
      requires Valid() && table.Length > 0
      ensures bucket < table.Length
      ensures key in contents ==> table[bucket] == Item(key, contents[key])
      ensures key !in contents ==> !table[bucket].Item? && Reach(table[..], HashString(key), bucket)
    {
      hide Stands, Tombstones, Items, Probe, HashString, Noted, IsKey, IsPow2, Roomy;
      var h := ComputeHash(key);
      var n := table.Length;
      ghost var t, hs := table[..], hashes[..];
      HasRoom(HashString, t, contents);
      ghost var e := SomeEmpty(t, h);
      bucket := h % n;
      var probeAmt := 1;
      var firstTombstone := -1;
      ghost var i: nat := 0;
      ProbeStep(h, 0, n);
      while true
        invariant i <= e < n && probeAmt == i + 1 && bucket < n && bucket == Probe(h, i, n)
        invariant Passed(t, h, i)
        invariant forall j: nat :: j < i ==> !IsKey(t, Probe(h, j, n), key)
        invariant firstTombstone == -1 || (0 <= firstTombstone < n && t[firstTombstone].Tombstone? && Reach(t, h, firstTombstone))
        decreases e - i
      {
        if table[bucket].Empty? {
          NotFound(HashString, t, contents, key, i);
          if firstTombstone != -1 {
            bucket := firstTombstone;
          }
          return;
        }
        if table[bucket].Tombstone? {
          if firstTombstone == -1 {
            firstTombstone := bucket;
          }
        } else if hashes[bucket] == h && table[bucket].key == key {
          KeyIsThere(HashString, t, contents, bucket, key);
          return;
        }
        Elsewhere(t, hs, bucket, key);
        ProbeStep(h, i, n);
        bucket := (bucket + probeAmt) % n;
        probeAmt := probeAmt + 1;
        i := i + 1;
      }
    }

    /** The bucket where `key` is or is to go, with the key's hash noted beside it. */
    method LookupBucketFor(key: Bytes) returns (bucket: nat)
      requires Valid()
      modifies this, hashes
      ensures Valid() && contents == old(contents) && table.Length > 0
      ensures old(table.Length) > 0 ==> table == old(table) && hashes == old(hashes) && numTombstones == old(numTombstones)
      ensures old(table.Length) == 0 ==> fresh(table) && fresh(hashes) && table.Length == 16 && numTombstones == 0
      ensures bucket < table.Length && hashes[bucket] == HashString(key)
      ensures key in contents ==> table[bucket] == Item(key, contents[key])
      ensures key !in contents ==> !table[bucket].Item? && Reach(table[..], HashString(key), bucket)
    {
      hide Stands, Tombstones;
      if table.Length == 0 {
        Init();
      }
      bucket := Search(key);
      if !table[bucket].Item? {
        hashes[bucket] := HashString(key);
      }
    }

    /** The middle of emplace_second: the new entry goes into the bucket looked up for it. */
    method Place(bucket: nat, key: Bytes, value: V)
      requires Valid() && key !in contents && bucket < table.Length && hashes[bucket] == HashString(key)
      requires !table[bucket].Item? && Reach(table[..], HashString(key), bucket)
      modifies this, table
      ensures Filled() && table == old(table) && hashes == old(hashes) && table[bucket] == Item(key, value)
      ensures contents == old(contents)[key := value] && numItems + numTombstones <= table.Length
      ensures numTombstones <= old(numTombstones)
    {
      hide Stands, Tombstones, Items, Reach;
      ghost var t := table[..];
      PutItem(HashString, t, contents, bucket, key, value);
      PutCounts(t, bucket, key, value);
      if table[bucket].Tombstone? {
        numTombstones := numTombstones - 1;
      }
      table[bucket] := Item(key, value);
      assert table[..] == t[bucket := Item(key, value)];
      contents := contents[key := value];
      numItems := numItems + 1;
    }

    /** The probe loop of RehashTable: the first empty bucket of a table that has no tombstones. */
    static method FreeBucket(t: array<Bucket<Bytes, V>>, hash: nat) returns (bucket: nat)
      requires IsPow2(t.Length) && Roomy(t[..])
      ensures bucket < t.Length && t[bucket].Empty? && Reach(t[..], hash, bucket)
    {
      hide IsPow2, Roomy, Probe;
      ghost var e := SomeEmpty(t[..], hash);
      bucket := hash % t.Length;
      var probeSize := 1;
      ghost var i: nat := 0;
      ProbeStep(hash, 0, t.Length);
      while !t[bucket].Empty?
        invariant i <= e < t.Length && probeSize == i + 1 && bucket < t.Length && bucket == Probe(hash, i, t.Length)
        invariant Passed(t[..], hash, i)
        decreases e - i
      {
        ProbeStep(hash, i, t.Length);
        bucket := (bucket + probeSize) % t.Length;
        probeSize := probeSize + 1;
        i := i + 1;
      }
    }

    /** One item of the old table goes to the first free bucket on its way in the new one. */
    static method MoveItem(newTable: array<Bucket<Bytes, V>>, newHashes: array<nat>, item: Bucket<Bytes, V>,
                           fullHash: nat,
                           ghost moved: map<Bytes, V>)
      returns (bucket: nat)
      requires Stands(HashString, newTable[..], moved) && Noted(newTable[..], newHashes[..])
      requires |Tombstones(newTable[..])| == 0 && |moved| < newTable.Length
      requires item.Item? && item.key !in moved && fullHash == HashString(item.key)
      modifies newTable, newHashes
      ensures Stands(HashString, newTable[..], moved[item.key := item.value]) && Noted(newTable[..], newHashes[..])
      ensures |Tombstones(newTable[..])| == 0
      ensures bucket < newTable.Length && !old(newTable[bucket]).Item?
      ensures newTable[..] == old(newTable[..])[bucket := item]
    {
      hide HashString, Stands, Reach, Agrees, Items, Tombstones, Roomy, IsPow2;
      ghost var nt := newTable[..];
      StandsAgrees(HashString, nt, moved);
      HasRoom(HashString, nt, moved);
      bucket := FreeBucket(newTable, fullHash);
      PutItem(HashString, nt, moved, bucket, item.key, item.value);
      PutCounts(nt, bucket, item.key, item.value);
      newTable[bucket] := item;
      newHashes[bucket] := fullHash;
      assert newTable[..] == nt[bucket := item];
    }

    /** The loop of RehashTable. */
    method MoveItems(newTable: array<Bucket<Bytes, V>>, newHashes: array<nat>, bucketNo: nat) returns (newBucketNo: nat)
      requires Filled() && bucketNo < table.Length <= newTable.Length && IsPow2(newTable.Length)
      requires numItems <= table.Length
      requires newTable != table && newHashes != hashes && newTable.Length == newHashes.Length
      requires forall b :: 0 <= b < newTable.Length ==> newTable[b].Empty?
      modifies newTable, newHashes
      ensures Stands(HashString, newTable[..], contents) && Noted(newTable[..], newHashes[..])
      ensures |Tombstones(newTable[..])| == 0 && newBucketNo < newTable.Length
      ensures table[bucketNo].Item? ==> newTable[newBucketNo] == table[bucketNo]
    {
      hide Stands, Agrees, Tombstones, Moved, IsPow2, HashString;
      newBucketNo := bucketNo;
      ghost var moved: map<Bytes, V> := map[];
      ghost var t := table[..];
      AllEmpty(HashString, newTable[..]);
      StandsAgrees(HashString, t, contents);
      NoneMoved(t);
      for i := 0 to table.Length
        invariant table[..] == t && newBucketNo < newTable.Length && Noted(newTable[..], newHashes[..])
        invariant Noted(t, hashes[..])
        invariant Moved(t, i, moved) && Stands(HashString, newTable[..], moved) && |Tombstones(newTable[..])| == 0
        invariant bucketNo < i && t[bucketNo].Item? ==> newTable[newBucketNo] == t[bucketNo]
      {
        NextItem(t, i, moved, contents, t[i]);
        if table[i].Item? {
          var item, fullHash := table[i], hashes[i];
          var bucket := MoveItem(newTable, newHashes, item, fullHash, moved);
          moved := moved[item.key := item.value];
          if i == bucketNo {
            newBucketNo := bucket;
          }
        }
      }
      AllMoved(t, contents, moved);
    }

    /** The rest of RehashTable, once the new size is chosen. */
    method Rehash(newSize: nat, bucketNo: nat) returns (newBucketNo: nat)
      requires Filled() && bucketNo < table.Length <= newSize && IsPow2(newSize) && numItems <= table.Length
      modifies this
      ensures Filled() && contents == old(contents) && numItems == old(numItems) && numTombstones == 0
      ensures table.Length == newSize && fresh(table) && fresh(hashes) && newBucketNo < table.Length
      ensures old(table[bucketNo]).Item? ==> table[newBucketNo] == old(table[bucketNo])
    {
      hide Stands, Tombstones, IsPow2, Noted;
      var newTable := new Bucket<Bytes, V>[newSize](_ => Empty);
      var newHashes := new nat[newSize](_ => 0);
      newBucketNo := MoveItems(newTable, newHashes, bucketNo);
      table, hashes := newTable, newHashes;
      numTombstones := 0;
    }

    /** Rehash when more than 3/4 of the buckets hold items or at most 1/8 are empty. Nothing is lost or duplicated,
        the tombstones are gone, and the result is where the item of bucket `bucketNo` now is. */
    method RehashTable(bucketNo: nat) returns (newBucketNo: nat)
      requires Filled() && 0 < table.Length && numItems + numTombstones <= table.Length && bucketNo < table.Length
      modifies this
      ensures Valid() && contents == old(contents) && newBucketNo < table.Length
      ensures table.Length == NewSize(numItems, old(numTombstones), old(table.Length))
      ensures old(table[bucketNo]).Item? ==> table[newBucketNo] == old(table[bucketNo])
      ensures if MustRehash(numItems, old(numTombstones), old(table.Length))
              then fresh(table) && fresh(hashes) && numTombstones == 0
              else table == old(table) && hashes == old(hashes) && numTombstones == old(numTombstones)
    {
      hide Stands, Tombstones, Noted;
      StandsAgrees(HashString, table[..], contents);
      var newSize;
      if numItems * 4 > table.Length * 3 {
        newSize := table.Length * 2;
        Doubles(table.Length);
      } else if table.Length - (numItems + numTombstones) <= table.Length / 8 {
        newSize := table.Length;
      } else {
        return bucketNo;
      }
      newBucketNo := Rehash(newSize, bucketNo);
    }

    /** emplace_second, and insert of a pair: an absent key is added, a present one keeps its value; either way the
        result is the bucket of the key, even when the table was just rehashed. */
    method EmplaceSecond(key: Bytes, value: V) returns (bucket: nat, inserted: bool)
      requires Valid()
      modifies this, table, hashes
      ensures Valid()
      ensures inserted == (key !in old(contents))
      ensures contents == if inserted then old(contents)[key := value] else old(contents)
      ensures bucket < table.Length && table[bucket] == Item(key, contents[key])
      ensures table == old(table) || fresh(table)
      ensures hashes == old(hashes) || fresh(hashes)
      ensures old(numTombstones) == 0 ==> numTombstones == 0
      ensures old(table.Length) > 0 && old(numTombstones) == 0 && !MustRehash(|contents|, 0, old(table.Length))
        ==> table == old(table) && hashes == old(hashes)
    {
      hide Stands, Tombstones, Noted, Reach;
      bucket := LookupBucketFor(key);
      if table[bucket].Item? {
        return bucket, false;
      }
      Place(bucket, key, value);
      bucket := RehashTable(bucket);
      inserted := true;
    }

    /** The entry of `key` is handed back and its bucket becomes a tombstone; an absent key gives null. */
    method RemoveKey(key: Bytes) returns (result: Option<V>)
      requires Valid()
      modifies this, table
      ensures Valid() && contents == old(contents) - {key} && table == old(table) && hashes == old(hashes)
      ensures result == if key in old(contents) then Some(old(contents)[key]) else None
      ensures numTombstones == old(numTombstones) + if key in old(contents) then 1 else 0
    {
      hide Stands, Tombstones, Items;
      var bucket := FindKey(key);
      if bucket == -1 {
        assert contents - {key} == contents;
        return None;
      }
      ghost var t := table[..];
      DropItem(HashString, t, contents, bucket);
      DropCounts(t, bucket);
      Shrinks(contents, key);
      result := Some(table[bucket].value);
      table[bucket] := Tombstone;
      assert table[..] == t[bucket := Tombstone];
      contents := contents - {key};
      numItems := numItems - 1;
      numTombstones := numTombstones + 1;
    }

    /** All buckets are emptied; a table without items is left alone, tombstones included. */
    method Clear()
      requires Valid()
      modifies this, table
      ensures Valid() && contents == map[] && table == old(table) && hashes == old(hashes)
      ensures numTombstones == if old(contents) == map[] then old(numTombstones) else 0
    {
      hide Stands, Tombstones, Agrees, Items, IsPow2, Noted;
      if numItems == 0 {
        return;
      }
      StandsAgrees(HashString, table[..], contents);
      for i := 0 to table.Length
        invariant table == old(table) && hashes == old(hashes) && contents == old(contents) && IsPow2(table.Length)
        invariant i <= table.Length == hashes.Length && numTombstones == old(numTombstones) && numItems == old(numItems)
        invariant forall b :: 0 <= b < i ==> table[b].Empty?
      {
        table[i] := Empty;
      }
      contents := map[];
      numItems, numTombstones := 0, 0;
      AllEmpty(HashString, table[..]);
      NothingToNote(table[..], hashes[..]);
    }

    static lemma NothingToNote(t: seq<Bucket<Bytes, V>>, hs: seq<nat>)
      requires |t| == |hs| && forall b :: 0 <= b < |t| ==> t[b].Empty?
      ensures Noted(t, hs)
    {
    }

    /** The copy constructor: bucket by bucket, tombstones included, unless there is nothing to copy. */
    constructor Copy(rhs: StringMap<V>)
      requires rhs.Valid()
      ensures Valid() && contents == rhs.contents && fresh(table) && fresh(hashes)
      ensures rhs.contents != map[] ==> table[..] == rhs.table[..] && numTombstones == rhs.numTombstones
    {
      hide Stands, Tombstones, Noted;
      var n := if rhs.numItems == 0 then 0 else rhs.table.Length;
      table := new Bucket<Bytes, V>[n](_ => Empty);
      hashes := new nat[n](_ => 0);
      numItems, numTombstones := 0, 0;
      contents := rhs.contents;
      new;
      if rhs.numItems == 0 {
        AllEmpty(HashString, table[..]);
        NothingToNote(table[..], hashes[..]);
        assert contents == map[];
        return;
      }
      numItems, numTombstones := rhs.numItems, rhs.numTombstones;
      ghost var t, h := table, hashes;
      for i := 0 to table.Length
        invariant table == t && hashes == h && contents == rhs.contents && i <= n
        invariant numItems == rhs.numItems && numTombstones == rhs.numTombstones
        invariant table[..i] == rhs.table[..i]
        invariant forall b :: 0 <= b < i && table[b].Item? ==> hashes[b] == rhs.hashes[b]
      {
        table[i] := rhs.table[i];
        if table[i].Item? {
          hashes[i] := rhs.hashes[i];
        }
      }
      assert table[..] == rhs.table[..];
      SameNotes(table[..], rhs.hashes[..], hashes[..]);
    }

    static lemma SameNotes(t: seq<Bucket<Bytes, V>>, hs: seq<nat>, us: seq<nat>)
      requires Noted(t, hs) && |us| == |hs| && forall b :: 0 <= b < |t| && t[b].Item? ==> us[b] == hs[b]
      ensures Noted(t, us)
    {
    }

    /** The initializer-list constructor: room for all the pairs is made first, so no insert rehashes. */
    constructor FromList(list: seq<(Bytes, V)>)
      ensures Valid() && contents == FirstWins(list) && fresh(table) && fresh(hashes)
      ensures table.Length == MinBuckets(|list|) && numTombstones == 0
    {
      hide Stands, Tombstones, Noted;
      var n := MinBuckets(|list|);
      table := new Bucket<Bytes, V>[n](_ => Empty);
      hashes := new nat[n](_ => 0);
      numItems, numTombstones, contents := 0, 0, map[];
      new;
      AllEmpty(HashString, table[..]);
      NothingToNote(table[..], hashes[..]);
      for i := 0 to |list|
        invariant Valid() && contents == FirstWins(list[..i]) && |contents| <= i && numTombstones == 0
        invariant fresh(table) && fresh(hashes) && table.Length == n
      {
        assert list[..i + 1][..i] == list[..i];
        ReservedNeverRehashes(|list|, |contents| + 1);
        var bucket, inserted := EmplaceSecond(list[i].0, list[i].1);
      }
      assert list[..|list|] == list;
    }
  }

  /** A list of pairs inserted in order: the first pair of each key stays. */
  ghost function FirstWins<V>(list: seq<(Bytes, V)>): map<Bytes, V> {
    if list == [] then map[]
    else
      var m, p := FirstWins(list[..|list| - 1]), list[|list| - 1];
      if p.0 in m then m else m[p.0 := p.1]
  }
}
