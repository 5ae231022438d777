/**
  `DenseMap` (DenseMap.h): keys and values side by side in one array, with a marker key for an empty bucket and one for
  a tombstone. It is proved to be a finite map whose lookups end, whatever the hash function.
 */
module DenseMaps {
  import opened Probing
  import opened Buckets
  import opened LoadRules

  class DenseMap<K(==), V> {
    /** KeyInfoT::getHashValue */
    const hash: K -> nat
    var table: array<Bucket<K, V>>
    var numEntries: nat
    var numTombstones: nat
    /** The finite map this table is to be. */
    ghost var contents: map<K, V>

    /** The table stands for the contents and the counters are exact; a table without buckets is empty. */
    ghost predicate Filled()
      reads this, table
    {
      && (table.Length > 0 ==> Stands(hash, table[..], contents))
      && numEntries == |contents| && numTombstones == |Tombstones(table[..])|
      && (table.Length == 0 ==> contents == map[])
    }

    /** What holds between calls: moreover, some bucket is empty. */
    ghost predicate Valid()
      reads this, table
    {
      Filled() && (table.Length > 0 ==> numEntries + numTombstones < table.Length)
    }

    /** Room for `n` entries, or no buckets at all. */
    constructor (hash: K -> nat, n: nat)
      ensures Valid() && contents == map[] && this.hash == hash && fresh(table)
      ensures table.Length == MinBuckets(n) && numTombstones == 0
    {
      this.hash := hash;
      table := new Bucket<K, V>[MinBuckets(n)](_ => Empty);
      numEntries, numTombstones, contents := 0, 0, map[];
      new;
      AllEmpty(hash, table[..]);
    }

    /** Whether the key is there, and its bucket, or the one where it can go, if there are buckets at all. */
    method LookupBucketFor(key: K) returns (found: bool, bucket: nat)
      requires Valid()
      ensures found == (key in contents)
      ensures found ==> bucket < table.Length && table[bucket] == Item(key, contents[key])
      ensures !found && table.Length > 0 ==>
        bucket < table.Length && !table[bucket].Item? && Reach(table[..], hash(key), bucket)
    {
      hide Stands, Tombstones, Reach;
      if table.Length == 0 {
        return false, 0;
      }
      HasRoom(hash, table[..], contents);
      found, bucket := Lookup(hash, table, key, contents);
    }

    /** A key and a value written into the bucket found for the key, and counted. */
    method Fill(bucket: nat, key: K, value: V)
      requires Filled() && key !in contents && bucket < table.Length
      requires !table[bucket].Item? && Reach(table[..], hash(key), bucket)
      modifies this`numEntries, this`numTombstones, this`contents, table
      ensures Filled() && contents == old(contents)[key := value] && table[bucket] == Item(key, value)
      ensures numTombstones == old(numTombstones) - if old(table[bucket]).Tombstone? then 1 else 0
    {
      hide Stands, Tombstones, Items, Reach;
      ghost var t := table[..];
      PutCounts(t, bucket, key, value);
      PutItem(hash, t, contents, bucket, key, value);
      numEntries := numEntries + 1;
      if table[bucket].Tombstone? {
        numTombstones := numTombstones - 1;
      }
      table[bucket] := Item(key, value);
      assert table[..] == t[bucket := Item(key, value)];
      contents := contents[key := value];
    }

    /** grow: at least 64 buckets, the entries moved over one by one, the tombstones left behind. */
    method Grow(atLeast: nat)
      requires Filled() && numEntries < Grown(atLeast) && IsPow2(Grown(atLeast))
      modifies this
      ensures Filled() && contents == old(contents) && numEntries == old(numEntries) && numTombstones == 0
      ensures fresh(table) && table.Length == Grown(atLeast)
    {
      hide Stands, Tombstones, Moved, IsPow2, Reach, Agrees;
      var oldTable := table;
      ghost var all, t := contents, table[..];
      table := new Bucket<K, V>[Grown(atLeast)](_ => Empty);
      numEntries, numTombstones, contents := 0, 0, map[];
      AllEmpty(hash, table[..]);
      MoveFromOldBuckets(oldTable, all);
    }

    /** moveFromOldBuckets, into a table without any item. */
    method MoveFromOldBuckets(oldTable: array<Bucket<K, V>>, ghost all: map<K, V>)
      requires Valid() && contents == map[] && numTombstones == 0 && oldTable != table && |all| < table.Length
      requires if oldTable.Length > 0 then Stands(hash, oldTable[..], all) else all == map[]
      modifies this`numEntries, this`numTombstones, this`contents, table
      ensures Filled() && contents == all && numTombstones == 0
    {
      hide Stands, Tombstones, Moved, Reach, Agrees;
      ghost var t := oldTable[..];
      NoneMoved(t);
      if oldTable.Length > 0 {
        StandsAgrees(hash, t, all);
      }
      for i := 0 to oldTable.Length
        invariant Filled() && numTombstones == 0 && oldTable[..] == t && Moved(t, i, contents) && |contents| <= |all|
      {
        NextItem(t, i, contents, all, t[i]);
        if oldTable[i].Item? {
          var found, dest := LookupBucketFor(oldTable[i].key);
          Fill(dest, oldTable[i].key, oldTable[i].value);
        }
      }
      if oldTable.Length > 0 {
        AllMoved(t, all, contents);
      }
    }

    /** The first part of InsertIntoBucketImpl: more room when the new entry needs it, and then a new bucket for it. */
    method MakeRoom(key: K, bucket: nat) returns (newBucket: nat)
      requires Valid() && key !in contents
      requires table.Length > 0 ==>
        bucket < table.Length && !table[bucket].Item? && Reach(table[..], hash(key), bucket)
      modifies this
      ensures Valid() && contents == old(contents) && numEntries + 1 + numTombstones < table.Length
      ensures table.Length == RoomFor(numEntries, old(numTombstones), old(table.Length))
      ensures if table == old(table) then numTombstones == old(numTombstones) else fresh(table) && numTombstones == 0
      ensures newBucket < table.Length && !table[newBucket].Item? && Reach(table[..], hash(key), newBucket)
    {
      hide Stands, Tombstones, Reach;
      var newNumEntries, numBuckets := numEntries + 1, table.Length;
      newBucket := bucket;
      SizeFacts();
      var found;
      if newNumEntries * 4 >= numBuckets * 3 {
        Grow(numBuckets * 2);
        found, newBucket := LookupBucketFor(key);
      } else if numBuckets - (newNumEntries + numTombstones) <= numBuckets / 8 {
        Grow(numBuckets);
        found, newBucket := LookupBucketFor(key);
      }
    }

    /** Both sizes a full table can grow to hold one more entry than it has. */
    lemma SizeFacts()
      requires Valid()
      ensures IsPow2(Grown(table.Length)) && table.Length <= Grown(table.Length) && 64 <= Grown(table.Length)
      ensures IsPow2(Grown(table.Length * 2)) && table.Length * 2 <= Grown(table.Length * 2)
      ensures 64 <= Grown(table.Length * 2)
    {
      if table.Length > 0 {
        StandsAgrees(hash, table[..], contents);
        Doubles(table.Length);
      }
      GrownOk(table.Length);
      GrownOk(table.Length * 2);
    }

    /** An absent key is added, a present one keeps its value; the result is the bucket of the key. */
    method Insert(key: K, value: V) returns (bucket: nat, inserted: bool)
      requires Valid()
      modifies this, table
      ensures Valid() && inserted == (key !in old(contents))
      ensures contents == if inserted then old(contents)[key := value] else old(contents)
      ensures bucket < table.Length && table[bucket] == Item(key, contents[key])
      ensures table.Length ==
        if inserted then RoomFor(old(numEntries), old(numTombstones), old(table.Length)) else old(table.Length)
    {
      hide Stands, Tombstones, Reach, RoomFor;
      var found;
      found, bucket := LookupBucketFor(key);
      if found {
        return bucket, false;
      }
      bucket := MakeRoom(key, bucket);
      Fill(bucket, key, value);
      inserted := true;
    }

    /** The bucket of the key becomes a tombstone. */
    method Erase(key: K) returns (erased: bool)
      requires Valid()
      modifies this`numEntries, this`numTombstones, this`contents, table
      ensures Valid() && erased == (key in old(contents)) && contents == old(contents) - {key}
      ensures numTombstones == old(numTombstones) + if erased then 1 else 0
    {
      hide Stands, Tombstones, Items, Reach, Agrees;
      var found, bucket := LookupBucketFor(key);
      if !found {
        assert contents - {key} == contents;
        return false;
      }
      ghost var t := table[..];
      DropItem(hash, t, contents, bucket);
      DropCounts(t, bucket);
      Shrinks(contents, key);
      table[bucket] := Tombstone;
      assert table[..] == t[bucket := Tombstone];
      numEntries := numEntries - 1;
      numTombstones := numTombstones + 1;
      contents := contents - {key};
      erased := true;
    }

    /** All entries and tombstones go; a large table with few entries gets smaller. */
    method Clear()
      requires Valid()
      modifies this, table
      ensures Valid() && contents == map[] && numTombstones == 0
      ensures table.Length ==
        if old(numEntries * 4 < table.Length && table.Length > 64 && (numEntries > 0 || numTombstones > 0))
        then ShrunkFor(old(numEntries), old(table.Length)) else old(table.Length)
    {
      hide Stands, Tombstones, ShrunkFor;
      if numEntries == 0 && numTombstones == 0 {
        return;
      }
      if numEntries * 4 < table.Length && table.Length > 64 {
        ShrinkAndClear();
        return;
      }
      InitEmpty();
    }

    /** Every bucket is emptied: initEmpty, and the loop of clear, which looks at each bucket first to let go of what is
        in it. */
    method InitEmpty()
      requires Valid()
      modifies this`numEntries, this`numTombstones, this`contents, table
      ensures Valid() && contents == map[] && numTombstones == 0
    {
      hide Stands, Tombstones, IsPow2, Agrees;
      if table.Length > 0 {
        StandsAgrees(hash, table[..], contents);
      }
      for i := 0 to table.Length
        invariant forall b :: 0 <= b < i ==> table[b].Empty?
      {
        table[i] := Empty;
      }
      numEntries, numTombstones, contents := 0, 0, map[];
      AllEmpty(hash, table[..]);
    }

    method ShrinkAndClear()
      requires Valid() && table.Length > 0
      modifies this, table
      ensures Valid() && contents == map[] && numTombstones == 0
      ensures table.Length == ShrunkFor(old(numEntries), old(table.Length))
    {
      hide Stands, Tombstones;
      var newNumBuckets := if numEntries == 0 then 0 else if CeilDoubled(numEntries) < 64 then 64 else CeilDoubled(numEntries);
      if newNumBuckets == table.Length {
        InitEmpty();
        return;
      }
      table := new Bucket<K, V>[MinBuckets(newNumBuckets)](_ => Empty);
      numEntries, numTombstones, contents := 0, 0, map[];
      AllEmpty(hash, table[..]);
    }

    /** Room for `n` entries in all. */
    method Reserve(n: nat)
      requires Valid()
      modifies this
      ensures Valid() && contents == old(contents)
      ensures if MinBuckets(n) > old(table.Length) then table.Length == Grown(MinBuckets(n)) else table == old(table)
    {
      hide Stands, Tombstones;
      if MinBuckets(n) > table.Length {
        GrownOk(MinBuckets(n));
        Grow(MinBuckets(n));
      }
    }
  }
}
