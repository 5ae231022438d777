/**
  `SmallPtrSet` (SmallPtrSet.h, SmallPtrSet.cpp): a set of pointers, first in an inline array that is searched from end to
  end, then in a hash table. It is proved to be a finite set throughout, and lookups in the hash table end.
 */
module PtrSets {
  import opened Probing
  import opened Buckets
  import opened LoadRules

  type Slot<P> = Bucket<P, ()>

  /** One more element behind those of the inline array. */
  lemma AgreesPush<P>(t: seq<Slot<P>>, m: map<P, ()>, ptr: P)
    requires Agrees(t, m) && ptr !in m
    ensures Agrees(t + [Item(ptr, ())], m[ptr := ()]) && Tombstones(t + [Item(ptr, ())]) == Tombstones(t)
  {
    hide UniqueKeys, ItemsIn, HoldsAll, Items, Tombstones;
    CountPush(t, ptr);
    KeysPush(t, m, ptr);
    HoldsPush(t, m, ptr);
  }

  lemma CountPush<P>(t: seq<Slot<P>>, ptr: P)
    ensures var u := t + [Item(ptr, ())]; |Items(u)| == |Items(t)| + 1 && Tombstones(u) == Tombstones(t)
  {
    var u := t + [Item(ptr, ())];
    assert Items(u) == Items(t) + {|t|};
  }

  lemma KeysPush<P>(t: seq<Slot<P>>, m: map<P, ()>, ptr: P)
    requires UniqueKeys(t) && ItemsIn(t, m) && ptr !in m
    ensures UniqueKeys(t + [Item(ptr, ())]) && ItemsIn(t + [Item(ptr, ())], m[ptr := ()])
  {
  }

  lemma HoldsPush<P>(t: seq<Slot<P>>, m: map<P, ()>, ptr: P)
    requires HoldsAll(t, m)
    ensures HoldsAll(t + [Item(ptr, ())], m[ptr := ()])
  {
    var u := t + [Item(ptr, ())];
    assert IsKey(u, |t|, ptr);
    forall k | k in m
      ensures Holds(u, k)
    {
      assert Holds(t, k);
      var a: nat :| IsKey(t, a, k);
      assert IsKey(u, a, k);
    }
  }

  /** An element that is in no slot is not in the set. */
  lemma Absent<P>(t: seq<Slot<P>>, m: map<P, ()>, ptr: P)
    requires Agrees(t, m) && forall b: nat :: b < |t| ==> !IsKey(t, b, ptr)
    ensures ptr !in m
  {
    assert ptr in m ==> Holds(t, ptr);
  }

  class SmallPtrSet<P(==)> {
    const hash: P -> nat
    const smallArray: array<Slot<P>>
    var curArray: array<Slot<P>>
    /** How many slots hold an element or a tombstone; in the inline array these come first, and the rest is unused. */
    var numNonEmpty: nat
    var numTombstones: nat
    /** The elements, as keys. */
    ghost var contents: map<P, ()>

    predicate IsSmall()
      reads this`curArray
    {
      curArray == smallArray
    }

    ghost function Used(): seq<Slot<P>>
      requires numNonEmpty <= curArray.Length
      reads this, curArray
    {
      if IsSmall() then curArray[..numNonEmpty] else curArray[..]
    }

    ghost function Elements(): set<P>
      reads this
    {
      contents.Keys
    }

    ghost predicate Valid()
      reads this, curArray
    {
      && IsPow2(smallArray.Length) && numNonEmpty <= curArray.Length
      && Agrees(Used(), contents) && numTombstones == |Tombstones(Used())|
      && numNonEmpty == |contents| + numTombstones
      && (IsSmall() ==> forall b :: 0 <= b < numNonEmpty ==> !curArray[b].Empty?)
      && (!IsSmall() ==> Stands(hash, curArray[..], contents) && numNonEmpty < curArray.Length && curArray.Length >= 32)
    }

    constructor (hash: P -> nat, smallSize: nat)
      requires IsPow2(smallSize)
      ensures Valid() && Elements() == {} && IsSmall() && fresh(smallArray) && smallArray.Length == smallSize
      ensures this.hash == hash
    {
      this.hash := hash;
      var storage := new Slot<P>[smallSize](_ => Empty);
      smallArray, curArray := storage, storage;
      numNonEmpty, numTombstones, contents := 0, 0, map[];
      new;
      AllEmpty(hash, curArray[..0]);
    }

    method Size() returns (n: nat)
      requires Valid()
      ensures n == |Elements()|
    {
      n := numNonEmpty - numTombstones;
    }

    /** The scan of the inline array: where the element is, and where the last tombstone before it is, if any. */
    method Scan(ptr: P) returns (found: bool, at: nat, lastTombstone: int)
      requires Valid() && IsSmall()
      ensures found == (ptr in contents)
      ensures found ==> at < numNonEmpty && IsKey(Used(), at, ptr)
      ensures !found ==>
        if lastTombstone == -1 then numTombstones == 0 else 0 <= lastTombstone < numNonEmpty && curArray[lastTombstone].Tombstone?
    {
      hide Agrees, Stands, Tombstones;
      ghost var t := Used();
      lastTombstone := -1;
      for i := 0 to numNonEmpty
        invariant forall b: nat :: b < i ==> !IsKey(t, b, ptr)
        invariant lastTombstone == -1 ==> forall b: nat :: b < i ==> !t[b].Tombstone?
        invariant lastTombstone != -1 ==> 0 <= lastTombstone < i && t[lastTombstone].Tombstone?
      {
        if curArray[i].Item? && curArray[i].key == ptr {
          InSet(t, contents, i, ptr);
          return true, i, lastTombstone;
        }
        if curArray[i].Tombstone? {
          lastTombstone := i;
        }
      }
      Absent(t, contents, ptr);
      if lastTombstone == -1 {
        NoTombstones(t);
      }
      return false, 0, lastTombstone;
    }

    static lemma InSet(t: seq<Slot<P>>, m: map<P, ()>, b: nat, ptr: P)
      requires Agrees(t, m) && IsKey(t, b, ptr)
      ensures ptr in m
    {
    }

    static lemma NoTombstones(t: seq<Slot<P>>)
      requires forall b :: 0 <= b < |t| ==> !t[b].Tombstone?
      ensures |Tombstones(t)| == 0
    {
      assert Tombstones(t) == {};
    }

    /** A new element joins the set; the result is where it is. */
    method Insert(ptr: P) returns (bucket: nat, inserted: bool)
      requires Valid()
      modifies this, curArray
      ensures Valid() && Elements() == old(Elements()) + {ptr} && inserted == (ptr !in old(Elements()))
      ensures bucket < curArray.Length && curArray[bucket] == Item(ptr, ())
      ensures curArray == old(curArray) || fresh(curArray)
    {
      hide Agrees, Stands, Tombstones;
      if IsSmall() {
        var found, at, lastTombstone := Scan(ptr);
        if found {
          assert curArray[at].value == ();
          return at, false;
        }
        if lastTombstone != -1 {
          Replace(lastTombstone, ptr);
          return lastTombstone, true;
        }
        if numNonEmpty < curArray.Length {
          PushBack(ptr);
          return numNonEmpty - 1, true;
        }
      }
      bucket, inserted := InsertBig(ptr);
    }

    /** An element in place of a tombstone of the inline array. */
    method Replace(b: nat, ptr: P)
      requires Valid() && IsSmall() && b < numNonEmpty && curArray[b].Tombstone? && ptr !in contents
      modifies this`numTombstones, this`contents, curArray
      ensures Valid() && contents == old(contents)[ptr := ()] && curArray[b] == Item(ptr, ())
    {
      hide Agrees, Stands, Tombstones, Items;
      ghost var t := Used();
      AgreesPut(t, contents, b, ptr, ());
      PutCounts(t, b, ptr, ());
      curArray[b] := Item(ptr, ());
      numTombstones := numTombstones - 1;
      contents := contents[ptr := ()];
      assert Used() == t[b := Item(ptr, ())];
    }

    method PushBack(ptr: P)
      requires Valid() && IsSmall() && numNonEmpty < curArray.Length && ptr !in contents
      modifies this`numNonEmpty, this`contents, curArray
      ensures Valid() && contents == old(contents)[ptr := ()]
      ensures numNonEmpty == old(numNonEmpty) + 1 && curArray[numNonEmpty - 1] == Item(ptr, ())
    {
      hide Agrees, Stands, Tombstones;
      ghost var t := Used();
      AgreesPush(t, contents, ptr);
      curArray[numNonEmpty] := Item(ptr, ());
      numNonEmpty := numNonEmpty + 1;
      contents := contents[ptr := ()];
      assert Used() == t + [Item(ptr, ())];
    }

    /** insert_imp_big: grow when 3/4 are taken by elements, rehash when fewer than 1/8 are empty, then look for the
        place. */
    method InsertBig(ptr: P) returns (bucket: nat, inserted: bool)
      requires Valid()
      requires IsSmall() ==> ptr !in contents && numTombstones == 0 && numNonEmpty == curArray.Length
      modifies this, curArray
      ensures Valid() && !IsSmall() && inserted == (ptr !in old(contents))
      ensures Elements() == old(Elements()) + {ptr}
      ensures bucket < curArray.Length && curArray[bucket] == Item(ptr, ())
      ensures curArray == old(curArray) || fresh(curArray)
    {
      hide Agrees, Stands, Tombstones, Reach, IsPow2, Roomy;
      if (numNonEmpty - numTombstones) * 4 >= curArray.Length * 3 {
        BigSizes();
        Grow(if curArray.Length < 64 then 128 else curArray.Length * 2);
      } else if curArray.Length - numNonEmpty < curArray.Length / 8 {
        BigSizes();
        Grow(curArray.Length);
      }
      HasRoom(hash, curArray[..], contents);
      inserted, bucket := Lookup(hash, curArray, ptr, contents);
      inserted := !inserted;
      if inserted {
        Occupy(bucket, ptr);
      } else {
        assert curArray[bucket].value == ();
      }
    }

    lemma BigSizes()
      requires Valid()
      ensures IsPow2(128) && IsPow2(curArray.Length) && IsPow2(curArray.Length * 2)
    {
      assert Pow2(7) == 128;
      if !IsSmall() {
        StandsAgrees(hash, curArray[..], contents);
      }
      Doubles(curArray.Length);
    }

    /** The place found for an element of the hash table is taken. */
    method Occupy(b: nat, ptr: P)
      requires Valid() && !IsSmall() && ptr !in contents && b < curArray.Length && numNonEmpty + 1 < curArray.Length
      requires !curArray[b].Item? && Reach(curArray[..], hash(ptr), b)
      modifies this`numNonEmpty, this`numTombstones, this`contents, curArray
      ensures Valid() && contents == old(contents)[ptr := ()] && curArray[b] == Item(ptr, ())
    {
      hide Agrees, Stands, Tombstones, Items, Reach;
      ghost var t := curArray[..];
      PutItem(hash, t, contents, b, ptr, ());
      PutCounts(t, b, ptr, ());
      if curArray[b].Tombstone? {
        numTombstones := numTombstones - 1;
      } else {
        numNonEmpty := numNonEmpty + 1;
      }
      curArray[b] := Item(ptr, ());
      contents := contents[ptr := ()];
      assert curArray[..] == t[b := Item(ptr, ())];
      StandsAgrees(hash, curArray[..], contents);
    }

    /** The elements move into a hash table of the new size, without the tombstones. */
    method Grow(newSize: nat)
      requires Valid() && IsPow2(newSize) && 32 <= newSize && |contents| < newSize
      modifies this`curArray, this`numNonEmpty, this`numTombstones
      ensures Valid() && !IsSmall() && contents == old(contents) && curArray.Length == newSize && fresh(curArray)
      ensures numTombstones == 0
    {
      hide Agrees, Stands, Tombstones, IsPow2, Moved;
      ghost var t := Used();
      var end := if IsSmall() then numNonEmpty else curArray.Length;
      var newArray := new Slot<P>[newSize](_ => Empty);
      AllEmpty(hash, newArray[..]);
      ghost var moved: map<P, ()> := map[];
      NoneMoved(t);
      for i := 0 to end
        invariant curArray == old(curArray) && numNonEmpty == old(numNonEmpty) && numTombstones == old(numTombstones)
        invariant fresh(newArray) && Used() == t && |t| == end && Moved(t, i, moved) && |moved| <= |contents|
        invariant Stands(hash, newArray[..], moved) && |Tombstones(newArray[..])| == 0
      {
        NextItem(t, i, moved, contents, t[i]);
        if curArray[i].Item? {
          assert t[i].value == ();
          MoveElement(newArray, curArray[i].key, moved);
          moved := moved[curArray[i].key := ()];
        }
      }
      AllMoved(t, contents, moved);
      StandsAgrees(hash, newArray[..], contents);
      curArray := newArray;
      numNonEmpty := numNonEmpty - numTombstones;
      numTombstones := 0;
    }

    method MoveElement(newArray: array<Slot<P>>, elt: P, ghost moved: map<P, ()>)
      requires Stands(hash, newArray[..], moved) && |Tombstones(newArray[..])| == 0 && |moved| < newArray.Length
      requires elt !in moved
      modifies newArray
      ensures Stands(hash, newArray[..], moved[elt := ()]) && |Tombstones(newArray[..])| == 0
    {
      hide Stands, Tombstones, Items, Reach;
      ghost var t := newArray[..];
      HasRoom(hash, t, moved);
      var found, b := Lookup(hash, newArray, elt, moved);
      PutItem(hash, t, moved, b, elt, ());
      PutCounts(t, b, elt, ());
      newArray[b] := Item(elt, ());
      assert newArray[..] == t[b := Item(elt, ())];
    }

    /** An element leaves the set, and a tombstone in its place. */
    method Erase(ptr: P) returns (erased: bool)
      requires Valid()
      modifies this`numTombstones, this`contents, curArray
      ensures Valid() && Elements() == old(Elements()) - {ptr} && erased == (ptr in old(Elements()))
    {
      hide Agrees, Stands, Tombstones;
      var b, last;
      if IsSmall() {
        erased, b, last := Scan(ptr);
      } else {
        HasRoom(hash, curArray[..], contents);
        erased, b := Lookup(hash, curArray, ptr, contents);
      }
      if erased {
        Bury(b, ptr);
      }
    }

    method Bury(b: nat, ptr: P)
      requires Valid() && ptr in contents && IsKey(Used(), b, ptr)
      modifies this`numTombstones, this`contents, curArray
      ensures Valid() && contents == old(contents) - {ptr}
    {
      hide Agrees, Stands, Tombstones, Items;
      ghost var t := Used();
      if !IsSmall() {
        DropItem(hash, t, contents, b);
      }
      AgreesDrop(t, contents, b);
      DropCounts(t, b);
      Shrinks(contents, ptr);
      curArray[b] := Tombstone;
      numTombstones := numTombstones + 1;
      contents := contents - {ptr};
      assert Used() == t[b := Tombstone];
    }

    method Count(ptr: P) returns (found: bool)
      requires Valid()
      ensures found == (ptr in Elements())
    {
      hide Agrees, Stands, Tombstones;
      var b, last;
      if IsSmall() {
        found, b, last := Scan(ptr);
      } else {
        HasRoom(hash, curArray[..], contents);
        found, b := Lookup(hash, curArray, ptr, contents);
      }
    }

    /** All elements go; a large table with few of them gets smaller, and none becomes small again. */
    method Clear()
      requires Valid()
      modifies this, curArray
      ensures Valid() && Elements() == {} && numTombstones == 0 && IsSmall() == old(IsSmall())
      ensures curArray.Length ==
        if !old(IsSmall()) && old(|contents| * 4 < curArray.Length && curArray.Length > 32)
        then (if old(|contents|) > 16 then CeilDoubled(old(|contents|)) else 32) else old(curArray.Length)
    {
      hide Agrees, Stands, Tombstones;
      if !IsSmall() {
        if (numNonEmpty - numTombstones) * 4 < curArray.Length && curArray.Length > 32 {
          ShrinkAndClear();
          return;
        }
        StandsAgrees(hash, curArray[..], contents);
        FillEmpty();
      }
      numNonEmpty, numTombstones, contents := 0, 0, map[];
      AllEmpty(hash, curArray[..0]);
      AllEmpty(hash, Used());
    }

    /** memset with the empty marker. */
    method FillEmpty()
      modifies curArray
      ensures forall b :: 0 <= b < curArray.Length ==> curArray[b].Empty?
    {
      for i := 0 to curArray.Length
        invariant forall b :: 0 <= b < i ==> curArray[b].Empty?
      {
        curArray[i] := Empty;
      }
    }

    method ShrinkAndClear()
      requires Valid() && !IsSmall()
      modifies this`curArray, this`numNonEmpty, this`numTombstones, this`contents
      ensures Valid() && Elements() == {} && !IsSmall() && numTombstones == 0
      ensures curArray.Length == if old(|contents|) > 16 then CeilDoubled(old(|contents|)) else 32
    {
      hide Agrees, Stands, Tombstones;
      var size := numNonEmpty - numTombstones;
      assert Pow2(5) == 32;
      curArray := new Slot<P>[if size > 16 then CeilDoubled(size) else 32](_ => Empty);
      numNonEmpty, numTombstones, contents := 0, 0, map[];
      AllEmpty(hash, curArray[..]);
    }
  }
}
