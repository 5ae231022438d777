/**
  What the hash tables have in common: an array of power-of-two size, probed quadratically from the key's hash, in which
  a bucket is empty, holds an item, or is the tombstone of one. Tables are sequences here, and stand for finite maps.
 */
module Buckets {
  import opened Probing

  datatype Bucket<K, V> = Empty | Tombstone | Item(key: K, value: V)

  /** Bucket `b` can be found from hash `h`: no bucket probed before it is empty. */
  ghost predicate Reach<K, V>(t: seq<Bucket<K, V>>, h: nat, b: nat)
    requires |t| > 0
  {
    exists i: nat :: i < |t| && Probe(h, i, |t|) == b && Passed(t, h, i)
  }

  ghost predicate Passed<K, V>(t: seq<Bucket<K, V>>, h: nat, i: nat)
    requires |t| > 0
  {
    forall j: nat :: j < i ==> !t[Probe(h, j, |t|)].Empty?
  }

  ghost predicate UniqueKeys<K, V>(t: seq<Bucket<K, V>>) {
    forall a, b :: 0 <= a < |t| && 0 <= b < |t| && t[a].Item? && t[b].Item? && t[a].key == t[b].key ==> a == b
  }

  predicate IsKey<K(==), V>(t: seq<Bucket<K, V>>, b: nat, key: K) {
    b < |t| && t[b].Item? && t[b].key == key
  }

  /** The hash of its key leads to an item. */
  ghost predicate Placed<K, V>(hash: K -> nat, t: seq<Bucket<K, V>>, b: nat)
    requires b < |t|
  {
    t[b].Item? ==> Reach(t, hash(t[b].key), b)
  }

  ghost predicate AllPlaced<K, V>(hash: K -> nat, t: seq<Bucket<K, V>>) {
    forall b :: 0 <= b < |t| ==> Placed(hash, t, b)
  }

  ghost predicate ItemsIn<K, V>(t: seq<Bucket<K, V>>, m: map<K, V>) {
    forall b :: 0 <= b < |t| && t[b].Item? ==> t[b].key in m && m[t[b].key] == t[b].value
  }

  ghost predicate Holds<K, V>(t: seq<Bucket<K, V>>, key: K) {
    exists b: nat :: IsKey(t, b, key)
  }

  ghost predicate HoldsAll<K, V>(t: seq<Bucket<K, V>>, m: map<K, V>) {
    forall k :: k in m ==> Holds(t, k)
  }

  /** The items of `t` are exactly the entries of `m`, each there once. */
  ghost predicate Agrees<K, V>(t: seq<Bucket<K, V>>, m: map<K, V>) {
    UniqueKeys(t) && ItemsIn(t, m) && HoldsAll(t, m) && |Items(t)| == |m|
  }

  /** `t` stands for the map `m`. */
  ghost predicate Stands<K, V>(hash: K -> nat, t: seq<Bucket<K, V>>, m: map<K, V>) {
    IsPow2(|t|) && AllPlaced(hash, t) && Agrees(t, m)
  }

  ghost function Items<K, V>(t: seq<Bucket<K, V>>): set<nat> {
    set b: nat | b < |t| && t[b].Item?
  }

  ghost function Tombstones<K, V>(t: seq<Bucket<K, V>>): set<nat> {
    set b: nat | b < |t| && t[b].Tombstone?
  }

  /** Some bucket is empty. */
  ghost predicate Roomy<K, V>(t: seq<Bucket<K, V>>) {
    |Items(t)| + |Tombstones(t)| < |t|
  }

  lemma AllEmpty<K, V>(hash: K -> nat, t: seq<Bucket<K, V>>)
    requires forall b :: 0 <= b < |t| ==> t[b].Empty?
    ensures Items(t) == {} && Tombstones(t) == {} && Agrees(t, map[])
    ensures IsPow2(|t|) ==> Stands(hash, t, map[])
  {
    assert |Items(t)| == 0;
  }

  lemma ReachKept<K, V>(t: seq<Bucket<K, V>>, u: seq<Bucket<K, V>>, h: nat, b: nat)
    requires |t| == |u| > 0 && Reach(t, h, b)
    requires forall x :: 0 <= x < |t| && !t[x].Empty? ==> !u[x].Empty?
    ensures Reach(u, h, b)
  {
    var i: nat :| i < |t| && Probe(h, i, |t|) == b && Passed(t, h, i);
    assert Passed(u, h, i);
  }

  /** Items stay placed when one bucket changes, and not to empty. */
  lemma StayPlaced<K, V>(hash: K -> nat, t: seq<Bucket<K, V>>, b: nat, bucket: Bucket<K, V>)
    requires b < |t| && AllPlaced(hash, t) && !bucket.Empty?
    requires bucket.Item? ==> Reach(t, hash(bucket.key), b)
    ensures AllPlaced(hash, t[b := bucket])
  {
    var u := t[b := bucket];
    forall a | 0 <= a < |u|
      ensures Placed(hash, u, a)
    {
      assert Placed(hash, t, a);
      if u[a].Item? {
        ReachKept(t, u, hash(u[a].key), a);
      }
    }
  }

  /** An item put into a free bucket that its hash reaches. */
  lemma PutItem<K, V>(hash: K -> nat, t: seq<Bucket<K, V>>, m: map<K, V>, b: nat, key: K, value: V)
    requires Stands(hash, t, m) && b < |t| && !t[b].Item? && Reach(t, hash(key), b) && key !in m
    ensures Stands(hash, t[b := Item(key, value)], m[key := value])
  {
    hide Agrees, Reach;
    StayPlaced(hash, t, b, Item(key, value));
    AgreesPut(t, m, b, key, value);
  }

  lemma AgreesPut<K, V>(t: seq<Bucket<K, V>>, m: map<K, V>, b: nat, key: K, value: V)
    requires Agrees(t, m) && b < |t| && !t[b].Item? && key !in m
    ensures Agrees(t[b := Item(key, value)], m[key := value])
  {
    hide Items, UniqueKeys, ItemsIn, HoldsAll;
    PutCounts(t, b, key, value);
    UniquePut(t, m, b, key, value);
    ItemsInPut(t, m, b, key, value);
    HoldsPut(t, m, b, key, value);
  }

  lemma UniquePut<K, V>(t: seq<Bucket<K, V>>, m: map<K, V>, b: nat, key: K, value: V)
    requires UniqueKeys(t) && ItemsIn(t, m) && b < |t| && key !in m
    ensures UniqueKeys(t[b := Item(key, value)])
  {
  }

  lemma ItemsInPut<K, V>(t: seq<Bucket<K, V>>, m: map<K, V>, b: nat, key: K, value: V)
    requires ItemsIn(t, m) && b < |t| && key !in m
    ensures ItemsIn(t[b := Item(key, value)], m[key := value])
  {
  }

  lemma HoldsPut<K, V>(t: seq<Bucket<K, V>>, m: map<K, V>, b: nat, key: K, value: V)
    requires HoldsAll(t, m) && b < |t| && !t[b].Item?
    ensures HoldsAll(t[b := Item(key, value)], m[key := value])
  {
    var u := t[b := Item(key, value)];
    assert IsKey(u, b, key);
    forall k | k in m
      ensures Holds(u, k)
    {
      assert Holds(t, k);
      var a: nat :| IsKey(t, a, k);
      assert IsKey(u, a, k);
    }
  }

  lemma PutCounts<K, V>(t: seq<Bucket<K, V>>, b: nat, key: K, value: V)
    requires b < |t| && !t[b].Item?
    ensures var u := t[b := Item(key, value)];
      && Items(u) == Items(t) + {b} && |Items(u)| == |Items(t)| + 1
      && Tombstones(u) == Tombstones(t) - {b} && |Tombstones(u)| == |Tombstones(t)| - if t[b].Tombstone? then 1 else 0
  {
    assert Items(t[b := Item(key, value)]) == Items(t) + {b};
    assert Tombstones(t[b := Item(key, value)]) == Tombstones(t) - {b};
    assert t[b].Tombstone? <==> b in Tombstones(t);
  }

  /** An item turned into a tombstone. */
  lemma DropItem<K, V>(hash: K -> nat, t: seq<Bucket<K, V>>, m: map<K, V>, b: nat)
    requires Stands(hash, t, m) && b < |t| && t[b].Item?
    ensures Stands(hash, t[b := Tombstone], m - {t[b].key})
  {
    hide Agrees, Reach;
    StayPlaced(hash, t, b, Tombstone);
    AgreesDrop(t, m, b);
  }

  lemma DropCounts<K, V>(t: seq<Bucket<K, V>>, b: nat)
    requires b < |t| && t[b].Item?
    ensures Items(t[b := Tombstone]) == Items(t) - {b} && Tombstones(t[b := Tombstone]) == Tombstones(t) + {b}
    ensures |Items(t[b := Tombstone])| == |Items(t)| - 1 && |Tombstones(t[b := Tombstone])| == |Tombstones(t)| + 1
  {
    assert Items(t[b := Tombstone]) == Items(t) - {b};
  }

  lemma AgreesDrop<K, V>(t: seq<Bucket<K, V>>, m: map<K, V>, b: nat)
    requires Agrees(t, m) && b < |t| && t[b].Item?
    ensures Agrees(t[b := Tombstone], m - {t[b].key})
  {
    hide Items, HoldsAll, UniqueKeys;
    DropCounts(t, b);
    HoldsDrop(t, m, b);
    UniqueDrop(t, m, b);
    assert t[b].key in m;
    Shrinks(m, t[b].key);
  }

  lemma Shrinks<K, V>(m: map<K, V>, key: K)
    requires key in m
    ensures |m - {key}| == |m| - 1 && (m - {key}).Keys == m.Keys - {key}
  {
    assert (m - {key}).Keys == m.Keys - {key};
  }

  lemma UniqueDrop<K, V>(t: seq<Bucket<K, V>>, m: map<K, V>, b: nat)
    requires UniqueKeys(t) && ItemsIn(t, m) && b < |t| && t[b].Item?
    ensures UniqueKeys(t[b := Tombstone]) && ItemsIn(t[b := Tombstone], m - {t[b].key})
  {
  }

  lemma HoldsDrop<K, V>(t: seq<Bucket<K, V>>, m: map<K, V>, b: nat)
    requires HoldsAll(t, m) && b < |t| && t[b].Item?
    ensures HoldsAll(t[b := Tombstone], m - {t[b].key})
  {
    var u := t[b := Tombstone];
    forall k | k in m && k != t[b].key
      ensures Holds(u, k)
    {
      assert Holds(t, k);
      var a: nat :| IsKey(t, a, k);
      assert IsKey(u, a, k);
    }
  }

  /** The hash of `key` leads to an empty bucket before it leads to `key`. */
  lemma NotFound<K, V>(hash: K -> nat, t: seq<Bucket<K, V>>, m: map<K, V>, key: K, i: nat)
    requires Stands(hash, t, m) && i < |t| && t[Probe(hash(key), i, |t|)].Empty?
    requires forall j: nat :: j < i ==> !IsKey(t, Probe(hash(key), j, |t|), key)
    ensures key !in m
  {
    if key in m {
      assert Holds(t, key);
      var b: nat :| IsKey(t, b, key);
      assert Placed(hash, t, b);
      var j: nat :| j < |t| && Probe(hash(key), j, |t|) == b && Passed(t, hash(key), j);
      assert false;
    }
  }

  /** A key found in a bucket has the bucket's value. */
  lemma FoundHere<K, V>(t: seq<Bucket<K, V>>, m: map<K, V>, b: nat, key: K)
    requires Agrees(t, m) && IsKey(t, b, key)
    ensures key in m && t[b] == Item(key, m[key])
  {
  }

  /** Fewer full buckets than buckets leave one empty, and every hash leads to it. */
  lemma SomeEmpty<K, V>(t: seq<Bucket<K, V>>, h: nat) returns (i: nat)
    requires IsPow2(|t|) && Roomy(t)
    ensures i < |t| && t[Probe(h, i, |t|)].Empty?
  {
    i := ProbeEnds(Items(t) + Tombstones(t), |t|, h);
  }

  lemma HasRoom<K, V>(hash: K -> nat, t: seq<Bucket<K, V>>, m: map<K, V>)
    requires Stands(hash, t, m) && |m| + |Tombstones(t)| < |t|
    ensures Roomy(t) && IsPow2(|t|)
  {
  }

  lemma StandsAgrees<K, V>(hash: K -> nat, t: seq<Bucket<K, V>>, m: map<K, V>)
    requires Stands(hash, t, m)
    ensures Agrees(t, m) && IsPow2(|t|)
  {
  }

  /** The probe loop of a lookup: the bucket of `key`, or the one where it is to go, the first tombstone on its way, else
      the empty bucket at the end of it. */
  method Lookup<K(==), V>(hash: K -> nat, t: array<Bucket<K, V>>, key: K, ghost m: map<K, V>)
    returns (found: bool, bucket: nat)
    requires Stands(hash, t[..], m) && Roomy(t[..])
    ensures bucket < t.Length && found == (key in m)
    ensures found ==> t[bucket] == Item(key, m[key])
    ensures !found ==> !t[bucket].Item? && Reach(t[..], hash(key), bucket)
  {
    hide Stands, Items, Tombstones, Probe, Agrees, IsPow2, Roomy;
    var h := hash(key);
    var n := t.Length;
    ghost var s := t[..];
    StandsAgrees(hash, s, m);
    ghost var e := SomeEmpty(s, h);
    bucket := h % n;
    var probeAmt := 1;
    var foundTombstone := -1;
    ghost var i: nat := 0;
    ProbeStep(h, 0, n);
    while true
      invariant i <= e < n && probeAmt == i + 1 && bucket < n && bucket == Probe(h, i, n)
      invariant Passed(s, h, i)
      invariant forall j: nat :: j < i ==> !IsKey(s, Probe(h, j, n), key)
      invariant foundTombstone == -1
                || (0 <= foundTombstone < n && s[foundTombstone].Tombstone? && Reach(s, h, foundTombstone))
      decreases e - i
    {
      if t[bucket].Item? && t[bucket].key == key {
        KeyIsThere(hash, s, m, bucket, key);
        return true, bucket;
      }
      if t[bucket].Empty? {
        NotFound(hash, s, m, key, i);
        return false, if foundTombstone != -1 then foundTombstone else bucket;
      }
      if t[bucket].Tombstone? && foundTombstone == -1 {
        foundTombstone := bucket;
      }
      assert !IsKey(s, bucket, key);
      ProbeStep(h, i, n);
      bucket := (bucket + probeAmt) % n;
      probeAmt := probeAmt + 1;
      i := i + 1;
    }
  }

  lemma KeyIsThere<K, V>(hash: K -> nat, t: seq<Bucket<K, V>>, m: map<K, V>, b: nat, key: K)
    requires Stands(hash, t, m) && b < |t| && t[b].Item? && t[b].key == key
    ensures key in m && t[b] == Item(key, m[key])
  {
    FoundHere(t, m, b, key);
  }

  // ---------------------------------------------------------------------------------------------
  // Moving the items of one table into another
  // ---------------------------------------------------------------------------------------------

  /** The first `i` buckets of `t` hold just the entries of `m`. */
  ghost predicate Moved<K, V>(t: seq<Bucket<K, V>>, i: nat, m: map<K, V>) {
    && i <= |t|
    && (forall b :: 0 <= b < i && t[b].Item? ==> t[b].key in m && m[t[b].key] == t[b].value)
    && (forall k :: k in m ==> exists b: nat :: b < i && IsKey(t, b, k))
  }

  lemma NoneMoved<K, V>(t: seq<Bucket<K, V>>)
    ensures Moved(t, 0, map[])
  {
  }

  lemma MovedNext<K, V>(t: seq<Bucket<K, V>>, i: nat, m: map<K, V>)
    requires UniqueKeys(t) && i < |t| && Moved(t, i, m)
    ensures !t[i].Item? ==> Moved(t, i + 1, m)
    ensures t[i].Item? ==> t[i].key !in m && Moved(t, i + 1, m[t[i].key := t[i].value])
  {
    if t[i].Item? {
      var w := m[t[i].key := t[i].value];
      assert IsKey(t, i, t[i].key);
      forall k | k in w
        ensures exists b: nat :: b < i + 1 && IsKey(t, b, k)
      {
        if k in m {
          var b: nat :| b < i && IsKey(t, b, k);
        }
      }
    }
  }

  /** An entry still to be moved leaves fewer entries moved than there are. */
  lemma MovedFewer<K, V>(t: seq<Bucket<K, V>>, i: nat, m: map<K, V>, all: map<K, V>)
    requires Agrees(t, all) && i < |t| && Moved(t, i, m) && t[i].Item?
    ensures |m| < |all|
  {
    MovedNext(t, i, m);
    assert m.Keys + {t[i].key} <= all.Keys;
    Larger(m.Keys + {t[i].key}, all.Keys);
  }

  /** The next bucket to be moved. */
  lemma NextItem<K, V>(t: seq<Bucket<K, V>>, i: nat, m: map<K, V>, all: map<K, V>, item: Bucket<K, V>)
    requires Agrees(t, all) && Moved(t, i, m) && i < |t| && item == t[i]
    ensures !item.Item? ==> Moved(t, i + 1, m)
    ensures item.Item? ==> item.key !in m && Moved(t, i + 1, m[item.key := item.value]) && |m| < |all|
  {
    MovedNext(t, i, m);
    if item.Item? {
      MovedFewer(t, i, m, all);
    }
  }

  lemma AllMoved<K, V>(t: seq<Bucket<K, V>>, all: map<K, V>, moved: map<K, V>)
    requires Agrees(t, all) && Moved(t, |t|, moved)
    ensures moved == all
  {
    forall k | k in all
      ensures k in moved
    {
      assert Holds(t, k);
    }
    assert moved.Keys == all.Keys;
  }
}
