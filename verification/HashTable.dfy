/** The self-expanding hash table of lib/hash.cc, against a set of items with distinct keys. */
module HashTables {
  datatype Option<T> = None | Some(value: T)

  const INITIAL_BUCKETS := 4
  const RESIZE_RATIO := 3
  const INCREASE_SIZE_BY := 4

  /** The two functions a table is made with. */
  datatype Hasher<!Key, !T> = Hasher(getKey: T -> Key, hash: Key -> nat)

  function BucketOf<Key, T>(h: Hasher<Key, T>, key: Key, numBuckets: nat): (b: nat)
    requires numBuckets > 0
    ensures b < numBuckets && h.hash(key) == h.hash(key) / numBuckets * numBuckets + b
  {
    h.hash(key) % numBuckets
  }

  /** All items of a bucket array, with multiplicity. */
  ghost function All<T>(buckets: seq<seq<T>>): multiset<T> {
    if buckets == [] then multiset{} else All(buckets[..|buckets| - 1]) + multiset(buckets[|buckets| - 1])
  }

  lemma {:induction false} AllUpdate<T>(buckets: seq<seq<T>>, i: nat, b: seq<T>)
    requires i < |buckets|
    ensures All(buckets[i := b]) + multiset(buckets[i]) == All(buckets) + multiset(b)
  {
    var n := |buckets| - 1;
    var buckets' := buckets[i := b];
    if i == n {
      assert buckets'[..n] == buckets[..n];
    } else {
      var front := buckets[..n];
      AllUpdate(front, i, b);
      assert buckets'[..n] == front[i := b] && buckets'[n] == buckets[n] && front[i] == buckets[i];
      Rearrange(All(front[i := b]), multiset(buckets[i]), All(front), multiset(b), multiset(buckets[n]));
    }
  }

  lemma Rearrange<T>(a: multiset<T>, b: multiset<T>, c: multiset<T>, d: multiset<T>, e: multiset<T>)
    requires a + b == c + d
    ensures (a + e) + b == (c + e) + d
  {
    forall x ensures ((a + e) + b)[x] == ((c + e) + d)[x] {
      assert (a + b)[x] == (c + d)[x];
    }
  }

  lemma AllAppend<T>(buckets: seq<seq<T>>, i: nat, x: T)
    requires i < |buckets|
    ensures All(buckets[i := buckets[i] + [x]]) == All(buckets) + multiset{x}
  {
    hide All;
    AllUpdate(buckets, i, buckets[i] + [x]);
    MultisetCancel(All(buckets[i := buckets[i] + [x]]), All(buckets) + multiset{x}, multiset(buckets[i]));
  }

  lemma AllTakeFirst<T>(buckets: seq<seq<T>>, i: nat)
    requires i < |buckets| && buckets[i] != []
    ensures All(buckets[i := buckets[i][1..]]) + multiset{buckets[i][0]} == All(buckets)
  {
    hide All;
    var rest := buckets[i][1..];
    AllUpdate(buckets, i, rest);
    assert buckets[i] == [buckets[i][0]] + rest;
    assert multiset(buckets[i]) == multiset{buckets[i][0]} + multiset(rest);
    MultisetCancel(All(buckets[i := rest]) + multiset{buckets[i][0]}, All(buckets), multiset(rest));
  }

  lemma MultisetCancel<T>(a: multiset<T>, b: multiset<T>, c: multiset<T>)
    requires a + c == b + c
    ensures a == b
  {
    forall x ensures a[x] == b[x] {
      assert (a + c)[x] == (b + c)[x];
    }
  }

  lemma {:induction false} InAll<T>(buckets: seq<seq<T>>, x: T)
    ensures x in All(buckets) <==> exists i :: 0 <= i < |buckets| && x in buckets[i]
  {
    if buckets != [] {
      var n := |buckets| - 1;
      InAll(buckets[..n], x);
      if x in All(buckets[..n]) {
        var i :| 0 <= i < n && x in buckets[..n][i];
        assert x in buckets[i];
      }
      if exists i :: 0 <= i < |buckets| && x in buckets[i] {
        var i :| 0 <= i < |buckets| && x in buckets[i];
        assert i < n ==> x in buckets[..n][i];
      }
    }
  }

  lemma {:induction false} AllEmpty<T>(buckets: seq<seq<T>>)
    requires forall i :: 0 <= i < |buckets| ==> buckets[i] == []
    ensures All(buckets) == multiset{}
  {
    if buckets != [] {
      AllEmpty(buckets[..|buckets| - 1]);
    }
  }

  /** Each item sits in the bucket its key hashes to. */
  ghost predicate Placed<Key, T>(h: Hasher<Key, T>, buckets: seq<seq<T>>) {
    forall i, j :: 0 <= i < |buckets| && 0 <= j < |buckets[i]| ==> BucketOf(h, h.getKey(buckets[i][j]), |buckets|) == i
  }

  lemma AppendPlaced<Key, T>(h: Hasher<Key, T>, buckets: seq<seq<T>>, b: nat, item: T)
    requires |buckets| > 0 && Placed(h, buckets) && b == BucketOf(h, h.getKey(item), |buckets|)
    ensures Placed(h, buckets[b := buckets[b] + [item]])
  {
    hide BucketOf;
  }

  ghost predicate DistinctKeys<Key, T>(h: Hasher<Key, T>, items: set<T>) {
    forall x, y :: x in items && y in items && h.getKey(x) == h.getKey(y) ==> x == y
  }

  ghost predicate HasKey<Key, T>(h: Hasher<Key, T>, items: set<T>, key: Key) {
    exists x :: x in items && h.getKey(x) == key
  }

  /** The table as a finite map from keys to items. */
  ghost function AsMap<Key, T>(h: Hasher<Key, T>, items: set<T>): map<Key, T>
    requires DistinctKeys(h, items)
  {
    map x | x in items :: h.getKey(x) := x
  }

  lemma AsMapHas<Key, T>(h: Hasher<Key, T>, items: set<T>, key: Key)
    requires DistinctKeys(h, items)
    ensures key in AsMap(h, items) <==> HasKey(h, items, key)
    ensures key in AsMap(h, items) ==> AsMap(h, items)[key] in items && h.getKey(AsMap(h, items)[key]) == key
  {
  }

  lemma AsMapWith<Key, T>(h: Hasher<Key, T>, items: set<T>, item: T)
    requires DistinctKeys(h, items) && DistinctKeys(h, items + {item}) && !HasKey(h, items, h.getKey(item))
    ensures AsMap(h, items + {item}) == AsMap(h, items)[h.getKey(item) := item]
  {
  }

  lemma AsMapWithout<Key, T>(h: Hasher<Key, T>, items: set<T>, item: T)
    requires DistinctKeys(h, items) && DistinctKeys(h, items - {item}) && item in items
    ensures AsMap(h, items - {item}) == AsMap(h, items) - {h.getKey(item)}
  {
  }

  lemma EmptyTable<Key, T>(h: Hasher<Key, T>, buckets: seq<seq<T>>)
    requires forall i :: 0 <= i < |buckets| ==> buckets[i] == []
    ensures All(buckets) == multiset{} && Placed(h, buckets)
  {
    AllEmpty(buckets);
  }

  lemma NewKey<Key, T>(h: Hasher<Key, T>, items: set<T>, item: T)
    requires DistinctKeys(h, items) && !HasKey(h, items, h.getKey(item))
    ensures item !in items && DistinctKeys(h, items + {item}) && multiset(items + {item}) == multiset(items) + multiset{item}
  {
  }

  lemma RoomLeft(numItems: nat, numBuckets: nat)
    requires numBuckets > 0
    ensures numItems / numBuckets >= RESIZE_RATIO <==> numItems >= RESIZE_RATIO * numBuckets
  {
    var q := numItems / numBuckets;
    assert numItems == q * numBuckets + numItems % numBuckets;
    if q < RESIZE_RATIO {
      assert q == 0 || q == 1 || q == 2;
    } else {
      assert q * numBuckets >= RESIZE_RATIO * numBuckets;
    }
  }

  /** An item of the table is in its own bucket and nowhere else. */
  lemma InOwnBucket<Key, T>(h: Hasher<Key, T>, buckets: seq<seq<T>>, items: set<T>, x: T)
    requires |buckets| > 0 && Placed(h, buckets) && All(buckets) == multiset(items)
    ensures x in items <==> x in buckets[BucketOf(h, h.getKey(x), |buckets|)]
  {
    InAll(buckets, x);
  }

  class HashTable<Key(==), T(==)> {
    const h: Hasher<Key, T>
    var buckets: array<seq<T>>
    var numBuckets: nat
    var numItems: nat
    ghost var items: set<T>

    ghost predicate Valid()
      reads this, buckets
    {
      && numBuckets == buckets.Length > 0
      && Placed(h, buckets[..])
      && All(buckets[..]) == multiset(items)
      && DistinctKeys(h, items)
      && numItems == |items| <= RESIZE_RATIO * numBuckets
    }

    ghost function Contents(): map<Key, T>
      requires DistinctKeys(h, items)
      reads this
    {
      AsMap(h, items)
    }

    constructor (hasher: Hasher<Key, T>)
      ensures Valid() && fresh(buckets) && h == hasher && items == {} && Contents() == map[]
    {
      h := hasher;
      numBuckets, numItems, items := INITIAL_BUCKETS, 0, {};
      buckets := new seq<T>[INITIAL_BUCKETS](_ => []);
      new;
      EmptyTable(h, buckets[..]);
    }

    /** Put an item behind the others of its bucket. */
    method AppendToBucket(item: T)
      requires numBuckets == buckets.Length > 0 && Placed(h, buckets[..])
      modifies buckets
      ensures Placed(h, buckets[..]) && All(buckets[..]) == old(All(buckets[..])) + multiset{item}
    {
      hide All, Placed, BucketOf;
      var b := BucketOf(h, h.getKey(item), numBuckets);
      AllAppend(buckets[..], b, item);
      AppendPlaced(h, buckets[..], b, item);
      buckets[b] := buckets[b] + [item];
      assert buckets[..] == old(buckets[..])[b := old(buckets[b]) + [item]];
    }

    /** Four times the buckets, the same items. */
    method ReHash()
      requires Valid()
      modifies this, buckets
      ensures Valid() && fresh(buckets) && items == old(items) && numItems == old(numItems)
      ensures Contents() == old(Contents())
      ensures numBuckets == INCREASE_SIZE_BY * old(numBuckets)
    {
      hide All, Placed, DistinctKeys, AsMap;
      var oldTable, oldSize := buckets, numBuckets;
      numBuckets := numBuckets * INCREASE_SIZE_BY;
      buckets := new seq<T>[numBuckets](_ => []);
      EmptyTable(h, buckets[..]);
      for i := 0 to oldSize
        invariant fresh(buckets) && buckets != oldTable && buckets.Length == numBuckets == INCREASE_SIZE_BY * oldSize && oldTable.Length == oldSize
        invariant Placed(h, buckets[..]) && items == old(items) && numItems == old(numItems)
        invariant All(oldTable[..]) + All(buckets[..]) == multiset(items)
        invariant forall k :: 0 <= k < i ==> oldTable[k] == []
      {
        while oldTable[i] != []
          invariant fresh(buckets) && buckets != oldTable && buckets.Length == numBuckets == INCREASE_SIZE_BY * oldSize && oldTable.Length == oldSize
          invariant Placed(h, buckets[..]) && items == old(items) && numItems == old(numItems)
          invariant All(oldTable[..]) + All(buckets[..]) == multiset(items)
          invariant forall k :: 0 <= k < i ==> oldTable[k] == []
          decreases |oldTable[i]|
        {
          var item := oldTable[i][0];
          AllTakeFirst(oldTable[..], i);
          ghost var table := oldTable[..];
          oldTable[i] := oldTable[i][1..];
          assert oldTable[..] == table[i := table[i][1..]];
          AppendToBucket(item);
        }
      }
      AllEmpty(oldTable[..]);
    }

    method Insert(item: T)
      requires Valid() && h.getKey(item) !in Contents()
      modifies this, buckets
      ensures Valid() && Contents() == old(Contents())[h.getKey(item) := item]
      ensures numBuckets == old(numBuckets) || numBuckets == INCREASE_SIZE_BY * old(numBuckets)
    {
      hide All, Placed, DistinctKeys, HasKey, AsMap;
      AsMapHas(h, items, h.getKey(item));
      RoomLeft(numItems, numBuckets);
      if numItems / numBuckets >= RESIZE_RATIO {
        ReHash();
      }
      NewKey(h, items, item);
      AppendToBucket(item);
      AsMapWith(h, items, item);
      items := items + {item};
      numItems := numItems + 1;
    }

    method Find(key: Key) returns (found: Option<T>)
      requires Valid()
      ensures found.Some? <==> HasKey(h, items, key)
      ensures found.Some? ==> found.value in items && h.getKey(found.value) == key
      ensures found == if key in Contents() then Some(Contents()[key]) else None
    {
      AsMapHas(h, items, key);
      var b := BucketOf(h, key, numBuckets);
      for j := 0 to |buckets[b]|
        invariant forall k :: 0 <= k < j ==> h.getKey(buckets[b][k]) != key
      {
        if h.getKey(buckets[b][j]) == key {
          InOwnBucket(h, buckets[..], items, buckets[b][j]);
          return Some(buckets[b][j]);
        }
      }
      forall x | x in items
        ensures h.getKey(x) != key
      {
        InOwnBucket(h, buckets[..], items, x);
      }
      return None;
    }

    method Remove(key: Key) returns (item: T)
      requires Valid() && key in Contents()
      modifies this, buckets
      ensures Valid() && key in old(Contents()) && item == old(Contents())[key] && Contents() == old(Contents()) - {key}
      ensures numBuckets == old(numBuckets)
    {
      hide All, Placed, DistinctKeys, HasKey, AsMap;
      AsMapHas(h, items, key);
      var found := Find(key);
      item := found.value;
      var b := BucketOf(h, key, numBuckets);
      InOwnBucket(h, buckets[..], items, item);
      ghost var table := buckets[..];
      var j := IndexOf(buckets[b], item);
      Removed(h, table, b, j);
      buckets[b] := buckets[b][..j] + buckets[b][j + 1..];
      assert buckets[..] == table[b := table[b][..j] + table[b][j + 1..]];
      FewerKeys(h, items, item);
      AsMapWithout(h, items, item);
      MultisetCancel(All(buckets[..]), multiset(items - {item}), multiset{item});
      items := items - {item};
      numItems := numItems - 1;
    }
  }

  /** Where List::Remove finds an item of a bucket. */
  method IndexOf<T(==)>(bucket: seq<T>, item: T) returns (j: nat)
    requires item in bucket
    ensures j < |bucket| && bucket[j] == item
  {
    j := 0;
    while bucket[j] != item
      invariant j < |bucket| && item in bucket[j..]
      decreases |bucket| - j
    {
      j := j + 1;
    }
  }

  lemma Removed<Key, T>(h: Hasher<Key, T>, buckets: seq<seq<T>>, b: nat, j: nat)
    requires b < |buckets| && j < |buckets[b]| && Placed(h, buckets)
    ensures var buckets' := buckets[b := buckets[b][..j] + buckets[b][j + 1..]];
            Placed(h, buckets') && All(buckets') + multiset{buckets[b][j]} == All(buckets)
  {
    hide All, BucketOf;
    var rest := buckets[b][..j] + buckets[b][j + 1..];
    AllUpdate(buckets, b, rest);
    assert buckets[b] == buckets[b][..j] + [buckets[b][j]] + buckets[b][j + 1..];
    assert multiset(buckets[b]) == multiset{buckets[b][j]} + multiset(rest);
    MultisetCancel(All(buckets[b := rest]) + multiset{buckets[b][j]}, All(buckets), multiset(rest));
  }

  lemma FewerKeys<Key, T>(h: Hasher<Key, T>, items: set<T>, item: T)
    requires DistinctKeys(h, items) && item in items
    ensures DistinctKeys(h, items - {item}) && multiset(items - {item}) + multiset{item} == multiset(items)
  {
  }

  // ---- the iterator ----

  ghost function Flat<T>(buckets: seq<seq<T>>): seq<T> {
    if buckets == [] then [] else buckets[0] + Flat(buckets[1..])
  }

  lemma {:induction false} FlatIsAll<T>(buckets: seq<seq<T>>)
    ensures multiset(Flat(buckets)) == All(buckets)
  {
    if buckets != [] {
      FlatIsAll(buckets[1..]);
      AllFront(buckets);
    }
  }

  lemma {:induction false} AllFront<T>(buckets: seq<seq<T>>)
    requires buckets != []
    ensures All(buckets) == multiset(buckets[0]) + All(buckets[1..])
  {
    var n := |buckets| - 1;
    if n > 0 {
      AllFront(buckets[..n]);
      assert buckets[..n][1..] == buckets[1..][..n - 1];
    }
  }

  /** What an iterator at a bucket, at a position in it, has still to visit. */
  ghost function Remaining<T>(buckets: seq<seq<T>>, bucket: nat, pos: nat): seq<T>
    requires bucket <= |buckets| && (bucket < |buckets| ==> pos <= |buckets[bucket]|)
  {
    if bucket == |buckets| then [] else buckets[bucket][pos..] + Flat(buckets[bucket + 1..])
  }

  lemma {:induction false} SkipEmpty<T>(buckets: seq<seq<T>>, start: nat, end: nat)
    requires start <= end <= |buckets| && forall i :: start <= i < end ==> buckets[i] == []
    ensures Flat(buckets[start..]) == Flat(buckets[end..])
    decreases end - start
  {
    if start < end {
      SkipEmpty(buckets, start + 1, end);
      assert buckets[start..][1..] == buckets[start + 1..];
    }
  }

  class HashIterator<T(==)> {
    const buckets: seq<seq<T>>
    var bucket: nat
    var pos: nat

    ghost predicate Valid()
      reads this
    {
      bucket <= |buckets| && (bucket < |buckets| ==> pos < |buckets[bucket]|)
    }

    ghost function ToVisit(): seq<T>
      requires Valid()
      reads this
    {
      Remaining(buckets, bucket, pos)
    }

    constructor (table: seq<seq<T>>)
      ensures Valid() && buckets == table && ToVisit() == Flat(table)
    {
      buckets := table;
      bucket, pos := 0, 0;
      new;
      FindNextFullBucket(0);
      assert table[0..] == table;
    }

    /** Go to the first item of the first bucket, from start on, that is not empty. */
    method FindNextFullBucket(start: nat)
      requires start <= |buckets|
      modifies this
      ensures Valid() && ToVisit() == Flat(buckets[start..])
    {
      bucket, pos := start, 0;
      while bucket < |buckets| && buckets[bucket] == []
        invariant start <= bucket <= |buckets| && pos == 0
        invariant forall i :: start <= i < bucket ==> buckets[i] == []
      {
        bucket := bucket + 1;
      }
      SkipEmpty(buckets, start, bucket);
      if bucket < |buckets| {
        assert buckets[bucket..][1..] == buckets[bucket + 1..];
      }
    }

    predicate IsDone()
      reads this
    {
      bucket >= |buckets|
    }

    function Item(): T
      requires Valid() && !IsDone()
      reads this
    {
      buckets[bucket][pos]
    }

    method Next()
      requires Valid() && !IsDone()
      modifies this
      ensures Valid() && [old(Item())] + ToVisit() == old(ToVisit())
    {
      pos := pos + 1;
      if pos == |buckets[bucket]| {
        FindNextFullBucket(bucket + 1);
      }
    }
  }

  /** Stepping an iterator to its end visits every item of the table exactly once. */
  method VisitAll<Key, T>(table: HashTable<Key, T>) returns (visited: seq<T>)
    requires table.Valid()
    ensures multiset(visited) == multiset(table.items)
  {
    hide Flat, All, Placed, DistinctKeys, Remaining;
    var it := new HashIterator(table.buckets[..]);
    visited := [];
    ghost var all := it.ToVisit();
    while !it.IsDone()
      invariant it.Valid() && fresh(it) && visited + it.ToVisit() == all
      decreases |it.ToVisit()|
    {
      visited := visited + [it.Item()];
      it.Next();
    }
    DoneVisitsNothing(it);
    FlatIsAll(table.buckets[..]);
  }

  lemma DoneVisitsNothing<T>(it: HashIterator<T>)
    requires it.Valid() && it.IsDone()
    ensures it.ToVisit() == []
  {
  }
}
