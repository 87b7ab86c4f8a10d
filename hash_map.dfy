/**
 * A separate-chaining hash map. The table is an array of buckets, each a sequence of
 * (key, value) pairs that the operations replace in place, plus a pair counter. The
 * ghost field `Contents` is the finite map the table stands for; `Valid()` ties the
 * two together. The hash function of the keys is a parameter of the map.
 */
module HashMaps {

  datatype Option<T> = None | Some(value: T)

  /** What a lookup of `k` in the finite map `m` gives: the value, or None when absent. */
  function MapGet<K, V>(m: map<K, V>, k: K): Option<V> {
    if k in m then Some(m[k]) else None
  }

  /** The scan of one bucket: the value of the first pair whose key is `key`. */
  function Find<K(==), V>(bucket: seq<(K, V)>, key: K): Option<V> {
    if bucket == [] then None
    else if bucket[0].0 == key then Some(bucket[0].1)
    else Find(bucket[1..], key)
  }

  ghost function KeysOf<K, V>(bucket: seq<(K, V)>): set<K> {
    if bucket == [] then {} else KeysOf(bucket[..|bucket| - 1]) + {bucket[|bucket| - 1].0}
  }

  ghost predicate DistinctKeys<K, V>(bucket: seq<(K, V)>) {
    forall i, j :: 0 <= i < j < |bucket| ==> bucket[i].0 != bucket[j].0
  }

  /** The number of pairs across all buckets. */
  function TotalPairs<K, V>(buckets: seq<seq<(K, V)>>): nat {
    if buckets == [] then 0
    else TotalPairs(buckets[..|buckets| - 1]) + |buckets[|buckets| - 1]|
  }

  /** The growth test `size / capacity > 0.75`, in integers. */
  predicate OverThreshold(size: nat, capacity: nat) {
    4 * size > 3 * capacity
  }

  // ---------- the scan of one bucket ----------

  /** A pair with no earlier pair of the same key is what the scan finds for that key. */
  lemma {:induction false} FindAt<K, V>(bucket: seq<(K, V)>, i: nat)
    requires i < |bucket|
    requires forall j :: 0 <= j < i ==> bucket[j].0 != bucket[i].0
    ensures Find(bucket, bucket[i].0) == Some(bucket[i].1)
  {
    if i > 0 {
      assert bucket[1..][i - 1] == bucket[i];
      FindAt(bucket[1..], i - 1);
    }
  }

  lemma {:induction false} FindMissing<K, V>(bucket: seq<(K, V)>, key: K)
    requires forall j :: 0 <= j < |bucket| ==> bucket[j].0 != key
    ensures Find(bucket, key) == None
  {
    if bucket != [] {
      FindMissing(bucket[1..], key);
    }
  }

  lemma {:induction false} FindInKeys<K, V>(bucket: seq<(K, V)>, key: K)
    ensures Find(bucket, key).Some? ==> key in KeysOf(bucket)
  {
    if bucket != [] {
      KeysOfDrop(bucket);
      if bucket[0].0 != key {
        FindInKeys(bucket[1..], key);
      }
    }
  }

  lemma {:induction false} KeysOfDrop<K, V>(bucket: seq<(K, V)>)
    requires bucket != []
    ensures KeysOf(bucket) == {bucket[0].0} + KeysOf(bucket[1..])
    decreases |bucket|
  {
    if |bucket| > 1 {
      var init := bucket[..|bucket| - 1];
      assert init[1..] == bucket[1..][..|bucket[1..]| - 1];
      KeysOfDrop(init);
    }
  }

  /** In a bucket of distinct keys, the key at `j` is not among the keys before it. */
  lemma {:induction false} NotInPrefix<K, V>(bucket: seq<(K, V)>, j: nat)
    requires DistinctKeys(bucket) && j < |bucket|
    ensures bucket[j].0 !in KeysOf(bucket[..j])
  {
    var i := j;
    while i > 0
      invariant 0 <= i <= j
      invariant bucket[j].0 !in KeysOf(bucket[..j]) - KeysOf(bucket[..i])
    {
      assert bucket[..i][..i - 1] == bucket[..i - 1];
      i := i - 1;
    }
  }

  /** Overwriting the value of the first pair of its key changes the scan for that key only. */
  lemma {:induction false} FindSetValue<K, V>(bucket: seq<(K, V)>, i: nat, v: V, k: K)
    requires i < |bucket|
    requires forall j :: 0 <= j < i ==> bucket[j].0 != bucket[i].0
    ensures Find(bucket[i := (bucket[i].0, v)], k) == if k == bucket[i].0 then Some(v) else Find(bucket, k)
  {
    if i == 0 {
      assert bucket[i := (bucket[i].0, v)][1..] == bucket[1..];
    } else {
      assert bucket[i := (bucket[i].0, v)][1..] == bucket[1..][i - 1 := (bucket[i].0, v)];
      FindSetValue(bucket[1..], i - 1, v, k);
    }
  }

  /** Appending a pair leaves the scan for every key already present, and finds the new one last. */
  lemma {:induction false} FindAppend<K, V>(bucket: seq<(K, V)>, p: (K, V), k: K)
    ensures Find(bucket + [p], k) ==
              if Find(bucket, k).Some? then Find(bucket, k) else if p.0 == k then Some(p.1) else None
  {
    if bucket != [] {
      assert (bucket + [p])[1..] == bucket[1..] + [p];
      FindAppend(bucket[1..], p, k);
    }
  }

  /** Removing the pair at `i` from a bucket of distinct keys makes its key disappear and nothing else. */
  lemma {:induction false} FindRemoveAt<K, V>(bucket: seq<(K, V)>, i: nat, k: K)
    requires DistinctKeys(bucket) && i < |bucket|
    ensures Find(bucket[..i] + bucket[i + 1..], k) == if k == bucket[i].0 then None else Find(bucket, k)
  {
    if i == 0 {
      assert bucket[..0] + bucket[1..] == bucket[1..];
      if k == bucket[0].0 {
        FindMissing(bucket[1..], k);
      }
    } else {
      var rest := bucket[1..];
      assert (bucket[..i] + bucket[i + 1..])[1..] == rest[..i - 1] + rest[i..];
      FindRemoveAt(rest, i - 1, k);
    }
  }

  // ---------- counting pairs ----------

  lemma {:induction false} TotalPrefixStep<K, V>(buckets: seq<seq<(K, V)>>, b: nat)
    requires b < |buckets|
    ensures TotalPairs(buckets[..b + 1]) == TotalPairs(buckets[..b]) + |buckets[b]|
  {
    assert buckets[..b + 1][..b] == buckets[..b];
  }

  lemma {:induction false} TotalPrefixBound<K, V>(buckets: seq<seq<(K, V)>>, b: nat)
    requires b <= |buckets|
    ensures TotalPairs(buckets[..b]) <= TotalPairs(buckets)
    decreases |buckets| - b
  {
    if b == |buckets| {
      assert buckets[..b] == buckets;
    } else {
      TotalPrefixStep(buckets, b);
      TotalPrefixBound(buckets, b + 1);
    }
  }

  lemma {:induction false} TotalUpdate<K, V>(buckets: seq<seq<(K, V)>>, i: nat, x: seq<(K, V)>)
    requires i < |buckets|
    ensures TotalPairs(buckets[i := x]) == TotalPairs(buckets) - |buckets[i]| + |x|
  {
    var last := |buckets| - 1;
    if i < last {
      assert buckets[i := x][..last] == buckets[..last][i := x];
      TotalUpdate(buckets[..last], i, x);
    } else {
      assert buckets[i := x][..last] == buckets[..last];
    }
  }

  lemma KeysOfStep<K, V>(bucket: seq<(K, V)>, j: nat)
    requires j < |bucket|
    ensures KeysOf(bucket[..j + 1]) == KeysOf(bucket[..j]) + {bucket[j].0}
  {
    assert bucket[..j + 1][..j] == bucket[..j];
  }

  lemma WholeSlice<T>(s: seq<T>)
    ensures s[..|s|] == s
  {
  }

  lemma {:induction false} TotalOfEmpty<K, V>(buckets: seq<seq<(K, V)>>)
    requires forall b :: 0 <= b < |buckets| ==> buckets[b] == []
    ensures TotalPairs(buckets) == 0
  {
    if buckets != [] {
      TotalOfEmpty(buckets[..|buckets| - 1]);
    }
  }

  // ---------- the map ----------

  class MyHashMap<K(==, !new), V> {
    const hash: K -> int
    var buckets: array<seq<(K, V)>>
    var size: nat
    ghost var Contents: map<K, V>

    /** `_get_bucket_index` for a table of `capacity` buckets: a remainder that is never negative. */
    function BucketIndex(key: K, capacity: nat): (index: nat)
      requires capacity >= 1
      ensures index < capacity
    {
      hash(key) % capacity
    }

    /** Every pair sits in the bucket its key hashes to. */
    ghost predicate Placed(table: seq<seq<(K, V)>>)
      requires |table| >= 1
    {
      forall b, j :: 0 <= b < |table| && 0 <= j < |table[b]| ==> BucketIndex(table[b][j].0, |table|) == b
    }

    /**
     * The table `table` stands for the map `m`: it has at least one bucket, every pair is
     * placed by its hash, no key occurs twice in a bucket, and the scan of a key's bucket
     * gives the lookup of that key in `m`.
     */
    ghost predicate Represents(table: seq<seq<(K, V)>>, m: map<K, V>) {
      && |table| >= 1
      && Placed(table)
      && (forall b :: 0 <= b < |table| ==> DistinctKeys(table[b]))
      && (forall k {:trigger MapGet(m, k)} :: Find(table[BucketIndex(k, |table|)], k) == MapGet(m, k))
    }

    /** The object invariant: the buckets stand for `Contents`; the counter counts pairs and keys. */
    ghost predicate Valid()
      reads this, buckets
    {
      && Represents(buckets[..], Contents)
      && size == TotalPairs(buckets[..])
      && size == |Contents|
    }

    /** The load-factor bound that holds between operations. */
    ghost predicate HasRoom()
      reads this
    {
      !OverThreshold(size, buckets.Length)
    }

    /** `__init__`: `initialCapacity` empty buckets and no pairs; 0 buckets would divide by zero. */
    constructor (hash: K -> int, initialCapacity: nat := 8)
      requires initialCapacity >= 1
      ensures this.hash == hash
      ensures Valid() && HasRoom()
      ensures fresh(buckets) && buckets.Length == initialCapacity
      ensures forall b :: 0 <= b < initialCapacity ==> buckets[b] == []
      ensures size == 0 && Contents == map[]
    {
      this.hash := hash;
      buckets := new seq<(K, V)>[initialCapacity](_ => []);
      size := 0;
      Contents := map[];
      new;
      EmptyTable(buckets[..]);
    }

    /** A table of empty buckets stands for the empty map and holds no pairs. */
    lemma EmptyTable(table: seq<seq<(K, V)>>)
      requires |table| >= 1 && forall b :: 0 <= b < |table| ==> table[b] == []
      ensures Represents(table, map[]) && TotalPairs(table) == 0
    {
      TotalOfEmpty(table);
      forall k
        ensures Find(table[BucketIndex(k, |table|)], k) == MapGet(map[], k)
      {
        assert table[BucketIndex(k, |table|)] == [];
      }
    }

    /** A key lies in at most one place of a table that stands for a map. */
    lemma KeysUnique(table: seq<seq<(K, V)>>, m: map<K, V>)
      requires Represents(table, m)
      ensures forall b1, j1, b2, j2 ::
                && 0 <= b1 < |table| && 0 <= j1 < |table[b1]|
                && 0 <= b2 < |table| && 0 <= j2 < |table[b2]|
                && table[b1][j1].0 == table[b2][j2].0
                ==> b1 == b2 && j1 == j2
    {
      forall b1, j1, b2, j2 |
        && 0 <= b1 < |table| && 0 <= j1 < |table[b1]|
        && 0 <= b2 < |table| && 0 <= j2 < |table[b2]|
        && table[b1][j1].0 == table[b2][j2].0
        ensures b1 == b2 && j1 == j2
      {
        assert BucketIndex(table[b1][j1].0, |table|) == b1;
        assert DistinctKeys(table[b1]);
      }
    }

    /**
     * `put`: overwrite the value of a present key in place, or append the pair, count it
     * and double the table when the load factor passes 3/4. The decreases clause shows
     * that the puts inside `_rehash` never rehash again.
     */
    method Put(key: K, value: V)
      requires Valid() && HasRoom()
      modifies this, buckets
      decreases if OverThreshold(size + 1, buckets.Length) then 2 else 0, 0
      ensures Valid() && HasRoom()
      ensures Contents == old(Contents)[key := value]
      ensures size == old(size) + (if key in old(Contents) then 0 else 1)
      ensures key in old(Contents) ==>
                && buckets == old(buckets)
                && forall b :: 0 <= b < buckets.Length && b != BucketIndex(key, buckets.Length) ==> buckets[b] == old(buckets[b])
      ensures key !in old(Contents) && OverThreshold(old(size) + 1, old(buckets.Length)) ==>
                fresh(buckets) && buckets.Length == 2 * old(buckets.Length)
      ensures !(key !in old(Contents) && OverThreshold(old(size) + 1, old(buckets.Length))) ==> buckets == old(buckets)
    {
      var index := BucketIndex(key, buckets.Length);
      var bucket := buckets[index];
      var i := 0;
      while i < |bucket|
        invariant 0 <= i <= |bucket|
        invariant forall j :: 0 <= j < i ==> bucket[j].0 != key
      {
        if bucket[i].0 == key {
          ghost var table, m := buckets[..], Contents;
          SetValueRepresents(table, m, index, i, value);
          var updated := bucket[i := (bucket[i].0, value)];
          buckets[index] := updated;
          Contents := Contents[key := value];
          TotalUpdate(table, index, updated);
          assert buckets[..] == table[index := updated];
          return;
        }
        i := i + 1;
      }
      ghost var table, m := buckets[..], Contents;
      AppendRepresents(table, m, (key, value));
      var extended := bucket + [(key, value)];
      buckets[index] := extended;
      size := size + 1;
      Contents := Contents[key := value];
      TotalUpdate(table, index, extended);
      assert buckets[..] == table[index := extended];
      if OverThreshold(size, buckets.Length) {
        Rehash();
      }
    }

    /** Overwriting the value of a stored pair updates the map at that key only. */
    lemma SetValueRepresents(table: seq<seq<(K, V)>>, m: map<K, V>, index: nat, i: nat, v: V)
      requires Represents(table, m) && index < |table| && i < |table[index]|
      ensures table[index][i].0 in m
      ensures Represents(table[index := table[index][i := (table[index][i].0, v)]],
                         m[table[index][i].0 := v])
    {
      var bucket := table[index];
      var key := bucket[i].0;
      var table' := table[index := bucket[i := (key, v)]];
      assert BucketIndex(key, |table|) == index;
      assert DistinctKeys(bucket);
      FindAt(bucket, i);
      assert MapGet(m, key) == Some(bucket[i].1);
      assert Placed(table') by {
        forall b, j | 0 <= b < |table'| && 0 <= j < |table'[b]|
          ensures BucketIndex(table'[b][j].0, |table'|) == b
        {
          assert table'[b][j].0 == table[b][j].0;
        }
      }
      assert forall b :: 0 <= b < |table'| ==> DistinctKeys(table'[b]) by {
        forall b | 0 <= b < |table'|
          ensures DistinctKeys(table'[b])
        {
          assert DistinctKeys(table[b]);
        }
      }
      forall k
        ensures Find(table'[BucketIndex(k, |table'|)], k) == MapGet(m[key := v], k)
      {
        assert Find(table[BucketIndex(k, |table|)], k) == MapGet(m, k);
        if BucketIndex(k, |table|) == index {
          FindSetValue(bucket, i, v, k);
        }
      }
    }

    /** Appending a pair whose key is not in its bucket adds that key to the map. */
    lemma AppendRepresents(table: seq<seq<(K, V)>>, m: map<K, V>, p: (K, V))
      requires Represents(table, m)
      requires forall j :: 0 <= j < |table[BucketIndex(p.0, |table|)]| ==> table[BucketIndex(p.0, |table|)][j].0 != p.0
      ensures p.0 !in m
      ensures Represents(table[BucketIndex(p.0, |table|) := table[BucketIndex(p.0, |table|)] + [p]], m[p.0 := p.1])
    {
      var index := BucketIndex(p.0, |table|);
      var bucket := table[index];
      var table' := table[index := bucket + [p]];
      FindMissing(bucket, p.0);
      assert MapGet(m, p.0) == None;
      assert Placed(table') by {
        forall b, j | 0 <= b < |table'| && 0 <= j < |table'[b]|
          ensures BucketIndex(table'[b][j].0, |table'|) == b
        {
          if b != index || j < |bucket| {
            assert table'[b][j].0 == table[b][j].0;
          }
        }
      }
      assert forall b :: 0 <= b < |table'| ==> DistinctKeys(table'[b]) by {
        forall b | 0 <= b < |table'|
          ensures DistinctKeys(table'[b])
        {
          assert DistinctKeys(table[b]);
        }
      }
      forall k
        ensures Find(table'[BucketIndex(k, |table'|)], k) == MapGet(m[p.0 := p.1], k)
      {
        assert Find(table[BucketIndex(k, |table|)], k) == MapGet(m, k);
        if BucketIndex(k, |table|) == index {
          FindAppend(bucket, p, k);
        }
      }
    }

    /** Removing a stored pair removes its key from the map. */
    lemma RemoveRepresents(table: seq<seq<(K, V)>>, m: map<K, V>, index: nat, i: nat)
      requires Represents(table, m) && index < |table| && i < |table[index]|
      ensures table[index][i].0 in m
      ensures Represents(table[index := table[index][..i] + table[index][i + 1..]], m - {table[index][i].0})
    {
      var bucket := table[index];
      var key := bucket[i].0;
      var rest := bucket[..i] + bucket[i + 1..];
      var table' := table[index := rest];
      assert BucketIndex(key, |table|) == index;
      assert DistinctKeys(bucket);
      FindAt(bucket, i);
      assert MapGet(m, key) == Some(bucket[i].1);
      assert Placed(table') by {
        forall b, j | 0 <= b < |table'| && 0 <= j < |table'[b]|
          ensures BucketIndex(table'[b][j].0, |table'|) == b
        {
          if b != index || j < i {
            assert table'[b][j].0 == table[b][j].0;
          } else {
            assert table'[b][j].0 == table[b][j + 1].0;
          }
        }
      }
      assert forall b :: 0 <= b < |table'| ==> DistinctKeys(table'[b]) by {
        forall b | 0 <= b < |table'|
          ensures DistinctKeys(table'[b])
        {
          assert DistinctKeys(table[b]);
          if b == index {
            forall p, q | 0 <= p < q < |rest|
              ensures rest[p].0 != rest[q].0
            {
              var p' := if p < i then p else p + 1;
              var q' := if q < i then q else q + 1;
              assert rest[p] == bucket[p'] && rest[q] == bucket[q'];
            }
          }
        }
      }
      forall k
        ensures Find(table'[BucketIndex(k, |table'|)], k) == MapGet(m - {key}, k)
      {
        assert Find(table[BucketIndex(k, |table|)], k) == MapGet(m, k);
        if BucketIndex(k, |table|) == index {
          FindRemoveAt(bucket, i, k);
        }
      }
    }

    /**
     * `c` holds exactly the pairs of `m` whose bucket in a table of `n` buckets comes
     * before `b`, together with those of bucket `b` whose key is in `done`.
     */
    ghost predicate Moved(c: map<K, V>, m: map<K, V>, n: nat, b: nat, done: set<K>)
      requires n >= 1
    {
      && (forall k :: k in c <==> k in m && (BucketIndex(k, n) < b || (BucketIndex(k, n) == b && k in done)))
      && (forall k :: k in c ==> c[k] == m[k])
    }

    /**
     * `_rehash`: a table of twice as many empty buckets, into which every pair of the old
     * buckets is put again, bucket by bucket. The map and the counter come out unchanged.
     */
    method Rehash()
      requires Valid() && 4 * size <= 6 * buckets.Length
      modifies this
      decreases 1, 1
      ensures Valid() && HasRoom()
      ensures fresh(buckets) && buckets.Length == 2 * old(buckets.Length)
      ensures Contents == old(Contents) && size == old(size)
    {
      var oldBuckets := buckets;
      ghost var oldTable := buckets[..];
      ghost var oldContents := Contents;
      ghost var oldLength := buckets.Length;
      assert Represents(oldTable, oldContents);
      var newCapacity := oldBuckets.Length * 2;
      buckets := new seq<(K, V)>[newCapacity](_ => []);
      size := 0;
      Contents := map[];
      EmptyTable(buckets[..]);
      var b := 0;
      while b < oldBuckets.Length
        invariant 0 <= b <= oldLength
        invariant oldBuckets[..] == oldTable
        invariant fresh(buckets) && buckets.Length == newCapacity
        invariant Valid() && HasRoom()
        invariant size == TotalPairs(oldTable[..b])
        invariant Moved(Contents, oldContents, oldLength, b, {})
      {
        RehashBucket(oldBuckets[b], oldTable, oldContents, b);
        b := b + 1;
      }
      WholeSlice(oldTable);
      MovedAll(Contents, oldContents, oldLength);
    }

    /** The inner loop of `_rehash`: put every pair of old bucket `b` again, in order. */
    method RehashBucket(bucket: seq<(K, V)>, ghost oldTable: seq<seq<(K, V)>>, ghost oldContents: map<K, V>, ghost b: nat)
      requires Represents(oldTable, oldContents) && b < |oldTable| && bucket == oldTable[b]
      requires Valid() && buckets.Length == 2 * |oldTable|
      requires size == TotalPairs(oldTable[..b]) && 4 * TotalPairs(oldTable) <= 3 * buckets.Length
      requires Moved(Contents, oldContents, |oldTable|, b, {})
      modifies this, buckets
      decreases 1, 0
      ensures Valid() && HasRoom() && buckets == old(buckets)
      ensures size == TotalPairs(oldTable[..b + 1])
      ensures Moved(Contents, oldContents, |oldTable|, b + 1, {})
    {
      TotalPrefixStep(oldTable, b);
      TotalPrefixBound(oldTable, b + 1);
      var j := 0;
      while j < |bucket|
        invariant 0 <= j <= |bucket|
        invariant Valid() && HasRoom() && buckets == old(buckets)
        invariant size == TotalPairs(oldTable[..b]) + j
        invariant Moved(Contents, oldContents, |oldTable|, b, KeysOf(bucket[..j]))
      {
        var (key, value) := bucket[j];
        RehashedPair(oldTable, oldContents, b, j);
        NotInPrefix(bucket, j);
        MovedExcludes(Contents, oldContents, |oldTable|, b, KeysOf(bucket[..j]), key);
        ghost var before := Contents;
        Put(key, value);
        MovedPut(before, oldContents, |oldTable|, b, KeysOf(bucket[..j]), key);
        KeysOfStep(bucket, j);
        j := j + 1;
      }
      WholeSlice(bucket);
      BucketKeys(oldTable, oldContents, b);
      MovedNext(Contents, oldContents, |oldTable|, b, bucket);
    }

    /** What `_rehash` relies on about the pair it is about to put again. */
    lemma RehashedPair(table: seq<seq<(K, V)>>, m: map<K, V>, b: nat, j: nat)
      requires Represents(table, m) && b < |table| && j < |table[b]|
      ensures BucketIndex(table[b][j].0, |table|) == b
      ensures table[b][j].0 in m && m[table[b][j].0] == table[b][j].1
      ensures DistinctKeys(table[b])
    {
      var bucket := table[b];
      assert BucketIndex(bucket[j].0, |table|) == b;
      FindAt(bucket, j);
      assert MapGet(m, bucket[j].0) == Some(bucket[j].1);
    }

    /** Every key of the map whose bucket is `b` occurs in that bucket. */
    lemma BucketKeys(table: seq<seq<(K, V)>>, m: map<K, V>, b: nat)
      requires Represents(table, m) && b < |table|
      ensures forall k :: k in m && BucketIndex(k, |table|) == b ==> k in KeysOf(table[b])
    {
      forall k | k in m && BucketIndex(k, |table|) == b
        ensures k in KeysOf(table[b])
      {
        assert MapGet(m, k) == Some(m[k]);
        FindInKeys(table[b], k);
      }
    }

    lemma MovedExcludes(c: map<K, V>, m: map<K, V>, n: nat, b: nat, done: set<K>, k: K)
      requires n >= 1 && Moved(c, m, n, b, done)
      requires BucketIndex(k, n) == b && k !in done
      ensures k !in c
    {
    }

    lemma MovedPut(c: map<K, V>, m: map<K, V>, n: nat, b: nat, done: set<K>, k: K)
      requires n >= 1 && Moved(c, m, n, b, done)
      requires k in m && BucketIndex(k, n) == b
      ensures Moved(c[k := m[k]], m, n, b, done + {k})
    {
    }

    lemma MovedNext(c: map<K, V>, m: map<K, V>, n: nat, b: nat, bucket: seq<(K, V)>)
      requires n >= 1 && Moved(c, m, n, b, KeysOf(bucket))
      requires forall k :: k in m && BucketIndex(k, n) == b ==> k in KeysOf(bucket)
      ensures Moved(c, m, n, b + 1, {})
    {
    }

    lemma MovedAll(c: map<K, V>, m: map<K, V>, n: nat)
      requires n >= 1 && Moved(c, m, n, n, {})
      ensures c == m
    {
      assert c.Keys == m.Keys;
    }

    /** `get`: the stored value of the key, or None when it is absent. */
    method Get(key: K) returns (result: Option<V>)
      requires Valid()
      ensures result == MapGet(Contents, key)
    {
      var index := BucketIndex(key, buckets.Length);
      var bucket := buckets[index];
      assert bucket == buckets[..][index];
      var i := 0;
      while i < |bucket|
        invariant 0 <= i <= |bucket|
        invariant Find(bucket[i..], key) == Find(bucket, key)
      {
        if bucket[i].0 == key {
          return Some(bucket[i].1);
        }
        assert bucket[i..][1..] == bucket[i + 1..];
        i := i + 1;
      }
      return None;
    }

    /** `remove`: pop the pair of the key and count it off; an absent key changes nothing. */
    method Remove(key: K)
      requires Valid() && HasRoom()
      modifies this, buckets
      ensures Valid() && HasRoom()
      ensures Contents == old(Contents) - {key}
      ensures size == old(size) - (if key in old(Contents) then 1 else 0)
      ensures buckets == old(buckets)
      ensures forall b :: 0 <= b < buckets.Length && b != BucketIndex(key, buckets.Length) ==> buckets[b] == old(buckets[b])
      ensures key !in old(Contents) ==> buckets[..] == old(buckets[..])
    {
      var index := BucketIndex(key, buckets.Length);
      var bucket := buckets[index];
      var i := 0;
      while i < |bucket|
        invariant 0 <= i <= |bucket|
        invariant forall j :: 0 <= j < i ==> bucket[j].0 != key
      {
        if bucket[i].0 == key {
          ghost var table, m := buckets[..], Contents;
          RemoveRepresents(table, m, index, i);
          var rest := bucket[..i] + bucket[i + 1..];
          buckets[index] := rest;
          size := size - 1;
          Contents := Contents - {key};
          TotalUpdate(table, index, rest);
          assert buckets[..] == table[index := rest];
          assert m.Keys == Contents.Keys + {key};
          return;
        }
        i := i + 1;
      }
      assert bucket == buckets[..][index];
      FindMissing(bucket, key);
      assert MapGet(Contents, key) == None;
      assert Contents - {key} == Contents;
    }

    /** `size`: the number of stored pairs, which is the number of keys of the map. */
    method Size() returns (n: nat)
      requires Valid()
      ensures n == |Contents| && n == TotalPairs(buckets[..])
    {
      n := size;
    }
  }
}
