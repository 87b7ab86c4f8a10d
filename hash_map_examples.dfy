/**
 * Scenarios that exercise the hash map on string keys, one per case of the map's test
 * suite. The hash of a string is taken to be its first character code plus its
 * length; every claim below holds for any other hash function as well.
 */
module HashMapExamples {
  import opened HashMaps

  function StringHash(s: string): int {
    if s == [] then 0 else s[0] as int + |s|
  }

  /** The filled fixture: a default map holding apple, banana and orange. */
  method FilledMap() returns (m: MyHashMap<string, int>)
    ensures fresh(m) && fresh(m.buckets)
    ensures m.Valid() && m.HasRoom()
    ensures m.Contents == map["apple" := 1, "banana" := 2, "orange" := 3] && m.size == 3
    ensures m.buckets.Length == 8
  {
    m := new MyHashMap<string, int>(StringHash);
    m.Put("apple", 1);
    m.Put("banana", 2);
    m.Put("orange", 3);
  }

  /** Each stored key gives its value and a key never put gives None. */
  method PutAndGet() returns (apple: Option<int>, banana: Option<int>, orange: Option<int>, kiwi: Option<int>)
    ensures apple == Some(1) && banana == Some(2) && orange == Some(3)
    ensures kiwi == None
  {
    var m := FilledMap();
    apple := m.Get("apple");
    banana := m.Get("banana");
    orange := m.Get("orange");
    kiwi := m.Get("kiwi");
  }

  /** Putting a present key again replaces its value. */
  method Overwrite() returns (banana: Option<int>, count: nat)
    ensures banana == Some(42) && count == 3
  {
    var m := FilledMap();
    m.Put("banana", 42);
    banana := m.Get("banana");
    count := m.Size();
  }

  /** Removing a present key drops it and one from the count; an absent key changes nothing. */
  method RemoveScenario() returns (apple: Option<int>, afterFirst: nat, afterSecond: nat)
    ensures apple == None && afterFirst == 2 && afterSecond == 2
  {
    var m := FilledMap();
    m.Remove("apple");
    assert "apple" !in m.Contents;
    apple := m.Get("apple");
    afterFirst := m.Size();
    assert "kiwi" !in m.Contents;
    m.Remove("kiwi");
    afterSecond := m.Size();
  }

  /** A new map is empty, one put counts one, and a removal from the filled map leaves two. */
  method SizeScenario() returns (empty: nat, one: nat, filled: nat)
    ensures empty == 0 && one == 1 && filled == 2
  {
    var e := new MyHashMap<string, int>(StringHash);
    empty := e.Size();
    e.Put("one", 1);
    one := e.Size();
    var m := FilledMap();
    m.Remove("banana");
    filled := m.Size();
  }

  /** A second put of the same key overwrites the value and leaves the count at one. */
  method UpdateValue() returns (first: Option<int>, second: Option<int>, count: nat)
    ensures first == Some(10) && second == Some(999) && count == 1
  {
    var m := new MyHashMap<string, int>(StringHash);
    m.Put("x", 10);
    first := m.Get("x");
    m.Put("x", 999);
    second := m.Get("x");
    count := m.Size();
  }

  /**
   * The rehash fixture: two buckets, then "a" (load 1/2) and "b" (load 2/2 > 3/4,
   * which doubles the table to four buckets).
   */
  method TwoBucketsGrown() returns (m: MyHashMap<string, int>, capacities: seq<nat>)
    ensures fresh(m) && fresh(m.buckets)
    ensures m.Valid() && m.HasRoom()
    ensures m.Contents == map["a" := 1, "b" := 2] && m.size == 2
    ensures capacities == [2, 2, 4] && m.buckets.Length == 4
  {
    m := new MyHashMap<string, int>(StringHash, 2);
    capacities := [m.buckets.Length];
    m.Put("a", 1);
    capacities := capacities + [m.buckets.Length];
    m.Put("b", 2);
    capacities := capacities + [m.buckets.Length];
  }

  /** After the growth both pairs are still found and the count is two. */
  method RehashKeepsPairs() returns (count: nat, a: Option<int>, b: Option<int>)
    ensures count == 2 && a == Some(1) && b == Some(2)
  {
    var m, capacities := TwoBucketsGrown();
    count := m.Size();
    a := m.Get("a");
    b := m.Get("b");
  }

  /** A third put (load 3/4, not above the threshold) keeps four buckets; a removal works after. */
  method RehashThenMore() returns (capacity: nat, afterPut: nat, c: Option<int>, afterRemove: nat, b: Option<int>)
    ensures capacity == 4 && afterPut == 3 && c == Some(3)
    ensures afterRemove == 2 && b == None
  {
    var m, capacities := TwoBucketsGrown();
    assert "c" !in m.Contents;
    m.Put("c", 3);
    capacity := m.buckets.Length;
    afterPut := m.Size();
    c := m.Get("c");
    m.Remove("b");
    assert "b" !in m.Contents;
    afterRemove := m.Size();
    b := m.Get("b");
  }
}
