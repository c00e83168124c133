/** The hash table object: a vector of buckets (separate chaining), its size
    and the number of entries, updated in place by insert, delete and rehash. */
module Table {
  import opened Primes
  import opened Fnv
  import opened Buckets

  class HashTable {
    var tableSize: int
    var buckets: array<Bucket>
    var numElements: int

    /** The representation invariant: the size is prime and is the number of
        buckets, every entry sits in the bucket its key hashes to, and the
        count is the number of entries. */
    ghost predicate Valid()
      reads this, buckets
    {
      && tableSize == buckets.Length
      && Prime(tableSize)
      && WellPlaced(buckets[..])
      && numElements == |Flatten(buckets[..])|
    }

    /** All entries, in bucket order and then list order. */
    ghost function Entries(): seq<Entry>
      reads this, buckets
    {
      Flatten(buckets[..])
    }

    /** What search_item reports for key k. */
    ghost function Find(k: Bytes): Option<Bytes>
      reads this, buckets
      requires Valid()
    {
      View(buckets[..], k)
    }

    /** The size is rounded up to the least prime at or above it; all buckets start empty. */
    constructor (size: int)
      ensures Valid() && fresh(buckets)
      ensures IsNextPrime(size, tableSize)
      ensures forall i :: 0 <= i < tableSize ==> buckets[i] == []
      ensures numElements == 0 && Entries() == []
    {
      var p := NextPrime(size);
      tableSize := p;
      buckets := new Bucket[p](_ => []);
      numElements := 0;
      new;
      FlattenEmpty(buckets[..]);
    }

    /** hash_function: FNV-1a over the key's bytes, reduced modulo the table size. */
    method HashFunction(key: Bytes) returns (index: int)
      requires tableSize > 0
      ensures index == Slot(key, tableSize)
    {
      var hash := OffsetBasis;
      for i := 0 to |key|
        invariant hash == Fnv1a(key[..i])
      {
        Fnv1aAppend(key[..i], key[i]);
        assert key[..i + 1] == key[..i] + [key[i]];
        hash := Mix(hash, key[i]);
      }
      assert key[..|key|] == key;
      index := hash as int % tableSize;
    }

    /** rehash: grow to next_prime(2 * size) and move every entry, in old
        bucket order and then list order, to the end of its new bucket. */
    method Rehash()
      requires Valid()
      modifies this
      ensures Valid() && fresh(buckets)
      ensures IsNextPrime(2 * old(tableSize), tableSize) && tableSize > old(tableSize)
      ensures buckets[..] == Redistribute(old(Entries()), tableSize)
      ensures numElements == old(numElements)
      ensures multiset(Entries()) == multiset(old(Entries()))
      ensures forall k :: Find(k) == old(Find(k))
    {
      var oldSize := tableSize;
      var oldTable := buckets;
      ghost var es := Flatten(oldTable[..]);
      var newSize := NextPrime(2 * tableSize);
      tableSize := newSize;
      var newTable := new Bucket[newSize](_ => []);
      RedistributeEmpty(newSize);
      for i := 0 to oldSize
        modifies newTable
        invariant newTable[..] == Redistribute(Flatten(oldTable[..i]), newSize)
      {
        var bucket := oldTable[i];
        ghost var done := Flatten(oldTable[..i]);
        assert done + bucket[..0] == done;
        for j := 0 to |bucket|
          modifies newTable
          invariant newTable[..] == Redistribute(done + bucket[..j], newSize)
        {
          var kv := bucket[j];
          var newIndex := HashFunction(kv.key);
          ghost var before := newTable[..];
          newTable[newIndex] := newTable[newIndex] + [kv];
          assert newTable[..] == Append(before, kv);
          RedistributeStep(done, bucket, j, newSize);
        }
        assert oldTable[..i + 1][..i] == oldTable[..i];
        assert bucket[..|bucket|] == bucket;
      }
      assert oldTable[..oldSize] == oldTable[..];
      buckets := newTable;
      RedistributeKeepsEntries(es, newSize);
      forall k
        ensures View(buckets[..], k) == old(View(buckets[..], k))
      {
        RehashView(old(buckets[..]), newSize, k);
      }
    }

    /** insert_item: rehash first when the load exceeds 70%, then append the
        entry to its bucket. Duplicate keys are not merged. */
    method InsertItem(key: Bytes, value: Bytes)
      requires Valid()
      modifies this, buckets
      ensures Valid()
      ensures 10 * old(numElements) > 7 * old(tableSize) ==>
                fresh(buckets) && IsNextPrime(2 * old(tableSize), tableSize) &&
                buckets[..] == Append(Redistribute(old(Entries()), tableSize), Entry(key, value))
      ensures 10 * old(numElements) <= 7 * old(tableSize) ==>
                buckets == old(buckets) && tableSize == old(tableSize) && buckets[..] == Append(old(buckets[..]), Entry(key, value))
      ensures numElements == old(numElements) + 1
      ensures multiset(Entries()) == multiset(old(Entries())) + multiset{Entry(key, value)}
      ensures forall k :: Find(k) == if k == key && old(Find(k)).None? then Some(value) else old(Find(k))
    {
      ghost var before := buckets[..];
      if 10 * numElements > 7 * tableSize {
        Rehash();
      }
      ghost var mid := buckets[..];
      var index := HashFunction(key);
      buckets[index] := buckets[index] + [Entry(key, value)];
      numElements := numElements + 1;
      assert buckets[..] == Append(mid, Entry(key, value));
      AppendPlaced(mid, Entry(key, value));
      AppendEntries(mid, Entry(key, value));
      forall k
        ensures View(buckets[..], k) == if k == key && View(mid, k).None? then Some(value) else View(mid, k)
      {
        AppendView(mid, Entry(key, value), k);
      }
    }

    /** delete_item: remove the first entry with the key from its bucket.
        Reports whether one was found. */
    method DeleteItem(key: Bytes) returns (found: bool)
      requires Valid()
      modifies buckets, this`numElements
      ensures Valid() && buckets == old(buckets) && tableSize == old(tableSize)
      ensures found == old(Find(key)).Some?
      ensures buckets[..] == RemoveFirst(old(buckets[..]), key)
      ensures numElements == if found then old(numElements) - 1 else old(numElements)
      ensures found ==> multiset(Entries()) + multiset{Entry(key, old(Find(key)).value)} == multiset(old(Entries()))
      ensures !found ==> Entries() == old(Entries())
      ensures forall k :: k != key ==> Find(k) == old(Find(k))
    {
      ghost var before := buckets[..];
      RemoveFirstPlaced(before, key);
      RemoveFirstEntries(before, key);
      forall k | k != key
        ensures View(RemoveFirst(before, key), k) == View(before, k)
      {
        RemoveFirstView(before, key, k);
      }
      var index := HashFunction(key);
      var bucket := buckets[index];
      var j := 0;
      while j < |bucket|
        invariant 0 <= j <= |bucket|
        invariant forall m :: 0 <= m < j ==> bucket[m].key != key
      {
        if bucket[j].key == key {
          buckets[index] := bucket[..j] + bucket[j + 1..];
          numElements := numElements - 1;
          assert IndexOfKey(bucket, key) == j;
          assert buckets[..] == RemoveFirst(before, key);
          return true;
        }
        j := j + 1;
      }
      assert IndexOfKey(bucket, key) == |bucket|;
      return false;
    }

    /** search_item: the value of the first entry with the key in its bucket,
        which is also the first entry with that key in the whole table. */
    method SearchItem(key: Bytes) returns (r: Option<Bytes>)
      requires Valid()
      ensures r == Find(key)
      ensures r == Lookup(Entries(), key)
      ensures r.Some? <==> exists e :: e in Entries() && e.key == key
    {
      ViewIsLookup(buckets[..], key);
      LookupFinds(Entries(), key);
      var index := HashFunction(key);
      var bucket := buckets[index];
      var j := 0;
      while j < |bucket|
        invariant 0 <= j <= |bucket|
        invariant forall m :: 0 <= m < j ==> bucket[m].key != key
      {
        if bucket[j].key == key {
          assert IndexOfKey(bucket, key) == j;
          return Some(bucket[j].value);
        }
        j := j + 1;
      }
      assert IndexOfKey(bucket, key) == |bucket|;
      return None;
    }
  }

  /** The capacity-10 scenario: 11 buckets; eight inserts fit, the ninth finds
      8 > 0.7 * 11 and rehashes to 23 buckets. Search and delete on the empty
      table report not found and change nothing. */
  method CapacityScenario()
  {
    ScenarioSizes();
    var t := new HashTable(10);
    NextPrimeUnique(10, 11, t.tableSize);
    assert t.tableSize == 11;

    var r := t.SearchItem([0x6b]);
    assert r == None;
    var found := t.DeleteItem([0x6b]);
    assert !found && t.numElements == 0;

    var b := t.buckets;
    for i := 0 to 8
      invariant t.Valid() && t.buckets == b && t.tableSize == 11 && t.numElements == i
    {
      t.InsertItem([i as bv8], [0x76]);
    }
    t.InsertItem([8], [0x76]);
    NextPrimeUnique(22, 23, t.tableSize);
    assert t.tableSize == 23 && t.numElements == 9;
  }
}
