/** The bucket vector of a separately chained hash table, as a value: a
    sequence of buckets, each a sequence of (key, value) entries in insertion
    order. The class in module Table holds such a value in an array; the
    functions and lemmas here say what its operations do to it. */
module Buckets {
  import opened Fnv

  /** A C++ std::string: a sequence of bytes. */
  type Bytes = seq<bv8>

  datatype Entry = Entry(key: Bytes, value: Bytes)

  type Bucket = seq<Entry>

  datatype Option<T> = None | Some(value: T)

  /** hash_function: the FNV-1a hash of the key reduced modulo the table size. */
  function Slot(key: Bytes, n: int): (r: int)
    requires n > 0
    ensures 0 <= r < n
  {
    Fnv1a(key) as int % n
  }

  /** Every entry of bucket i sits in slot i for table size n. */
  predicate PlacedFor(bs: seq<Bucket>, n: int)
    requires n > 0
  {
    forall i, j :: 0 <= i < |bs| && 0 <= j < |bs[i]| ==> Slot(bs[i][j].key, n) == i
  }

  /** The placement invariant of a table: entries sit in the slot their key hashes to. */
  predicate WellPlaced(bs: seq<Bucket>) {
    |bs| > 0 && PlacedFor(bs, |bs|)
  }

  /** All entries, bucket by bucket and in list order within a bucket (the
      order in which rehash and display visit them). */
  function Flatten(bs: seq<Bucket>): seq<Entry> {
    if bs == [] then [] else Flatten(bs[..|bs| - 1]) + bs[|bs| - 1]
  }

  // ---------------------------------------------------------------------------
  // First match in a bucket

  /** The position of the first entry with key k, or |es| when there is none. */
  function IndexOfKey(es: seq<Entry>, k: Bytes): (i: nat)
    ensures i <= |es|
    ensures i < |es| ==> es[i].key == k
    ensures forall j :: 0 <= j < i ==> es[j].key != k
  {
    if es == [] then 0
    else if es[0].key == k then 0
    else 1 + IndexOfKey(es[1..], k)
  }

  /** The value of the first entry with key k. */
  function Lookup(es: seq<Entry>, k: Bytes): Option<Bytes> {
    var i := IndexOfKey(es, k);
    if i < |es| then Some(es[i].value) else None
  }

  /** What search_item reports for key k: the first match in k's bucket. */
  function View(bs: seq<Bucket>, k: Bytes): Option<Bytes>
    requires |bs| > 0
  {
    Lookup(bs[Slot(k, |bs|)], k)
  }

  /** Lookup finds a value exactly when some entry has the key, and the entry
      it reports is in the sequence. */
  lemma LookupFinds(es: seq<Entry>, k: Bytes)
    ensures Lookup(es, k).Some? <==> exists j :: 0 <= j < |es| && es[j].key == k
    ensures Lookup(es, k).Some? ==> Entry(k, Lookup(es, k).value) in es
  {
    var i := IndexOfKey(es, k);
    if i < |es| {
      assert es[i] == Entry(k, Lookup(es, k).value);
    }
  }

  /** Looking up in a concatenation looks in the first part, then in the second. */
  lemma LookupConcat(a: seq<Entry>, b: seq<Entry>, k: Bytes)
    ensures Lookup(a + b, k) == if Lookup(a, k).Some? then Lookup(a, k) else Lookup(b, k)
  {
    var ia, ib, iab := IndexOfKey(a, k), IndexOfKey(b, k), IndexOfKey(a + b, k);
    if ia < |a| {
      assert (a + b)[ia] == a[ia];
      assert iab == ia;
    } else {
      assert forall j :: 0 <= j < |a| ==> (a + b)[j] == a[j];
      if ib < |b| {
        assert (a + b)[|a| + ib] == b[ib];
      }
      assert iab == |a| + ib;
    }
  }

  // ---------------------------------------------------------------------------
  // Flatten

  lemma {:induction false} FlattenConcat(a: seq<Bucket>, b: seq<Bucket>)
    ensures Flatten(a + b) == Flatten(a) + Flatten(b)
    decreases |b|
  {
    if b == [] {
      assert a + b == a;
    } else {
      var b' := b[..|b| - 1];
      assert (a + b)[..|a + b| - 1] == a + b';
      FlattenConcat(a, b');
    }
  }

  /** Replacing one bucket replaces its entries and leaves all others. */
  lemma FlattenReplace(bs: seq<Bucket>, s: int, t: Bucket)
    requires 0 <= s < |bs|
    ensures Flatten(bs) == Flatten(bs[..s]) + bs[s] + Flatten(bs[s + 1..])
    ensures Flatten(bs[s := t]) == Flatten(bs[..s]) + t + Flatten(bs[s + 1..])
  {
    assert bs == bs[..s] + [bs[s]] + bs[s + 1..];
    assert bs[s := t] == bs[..s] + [t] + bs[s + 1..];
    assert Flatten([bs[s]]) == bs[s] by { assert [bs[s]][..0] == []; }
    assert Flatten([t]) == t by { assert [t][..0] == []; }
    FlattenConcat(bs[..s] + [bs[s]], bs[s + 1..]);
    FlattenConcat(bs[..s], [bs[s]]);
    FlattenConcat(bs[..s] + [t], bs[s + 1..]);
    FlattenConcat(bs[..s], [t]);
  }

  /** A bucket vector whose buckets are all empty holds no entries. */
  lemma {:induction false} FlattenEmpty(bs: seq<Bucket>)
    requires forall i :: 0 <= i < |bs| ==> bs[i] == []
    ensures Flatten(bs) == []
  {
    if bs != [] {
      FlattenEmpty(bs[..|bs| - 1]);
    }
  }

  /** With the placement invariant, the first entry with key k in the whole
      table is the first one in k's bucket: search_item loses nothing by
      looking in one bucket only. */
  lemma {:induction false} LookupFlatten(bs: seq<Bucket>, n: int, k: Bytes)
    requires n > 0 && PlacedFor(bs, n)
    ensures Lookup(Flatten(bs), k) == if Slot(k, n) < |bs| then Lookup(bs[Slot(k, n)], k) else None
  {
    if bs != [] {
      var init, last := bs[..|bs| - 1], bs[|bs| - 1];
      assert PlacedFor(init, n);
      LookupFlatten(init, n, k);
      LookupConcat(Flatten(init), last, k);
    }
  }

  lemma ViewIsLookup(bs: seq<Bucket>, k: Bytes)
    requires WellPlaced(bs)
    ensures View(bs, k) == Lookup(Flatten(bs), k)
  {
    LookupFlatten(bs, |bs|, k);
  }

  // ---------------------------------------------------------------------------
  // Appending to a bucket (the emplace_back of insert_item and of rehash)

  /** Append e at the end of the bucket its key hashes to. */
  function Append(bs: seq<Bucket>, e: Entry): seq<Bucket>
    requires |bs| > 0
  {
    var s := Slot(e.key, |bs|);
    bs[s := bs[s] + [e]]
  }

  /** Replacing bucket s by a bucket whose keys all hash to s keeps every
      entry in its slot. */
  lemma ReplacePlaced(bs: seq<Bucket>, s: int, t: Bucket)
    requires WellPlaced(bs) && 0 <= s < |bs|
    requires forall j :: 0 <= j < |t| ==> Slot(t[j].key, |bs|) == s
    ensures WellPlaced(bs[s := t])
  {
    var bs': seq<Bucket> := bs[s := t];
    forall i: int, j: int | 0 <= i < |bs'| && 0 <= j < |bs'[i]|
      ensures Slot(bs'[i][j].key, |bs'|) == i
    {
      if i != s {
        assert bs'[i] == bs[i];
      }
    }
  }

  /** Appending keeps every entry in its slot. */
  lemma AppendPlaced(bs: seq<Bucket>, e: Entry)
    requires WellPlaced(bs)
    ensures WellPlaced(Append(bs, e))
  {
    var s := Slot(e.key, |bs|);
    var t := bs[s] + [e];
    forall j | 0 <= j < |t|
      ensures Slot(t[j].key, |bs|) == s
    {
      if j < |bs[s]| {
        assert t[j] == bs[s][j];
      }
    }
    ReplacePlaced(bs, s, t);
  }

  /** Appending adds exactly e to the entries of the table. */
  lemma AppendEntries(bs: seq<Bucket>, e: Entry)
    requires |bs| > 0
    ensures multiset(Flatten(Append(bs, e))) == multiset(Flatten(bs)) + multiset{e}
    ensures |Flatten(Append(bs, e))| == |Flatten(bs)| + 1
  {
    var s := Slot(e.key, |bs|);
    FlattenReplace(bs, s, bs[s] + [e]);
    assert multiset(Flatten(Append(bs, e))) == multiset(Flatten(bs)) + multiset{e};
  }

  /** After appending e, search reports e's value for its key when that key was
      absent, and reports what it did before in every other case. */
  lemma AppendView(bs: seq<Bucket>, e: Entry, k: Bytes)
    requires |bs| > 0
    ensures View(Append(bs, e), k) == if k == e.key && View(bs, k).None? then Some(e.value) else View(bs, k)
  {
    var s := Slot(e.key, |bs|);
    if Slot(k, |bs|) == s {
      LookupConcat(bs[s], [e], k);
    }
  }

  // ---------------------------------------------------------------------------
  // Removing the first match (delete_item)

  /** Remove the first entry with key k from k's bucket, if there is one. */
  function RemoveFirst(bs: seq<Bucket>, k: Bytes): seq<Bucket>
    requires |bs| > 0
  {
    var s := Slot(k, |bs|);
    var i := IndexOfKey(bs[s], k);
    if i < |bs[s]| then bs[s := bs[s][..i] + bs[s][i + 1..]] else bs
  }

  /** Removing keeps every entry in its slot. */
  lemma RemoveFirstPlaced(bs: seq<Bucket>, k: Bytes)
    requires WellPlaced(bs)
    ensures WellPlaced(RemoveFirst(bs, k))
  {
    var s := Slot(k, |bs|);
    var b := bs[s];
    var i := IndexOfKey(b, k);
    if i < |b| {
      var t := b[..i] + b[i + 1..];
      forall j | 0 <= j < |t|
        ensures Slot(t[j].key, |bs|) == s
      {
        assert t[j] == if j < i then b[j] else b[j + 1];
      }
      ReplacePlaced(bs, s, t);
    }
  }

  /** When search would find k, exactly the entry it would report is removed;
      otherwise the table is unchanged. */
  lemma RemoveFirstEntries(bs: seq<Bucket>, k: Bytes)
    requires |bs| > 0
    ensures View(bs, k).Some? ==>
      multiset(Flatten(RemoveFirst(bs, k))) + multiset{Entry(k, View(bs, k).value)} == multiset(Flatten(bs)) &&
      |Flatten(RemoveFirst(bs, k))| + 1 == |Flatten(bs)|
    ensures View(bs, k).None? ==> RemoveFirst(bs, k) == bs
  {
    var s := Slot(k, |bs|);
    var b := bs[s];
    var i := IndexOfKey(b, k);
    if i < |b| {
      var t := b[..i] + b[i + 1..];
      assert b == b[..i] + [b[i]] + b[i + 1..];
      assert b[i] == Entry(k, View(bs, k).value);
      FlattenReplace(bs, s, t);
      assert multiset(b) == multiset(t) + multiset{b[i]};
    }
  }

  /** Removing the first match for k does not change search for any other key. */
  lemma RemoveFirstView(bs: seq<Bucket>, k: Bytes, k': Bytes)
    requires |bs| > 0 && k' != k
    ensures View(RemoveFirst(bs, k), k') == View(bs, k')
  {
    var s := Slot(k, |bs|);
    var b := bs[s];
    var i := IndexOfKey(b, k);
    if i < |b| && Slot(k', |bs|) == s {
      assert b == b[..i] + [b[i]] + b[i + 1..];
      LookupConcat(b[..i], [b[i]], k');
      LookupConcat(b[..i] + [b[i]], b[i + 1..], k');
      LookupConcat(b[..i], b[i + 1..], k');
    }
  }

  // ---------------------------------------------------------------------------
  // Redistribution (rehash)

  /** The entries of es whose key hashes to slot b for size n, in their order in es. */
  function Select(es: seq<Entry>, n: int, b: int): (r: seq<Entry>)
    requires n > 0
    ensures forall j :: 0 <= j < |r| ==> Slot(r[j].key, n) == b
    ensures multiset(r) <= multiset(es)
  {
    if es == [] then []
    else
      var last := es[|es| - 1];
      assert es == es[..|es| - 1] + [last];
      Select(es[..|es| - 1], n, b) + (if Slot(last.key, n) == b then [last] else [])
  }

  /** The bucket vector rehash builds: n buckets, bucket b holding the entries
      that hash to b, in traversal order of the old table. */
  function Redistribute(es: seq<Entry>, n: int): (bs: seq<Bucket>)
    requires n > 0
    ensures |bs| == n && WellPlaced(bs)
  {
    seq(n, b => Select(es, n, b))
  }

  /** rehash's loop: moving one more entry appends it to its new bucket. */
  lemma RedistributeSnoc(es: seq<Entry>, e: Entry, n: int)
    requires n > 0
    ensures Redistribute(es + [e], n) == Append(Redistribute(es, n), e)
  {
    assert (es + [e])[..|es + [e]| - 1] == es;
    var s := Slot(e.key, n);
    forall b | 0 <= b < n
      ensures Redistribute(es + [e], n)[b] == Append(Redistribute(es, n), e)[b]
    {
      assert Redistribute(es + [e], n)[b] == Select(es + [e], n, b);
    }
  }

  /** The same step, stated for the nested loop over buckets and their entries. */
  lemma RedistributeStep(done: seq<Entry>, bucket: Bucket, j: int, n: int)
    requires 0 <= j < |bucket| && n > 0
    ensures Redistribute(done + bucket[..j + 1], n) == Append(Redistribute(done + bucket[..j], n), bucket[j])
  {
    assert done + bucket[..j + 1] == (done + bucket[..j]) + [bucket[j]];
    RedistributeSnoc(done + bucket[..j], bucket[j], n);
  }

  lemma RedistributeEmpty(n: int)
    requires n > 0
    ensures Redistribute([], n) == seq(n, _ => [])
  {
  }

  /** Rehashing keeps every entry exactly once: the new table holds the same
      multiset of entries as the old one. */
  lemma {:induction false} RedistributeKeepsEntries(es: seq<Entry>, n: int)
    requires n > 0
    ensures multiset(Flatten(Redistribute(es, n))) == multiset(es)
  {
    if es == [] {
      FlattenEmpty(Redistribute(es, n));
    } else {
      var init, e := es[..|es| - 1], es[|es| - 1];
      assert es == init + [e];
      RedistributeKeepsEntries(init, n);
      RedistributeSnoc(init, e, n);
      AppendEntries(Redistribute(init, n), e);
    }
  }

  /** Rehashing does not change what search reports for any key: entries with
      the same key land in the same new bucket, in their old order. */
  lemma {:induction false} RedistributeLookup(es: seq<Entry>, n: int, k: Bytes)
    requires n > 0
    ensures View(Redistribute(es, n), k) == Lookup(es, k)
  {
    if es != [] {
      var init, e := es[..|es| - 1], es[|es| - 1];
      var s := Slot(k, n);
      assert es == init + [e];
      RedistributeLookup(init, n, k);
      LookupConcat(init, [e], k);
      LookupConcat(Select(init, n, s), if Slot(e.key, n) == s then [e] else [], k);
    }
  }

  lemma RehashView(bs: seq<Bucket>, n: int, k: Bytes)
    requires WellPlaced(bs) && n > 0
    ensures View(Redistribute(Flatten(bs), n), k) == View(bs, k)
  {
    RedistributeLookup(Flatten(bs), n, k);
    ViewIsLookup(bs, k);
  }

  // ---------------------------------------------------------------------------
  // Duplicate keys

  /** Inserting a key twice (absent before) and deleting it once leaves the
      second value visible: delete_item removes only the first match. */
  lemma DeleteRemovesOneDuplicate(bs: seq<Bucket>, k: Bytes, v1: Bytes, v2: Bytes)
    requires WellPlaced(bs) && View(bs, k).None?
    ensures View(RemoveFirst(Append(Append(bs, Entry(k, v1)), Entry(k, v2)), k), k) == Some(v2)
  {
    var s := Slot(k, |bs|);
    var b := bs[s];
    var b2 := b + [Entry(k, v1)] + [Entry(k, v2)];
    assert Append(Append(bs, Entry(k, v1)), Entry(k, v2))[s] == b2;
    LookupConcat(b, [Entry(k, v1)] + [Entry(k, v2)], k);
    assert IndexOfKey(b2, k) == |b| by {
      assert b2[|b|] == Entry(k, v1);
      assert forall j :: 0 <= j < |b| ==> b2[j] == b[j];
    }
    assert b2[..|b|] + b2[|b| + 1..] == b + [Entry(k, v2)];
    LookupConcat(b, [Entry(k, v2)], k);
  }
}
