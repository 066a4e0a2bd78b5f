/**
 * The unique-key hash set: an element list plus a bucket table of iterators
 * into it.
 *
 * The element list is the sequence `data` (an iterator is a position, and
 * `|data|` is `end()`); the bucket table `buckets` holds positions. The
 * container's hash and equality functions are fields, swapped with the
 * table they belong to.
 */
module HashSets {
  import opened Options
  import opened Ordering
  import opened HashBuckets

  class HashSet<K(!new)> {
    var data: seq<K>
    var buckets: seq<seq<nat>>
    var hash: K -> nat
    var eq: (K, K) -> bool
    var maxLoadFactor: nat

    /** The table indexes every element of the list, and the load factor bound is positive. */
    ghost predicate Valid()
      reads this
    {
      maxLoadFactor > 0 && Indexes(hash, data, buckets, |data|)
    }

    /** An empty set with `bucketCount` empty buckets. */
    constructor (hash: K -> nat, eq: (K, K) -> bool, bucketCount: nat, maxLoadFactor: nat)
      requires bucketCount > 0 && maxLoadFactor > 0
      ensures Valid()
      ensures data == [] && |buckets| == bucketCount && forall b :: 0 <= b < |buckets| ==> buckets[b] == []
      ensures this.hash == hash && this.eq == eq && this.maxLoadFactor == maxLoadFactor
    {
      this.data := [];
      this.buckets := seq(bucketCount, _ => []);
      this.hash := hash;
      this.eq := eq;
      this.maxLoadFactor := maxLoadFactor;
    }

    /** The number of elements the table holds before it must grow. */
    function Capacity(): nat
      reads this`buckets, this`maxLoadFactor
    {
      |buckets| * maxLoadFactor
    }

    /** `bucket(key)`: the bucket that `find` scans for `key`. */
    function Bucket(key: K): (b: nat)
      reads this
      requires |buckets| > 0
      ensures b < |buckets|
    {
      Index(hash, key, |buckets|)
    }

    /**
     * `bucket_size(n)`: the number of elements in bucket `n`, which is the
     * number of elements whose hash falls into it; no bucket `n` is an error.
     */
    function BucketSize(n: nat): (r: Option<nat>)
      reads this
      requires Valid()
      ensures r.Some? <==> n < |buckets|
      ensures r.Some? ==> r.value == |HashingTo(hash, data, |data|, |buckets|, n)|
    {
      if n < |buckets| then
        BucketCount(hash, data, buckets, |data|, n);
        Some(|buckets[n]|)
      else None
    }

    /**
     * `find(key)`: scans the bucket of `key` in order and returns the first
     * iterator whose element equals `key`, or `end()`.
     */
    method Find(key: K) returns (it: nat)
      requires |buckets| > 0 && InRange(data, buckets)
      ensures it == Search(hash, eq, data, buckets, key)
    {
      var bucket := buckets[Index(hash, key, |buckets|)];
      for i := 0 to |bucket|
        invariant forall j :: 0 <= j < i ==> !eq(data[bucket[j]], key)
      {
        if eq(data[bucket[i]], key) {
          return bucket[i];
        }
      }
      return |data|;
    }

    /** `has(key)`: `find(key)` is not `end()`. */
    method Has(key: K) returns (present: bool)
      requires |buckets| > 0 && InRange(data, buckets)
      ensures present <==> Search(hash, eq, data, buckets, key) < |data|
    {
      var it := Find(key);
      present := it != |data|;
    }

    /** `_Handle_insert(first, last)`: registers the iterators `first` .. `last - 1` in the table, one per step. */
    method HandleInsert(first: nat, last: nat)
      requires |buckets| > 0 && first <= last <= |data|
      modifies this`buckets
      ensures buckets == RegisterRange(hash, data, old(buckets), first, last)
    {
      var it := first;
      while it != last
        invariant first <= it <= last
        invariant buckets == RegisterRange(hash, data, old(buckets), first, it)
      {
        buckets := Register(hash, data, buckets, it);
        it := it + 1;
      }
    }

    /** `_Handle_erase(first, last)`: unregisters the iterators `first` .. `last - 1` from the table, one per step. */
    method HandleErase(first: nat, last: nat)
      requires |buckets| > 0 && first <= last <= |data|
      modifies this`buckets
      ensures buckets == UnregisterRange(hash, data, old(buckets), first, last)
    {
      var it := first;
      while it != last
        invariant first <= it <= last
        invariant buckets == UnregisterRange(hash, data, old(buckets), first, it)
      {
        buckets := Unregister(hash, data, buckets, it);
        it := it + 1;
      }
    }

    /** The bucket table's own `rehash`: rebuilds the table with `n` buckets (at least one). */
    method RebuildTable(n: nat)
      requires |buckets| > 0 && InRange(data, buckets)
      modifies this`buckets
      ensures buckets == Rebucket(hash, data, old(buckets), TableSize(n))
      ensures old(Valid()) ==> Valid()
    {
      if Valid() {
        RebucketIndexes(hash, data, buckets, TableSize(n), |data|);
      }
      buckets := Rebucket(hash, data, buckets, TableSize(n));
    }

    /** `reserve(n)`: rebuilds the table with `n * max_load_factor` buckets, whatever its current size. */
    method Reserve(n: nat)
      requires |buckets| > 0 && InRange(data, buckets)
      modifies this`buckets
      ensures buckets == Rebucket(hash, data, old(buckets), TableSize(n * maxLoadFactor))
      ensures old(Valid()) ==> Valid()
    {
      RebuildTable(n * maxLoadFactor);
    }

    /** `rehash(n)`: nothing changes unless `n` exceeds the bucket count; then the table is rebuilt with `n` buckets. */
    method Rehash(n: nat)
      requires Valid()
      modifies this`buckets
      ensures Valid()
      ensures n <= old(|buckets|) ==> buckets == old(buckets)
      ensures n > old(|buckets|) ==> buckets == Rebucket(hash, data, old(buckets), n) && |buckets| == n
      ensures multiset(Flatten(buckets)) == old(multiset(Flatten(buckets)))
      ensures |Flatten(buckets)| == |data|
    {
      if n <= |buckets| {
        StoredOnce(hash, data, buckets, |data|);
        return;
      }
      RebucketKeepsEntries(hash, data, buckets, n, |data|);
      RebuildTable(n);
      StoredOnce(hash, data, buckets, |data|);
    }

    /**
     * `_Insert_by_key(key)`: if `find(key)` names an element, returns it with
     * `false` and changes nothing; otherwise appends `key`, registers it and
     * returns it with `true`.
     */
    method InsertByKey(key: K) returns (it: nat, inserted: bool)
      requires Valid()
      modifies this`data, this`buckets
      ensures Valid()
      ensures var found := old(Search(hash, eq, data, buckets, key));
        if found < old(|data|) then
          && it == found && !inserted
          && data == old(data) && buckets == old(buckets)
        else
          && inserted && it == old(|data|)
          && data == old(data) + [key]
          && buckets == Register(hash, data, old(buckets), it)
      ensures Compatible(hash, eq) && Unique(eq, old(data)) ==> Unique(eq, data)
    {
      it := Find(key);
      if it != |data| {
        return it, false;
      }
      AppendIndexes(hash, eq, data, buckets, key);
      data := data + [key];
      it := |data| - 1;
      HandleInsert(it, it + 1);
      inserted := true;
    }

    /**
     * `_Insert_by_hint(hint, key)`: if `find(key)` names an element, returns
     * it and changes nothing; otherwise places `key` just before `hint`,
     * registers it and returns it. Stored iterators keep naming the same
     * elements, which in positions means those from `hint` on move one step.
     */
    method InsertByHint(hint: nat, key: K) returns (it: nat)
      requires Valid() && hint <= |data|
      modifies this`data, this`buckets
      ensures Valid()
      ensures var found := old(Search(hash, eq, data, buckets, key));
        if found < old(|data|) then
          it == found && data == old(data) && buckets == old(buckets)
        else
          && it == hint
          && data == InsertAt(old(data), hint, key)
          && buckets == Register(hash, data, Shift(old(buckets), hint), hint)
      ensures Compatible(hash, eq) && Unique(eq, old(data)) ==> Unique(eq, data)
    {
      it := Find(key);
      if it == |data| {
        InsertAtFull(hash, eq, data, buckets, hint, key);
        data := InsertAt(data, hint, key);
        buckets := Shift(buckets, hint);
        it := hint;
        HandleInsert(it, it + 1);
      }
    }

    /**
     * The insertion loop of `_Insert_by_range`: appends each value of
     * `items` whose `has` test fails, the table staying as the call found it.
     */
    method AppendUnseen(items: seq<K>)
      requires |buckets| > 0 && InRange(data, buckets)
      modifies this`data
      ensures data == old(data) + Unseen(hash, eq, old(data), buckets, items)
    {
      for i := 0 to |items|
        invariant data == old(data) + Unseen(hash, eq, old(data), buckets, items[..i])
        invariant InRange(data, buckets)
      {
        ghost var before := Unseen(hash, eq, old(data), buckets, items[..i]);
        UnseenStep(hash, eq, old(data), buckets, items, i);
        var present := Has(items[i]);
        if !present {
          data := data + [items[i]];
          assert data == old(data) + (before + [items[i]]);
        } else {
          assert before == Unseen(hash, eq, old(data), buckets, items[..i + 1]);
        }
      }
      assert items[..|items|] == items;
    }

    /**
     * `_Insert_by_range(items)`, as written: appends each value whose `has`
     * test fails, consulting a table that does not yet hold the values
     * appended so far; then grows the table if the size passed its
     * capacity, and registers the appended suffix.
     */
    method InsertByRange(items: seq<K>)
      requires Valid()
      modifies this`data, this`buckets
      ensures Valid()
      ensures data == old(data) + Unseen(hash, eq, old(data), old(buckets), items)
      ensures var table :=
          if |data| > old(Capacity())
          then Rebucket(hash, data, old(buckets), TableSize(Max(|data|, old(Capacity()) * 2) * maxLoadFactor))
          else old(buckets);
        buckets == RegisterRange(hash, data, table, old(|data|), |data|)
      ensures Compatible(hash, eq) ==>
        forall q, p :: old(|data|) <= q < |data| && 0 <= p < old(|data|) ==> !eq(data[p], data[q])
    {
      var n0 := |data|;
      RangeInsertAbsent(hash, eq, data, buckets, items);
      AppendUnseen(items);
      IndexesExtend(hash, old(data), data[n0..], buckets, n0);
      assert old(data) + data[n0..] == data;
      var grow := |data| > Capacity();
      var n := Max(|data|, Capacity() * 2);
      GrowAndRegisterIndexes(hash, data, buckets, n0, grow, TableSize(n * maxLoadFactor));
      if grow {
        Reserve(n);
      }
      HandleInsert(n0, |data|);
    }

    /**
     * The range insert as evidently intended: each value is looked up in a
     * table that already holds the values appended before it, so a value
     * repeated in `items`, or equal to an element, is not appended again.
     */
    method InsertByRangeUnique(items: seq<K>)
      requires Valid()
      modifies this`data, this`buckets
      ensures Valid()
      ensures |data| >= old(|data|) && data[..old(|data|)] == old(data)
      ensures forall p :: old(|data|) <= p < |data| ==> data[p] in items
      ensures forall x :: x in items ==> x in data || exists p :: 0 <= p < |data| && eq(data[p], x)
      ensures Compatible(hash, eq) && Unique(eq, old(data)) ==> Unique(eq, data)
    {
      var i := 0;
      while i < |items|
        invariant i <= |items| && Valid()
        invariant hash == old(hash) && eq == old(eq) && maxLoadFactor == old(maxLoadFactor)
        invariant |data| >= old(|data|) && data[..old(|data|)] == old(data)
        invariant forall p :: old(|data|) <= p < |data| ==> data[p] in items
        invariant forall x :: x in items[..i] ==> x in data || exists p :: 0 <= p < |data| && eq(data[p], x)
        invariant Compatible(hash, eq) && Unique(eq, old(data)) ==> Unique(eq, data)
      {
        ghost var before := data;
        var it, inserted := InsertByKey(items[i]);
        assert data[..|before|] == before;
        forall x | x in items[..i + 1]
          ensures x in data || exists p :: 0 <= p < |data| && eq(data[p], x)
        {
          if x in items[..i] {
            if x !in before {
              var p :| 0 <= p < |before| && eq(before[p], x);
              assert data[p] == before[p];
            }
          } else {
            assert x == items[i] && it < |data|;
            assert data[it] == x || eq(data[it], x);
          }
        }
        i := i + 1;
      }
      assert items[..i] == items;
      if |data| > Capacity() {
        var n := Max(|data|, Capacity() * 2);
        Reserve(n);
      }
    }

    /** `clear()`: empties every bucket, then the element list. */
    method Clear()
      requires Valid()
      modifies this`data, this`buckets
      ensures Valid()
      ensures data == [] && |buckets| == old(|buckets|)
      ensures forall b :: 0 <= b < |buckets| ==> buckets[b] == []
    {
      buckets := seq(|buckets|, _ => []);
      data := [];
    }

    /** `swap(other)`: the two sets exchange their element lists and bucket tables, with the functions those hold. */
    method Swap(other: HashSet<K>)
      requires Valid() && other.Valid()
      modifies this, other
      ensures Valid() && other.Valid()
      ensures data == old(other.data) && other.data == old(data)
      ensures buckets == old(other.buckets) && other.buckets == old(buckets)
      ensures hash == old(other.hash) && other.hash == old(hash)
      ensures eq == old(other.eq) && other.eq == old(eq)
      ensures maxLoadFactor == old(other.maxLoadFactor) && other.maxLoadFactor == old(maxLoadFactor)
    {
      data, other.data := other.data, data;
      buckets, other.buckets := other.buckets, buckets;
      hash, other.hash := other.hash, hash;
      eq, other.eq := other.eq, eq;
      maxLoadFactor, other.maxLoadFactor := other.maxLoadFactor, maxLoadFactor;
    }
  }

  function Max(a: nat, b: nat): nat {
    if a < b then b else a
  }
}
