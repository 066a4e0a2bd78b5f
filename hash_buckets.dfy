/**
 * The bucket table of a hash set, as values.
 *
 * The element list is a sequence `data`: an iterator into it is a position,
 * and the position `|data|` is `end()`. The bucket table is a sequence of
 * buckets, each a sequence of positions in the order they were registered.
 * Hashing and key equality are the container's injected functions.
 */
module HashBuckets {

  /** The bucket a key falls into: its hash modulo the bucket count. */
  function Index<K>(hash: K -> nat, key: K, count: nat): (b: nat)
    requires count > 0
    ensures b < count
  {
    hash(key) % count
  }

  /** Keys that `eq` equates hash alike, and `eq` is symmetric. */
  ghost predicate Compatible<K(!new)>(hash: K -> nat, eq: (K, K) -> bool) {
    forall x, y :: eq(x, y) ==> eq(y, x) && hash(x) == hash(y)
  }

  /** No two elements of the list are equal under `eq`: the unique-key policy. */
  ghost predicate Unique<K>(eq: (K, K) -> bool, data: seq<K>) {
    forall i, j :: 0 <= i < |data| && 0 <= j < |data| && i != j ==> !eq(data[i], data[j])
  }

  /** Every stored position designates an element of `data`. */
  ghost predicate InRange<K>(data: seq<K>, buckets: seq<seq<nat>>) {
    forall b, j :: 0 <= b < |buckets| && 0 <= j < |buckets[b]| ==> buckets[b][j] < |data|
  }

  /** Every position stored in bucket `b` is below `k` and sits in the bucket of its element. */
  ghost predicate Filed<K>(hash: K -> nat, data: seq<K>, buckets: seq<seq<nat>>, k: nat, b: nat)
    requires 0 <= b < |buckets| && InRange(data, buckets)
  {
    forall j :: 0 <= j < |buckets[b]| ==> buckets[b][j] < k && Index(hash, data[buckets[b][j]], |buckets|) == b
  }

  /** Position `p` is stored in the bucket of its element. */
  ghost predicate Registered<K>(hash: K -> nat, data: seq<K>, buckets: seq<seq<nat>>, p: nat)
    requires |buckets| > 0 && p < |data|
  {
    p in buckets[Index(hash, data[p], |buckets|)]
  }

  /** No position is stored twice in `s`. */
  ghost predicate Distinct(s: seq<nat>) {
    forall i, j :: 0 <= i < j < |s| ==> s[i] != s[j]
  }

  /** The positions stored in `s`. */
  ghost function Elements(s: seq<nat>): set<nat> {
    set q | q in s
  }

  /**
   * `buckets` indexes exactly the first `k` positions of `data`: each stored
   * position is below `k`, sits in the bucket of its element and is stored
   * only once there, and each position below `k` is stored.
   */
  ghost predicate Indexes<K>(hash: K -> nat, data: seq<K>, buckets: seq<seq<nat>>, k: nat) {
    && |buckets| > 0 && k <= |data| && InRange(data, buckets)
    && (forall b :: 0 <= b < |buckets| ==> Filed(hash, data, buckets, k, b))
    && (forall b :: 0 <= b < |buckets| ==> Distinct(buckets[b]))
    && (forall p :: 0 <= p < k ==> Registered(hash, data, buckets, p))
  }

  /** The positions below `k` whose element falls into bucket `b` of `count`. */
  ghost function HashingTo<K>(hash: K -> nat, data: seq<K>, k: nat, count: nat, b: nat): set<nat>
    requires k <= |data| && count > 0
  {
    set p: nat | p < k && Index(hash, data[p], count) == b
  }

  /** The element list with `key` inserted before position `h`. */
  function InsertAt<K>(data: seq<K>, h: nat, key: K): (r: seq<K>)
    requires h <= |data|
  {
    data[..h] + [key] + data[h..]
  }

  /** The bucket table's `insert`: position `p` goes to the back of its element's bucket. */
  function Register<K>(hash: K -> nat, data: seq<K>, buckets: seq<seq<nat>>, p: nat): (r: seq<seq<nat>>)
    requires |buckets| > 0 && p < |data|
    ensures |r| == |buckets|
  {
    var b := Index(hash, data[p], |buckets|);
    buckets[b := buckets[b] + [p]]
  }

  /** Registers the positions `first` .. `last - 1`, one per step, in that order. */
  function RegisterRange<K>(hash: K -> nat, data: seq<K>, buckets: seq<seq<nat>>, first: nat, last: nat): (r: seq<seq<nat>>)
    requires |buckets| > 0 && first <= last <= |data|
    ensures |r| == |buckets|
    decreases last
  {
    if first == last then buckets
    else Register(hash, data, RegisterRange(hash, data, buckets, first, last - 1), last - 1)
  }

  /** `bucket` without the position `p`. */
  function Without(bucket: seq<nat>, p: nat): (r: seq<nat>)
    ensures |r| <= |bucket|
    ensures forall q :: q in r <==> q in bucket && q != p
  {
    if bucket == [] then []
    else if bucket[0] == p then Without(bucket[1..], p)
    else [bucket[0]] + Without(bucket[1..], p)
  }

  /** Taking out a position the bucket does not hold leaves it as it is. */
  lemma {:induction false} WithoutAbsent(bucket: seq<nat>, p: nat)
    requires p !in bucket
    ensures Without(bucket, p) == bucket
  {
    if bucket != [] {
      WithoutAbsent(bucket[1..], p);
      assert bucket == [bucket[0]] + bucket[1..];
    }
  }

  /**
   * In a bucket that stores each position once, taking out a stored position
   * removes exactly one entry and keeps the rest free of repeats.
   */
  lemma {:induction false} WithoutOnce(bucket: seq<nat>, p: nat)
    requires Distinct(bucket) && p in bucket
    ensures |Without(bucket, p)| == |bucket| - 1
    ensures Distinct(Without(bucket, p))
  {
    assert Distinct(bucket[1..]);
    if bucket[0] == p {
      WithoutAbsent(bucket[1..], p);
    } else {
      WithoutOnce(bucket[1..], p);
      var w := Without(bucket[1..], p);
      assert bucket[0] !in w;
      assert Without(bucket, p) == [bucket[0]] + w;
    }
  }

  /** The bucket table's `erase`: position `p` leaves its element's bucket. */
  function Unregister<K>(hash: K -> nat, data: seq<K>, buckets: seq<seq<nat>>, p: nat): (r: seq<seq<nat>>)
    requires |buckets| > 0 && p < |data|
    ensures |r| == |buckets|
  {
    var b := Index(hash, data[p], |buckets|);
    buckets[b := Without(buckets[b], p)]
  }

  /** Unregisters the positions `first` .. `last - 1`, one per step, in that order. */
  function UnregisterRange<K>(hash: K -> nat, data: seq<K>, buckets: seq<seq<nat>>, first: nat, last: nat): (r: seq<seq<nat>>)
    requires |buckets| > 0 && first <= last <= |data|
    ensures |r| == |buckets|
    decreases last
  {
    if first == last then buckets
    else Unregister(hash, data, UnregisterRange(hash, data, buckets, first, last - 1), last - 1)
  }

  /** Where a stored position lands after an insertion before `h`: positions from `h` on move one step. */
  function Shifted(q: nat, h: nat): nat {
    if q >= h then q + 1 else q
  }

  /** The table after an insertion before `h`: every stored position still names the same element. */
  function Shift(buckets: seq<seq<nat>>, h: nat): (r: seq<seq<nat>>) {
    seq(|buckets|, b requires 0 <= b < |buckets| =>
      seq(|buckets[b]|, j requires 0 <= j < |buckets[b]| => Shifted(buckets[b][j], h)))
  }

  /** The positions of all buckets, bucket after bucket. */
  function Flatten(buckets: seq<seq<nat>>): (r: seq<nat>)
    ensures forall b, j :: 0 <= b < |buckets| && 0 <= j < |buckets[b]| ==> buckets[b][j] in r
  {
    if buckets == [] then []
    else
      assert forall b :: 1 <= b < |buckets| ==> buckets[b] == buckets[1..][b - 1];
      buckets[0] + Flatten(buckets[1..])
  }

  /** Flattening keeps every position below a bound the buckets respect. */
  lemma {:induction false} FlattenBelow(buckets: seq<seq<nat>>, n: nat)
    requires forall b, j :: 0 <= b < |buckets| && 0 <= j < |buckets[b]| ==> buckets[b][j] < n
    ensures forall i :: 0 <= i < |Flatten(buckets)| ==> Flatten(buckets)[i] < n
  {
    if buckets != [] {
      assert forall b :: 1 <= b < |buckets| ==> buckets[b] == buckets[1..][b - 1];
      FlattenBelow(buckets[1..], n);
    }
  }

  /** Every position of the flattened table comes from one of its buckets. */
  lemma {:induction false} FlattenMembers(buckets: seq<seq<nat>>, q: nat)
    requires q in Flatten(buckets)
    ensures exists b, j :: 0 <= b < |buckets| && 0 <= j < |buckets[b]| && buckets[b][j] == q
  {
    if q !in buckets[0] {
      FlattenMembers(buckets[1..], q);
      var b, j :| 0 <= b < |buckets| - 1 && 0 <= j < |buckets[1..][b]| && buckets[1..][b][j] == q;
      assert buckets[b + 1][j] == q;
    } else {
      var j :| 0 <= j < |buckets[0]| && buckets[0][j] == q;
    }
  }

  /** Buckets that repeat no position and share none flatten to a sequence without repeats. */
  lemma {:induction false} FlattenDistinct(buckets: seq<seq<nat>>)
    requires forall b :: 0 <= b < |buckets| ==> Distinct(buckets[b])
    requires forall b1, b2, j1, j2 :: 0 <= b1 < b2 < |buckets| && 0 <= j1 < |buckets[b1]| && 0 <= j2 < |buckets[b2]|
               ==> buckets[b1][j1] != buckets[b2][j2]
    ensures Distinct(Flatten(buckets))
  {
    if buckets != [] {
      var rest := buckets[1..];
      assert forall b :: 0 <= b < |rest| ==> rest[b] == buckets[b + 1];
      FlattenDistinct(rest);
      var f := Flatten(buckets);
      var head := buckets[0];
      var tail := Flatten(rest);
      assert f == head + tail;
      forall i, j | 0 <= i < j < |f|
        ensures f[i] != f[j]
      {
        if j < |head| {
          assert f[i] == head[i] && f[j] == head[j];
        } else if i >= |head| {
          assert f[i] == tail[i - |head|] && f[j] == tail[j - |head|];
        } else {
          assert f[i] == head[i] && f[j] == tail[j - |head|];
          FlattenMembers(rest, tail[j - |head|]);
          var b, jj :| 0 <= b < |rest| && 0 <= jj < |rest[b]| && rest[b][jj] == tail[j - |head|];
          assert buckets[b + 1][jj] == f[j];
        }
      }
    }
  }

  /** Registers each position of `ps`, in order, into `table`. */
  function Place<K>(hash: K -> nat, data: seq<K>, table: seq<seq<nat>>, ps: seq<nat>): (r: seq<seq<nat>>)
    requires |table| > 0 && forall i :: 0 <= i < |ps| ==> ps[i] < |data|
    ensures |r| == |table|
    decreases |ps|
  {
    if ps == [] then table
    else Place(hash, data, Register(hash, data, table, ps[0]), ps[1..])
  }

  /** A bucket count the table can take: at least one bucket. */
  function TableSize(n: int): nat {
    if n <= 0 then 1 else n
  }

  /**
   * The bucket table's `rehash`: `count` empty buckets, into which every
   * stored position is registered again, bucket after bucket.
   */
  function Rebucket<K>(hash: K -> nat, data: seq<K>, buckets: seq<seq<nat>>, count: nat): (r: seq<seq<nat>>)
    requires count > 0 && InRange(data, buckets)
    ensures |r| == count
  {
    FlattenBelow(buckets, |data|);
    Place(hash, data, seq(count, _ => []), Flatten(buckets))
  }

  /**
   * The bucket table's `find` (the legacy `SetHashBuckets.find`): the index,
   * in bucket order, of the first position whose element `eq`-matches `key`,
   * or `|bucket|` when there is none.
   */
  function FirstMatch<K>(eq: (K, K) -> bool, data: seq<K>, bucket: seq<nat>, key: K): (j: nat)
    requires forall i :: 0 <= i < |bucket| ==> bucket[i] < |data|
    ensures j <= |bucket|
    ensures j < |bucket| ==> eq(data[bucket[j]], key)
    ensures forall i :: 0 <= i < j ==> !eq(data[bucket[i]], key)
  {
    if bucket == [] then 0
    else if eq(data[bucket[0]], key) then 0
    else 1 + FirstMatch(eq, data, bucket[1..], key)
  }

  /**
   * What `find(key)` returns: scanning only the bucket of `key`, the first
   * position (in bucket order) whose element `eq`-matches `key`, else `end()`.
   */
  function Search<K>(hash: K -> nat, eq: (K, K) -> bool, data: seq<K>, buckets: seq<seq<nat>>, key: K): (it: nat)
    requires |buckets| > 0 && InRange(data, buckets)
    ensures it <= |data|
    ensures var bucket := buckets[Index(hash, key, |buckets|)];
      && (it < |data| ==> eq(data[it], key) && it in bucket)
      && (it < |data| ==> exists j :: 0 <= j < |bucket| && bucket[j] == it &&
                            forall i :: 0 <= i < j ==> !eq(data[bucket[i]], key))
      && (it == |data| <==> forall j :: 0 <= j < |bucket| ==> !eq(data[bucket[j]], key))
  {
    var bucket := buckets[Index(hash, key, |buckets|)];
    var j := FirstMatch(eq, data, bucket, key);
    if j < |bucket| then bucket[j] else |data|
  }

  /** The values of `items` that a range insert appends: those whose lookup in the table, as the call found it, gives `end()`. */
  function Unseen<K>(hash: K -> nat, eq: (K, K) -> bool, data: seq<K>, buckets: seq<seq<nat>>, items: seq<K>): (r: seq<K>)
    requires |buckets| > 0 && InRange(data, buckets)
    ensures |r| <= |items|
    ensures forall x :: x in r ==> x in items
  {
    if items == [] then []
    else
      var last := items[|items| - 1];
      var front := Unseen(hash, eq, data, buckets, items[..|items| - 1]);
      front + (if Search(hash, eq, data, buckets, last) == |data| then [last] else [])
  }

  // ------------------------------------------------------------------
  // Lemmas
  // ------------------------------------------------------------------

  /** A table that indexes a list also indexes any extension of it, as far as it went. */
  lemma IndexesExtend<K>(hash: K -> nat, data: seq<K>, ext: seq<K>, buckets: seq<seq<nat>>, k: nat)
    requires Indexes(hash, data, buckets, k)
    ensures Indexes(hash, data + ext, buckets, k)
  {
    var d := data + ext;
    assert forall p :: 0 <= p < |data| ==> d[p] == data[p];
    forall b | 0 <= b < |buckets|
      ensures Filed(hash, d, buckets, k, b)
    {
      assert Filed(hash, data, buckets, k, b);
    }
    forall p | 0 <= p < k
      ensures Registered(hash, d, buckets, p)
    {
      assert Registered(hash, data, buckets, p);
    }
  }

  /** Registering `first` .. `last - 1` adds exactly those positions, each to its element's bucket. */
  lemma {:induction false} RegisterRangeMembers<K>(hash: K -> nat, data: seq<K>, buckets: seq<seq<nat>>,
                                                   first: nat, last: nat, b: nat, q: nat)
    requires |buckets| > 0 && first <= last <= |data| && b < |buckets|
    ensures q in RegisterRange(hash, data, buckets, first, last)[b] <==>
            q in buckets[b] || (first <= q < last && Index(hash, data[q], |buckets|) == b)
  {
    if first < last {
      RegisterRangeMembers(hash, data, buckets, first, last - 1, b, q);
    }
  }

  /** Registering positions at or past every stored one stores none of them twice. */
  lemma {:induction false} RegisterRangeDistinct<K>(hash: K -> nat, data: seq<K>, buckets: seq<seq<nat>>,
                                                    first: nat, last: nat, b: nat)
    requires |buckets| > 0 && first <= last <= |data| && b < |buckets|
    requires Distinct(buckets[b]) && forall j :: 0 <= j < |buckets[b]| ==> buckets[b][j] < first
    ensures Distinct(RegisterRange(hash, data, buckets, first, last)[b])
    decreases last
  {
    if first < last {
      RegisterRangeDistinct(hash, data, buckets, first, last - 1, b);
      RegisterRangeMembers(hash, data, buckets, first, last - 1, b, last - 1);
      var r := RegisterRange(hash, data, buckets, first, last - 1);
      assert last - 1 !in r[b];
    }
  }

  /** Registering the positions after an indexed prefix extends the index to them. */
  lemma RegisterRangeIndexes<K>(hash: K -> nat, data: seq<K>, buckets: seq<seq<nat>>, first: nat, last: nat)
    requires Indexes(hash, data, buckets, first) && first <= last <= |data|
    ensures Indexes(hash, data, RegisterRange(hash, data, buckets, first, last), last)
  {
    var r := RegisterRange(hash, data, buckets, first, last);
    forall b, j | 0 <= b < |r| && 0 <= j < |r[b]|
      ensures r[b][j] < last && Index(hash, data[r[b][j]], |r|) == b
    {
      RegisterRangeMembers(hash, data, buckets, first, last, b, r[b][j]);
      assert Filed(hash, data, buckets, first, b);
    }
    assert InRange(data, r);
    forall b | 0 <= b < |r|
      ensures Distinct(r[b])
    {
      assert Filed(hash, data, buckets, first, b);
      RegisterRangeDistinct(hash, data, buckets, first, last, b);
    }
    forall p | 0 <= p < last
      ensures Registered(hash, data, r, p)
    {
      RegisterRangeMembers(hash, data, buckets, first, last, Index(hash, data[p], |r|), p);
      if p < first {
        assert Registered(hash, data, buckets, p);
      }
    }
  }

  /** Unregistering `first` .. `last - 1` takes exactly those positions out of their elements' buckets. */
  lemma {:induction false} UnregisterRangeMembers<K>(hash: K -> nat, data: seq<K>, buckets: seq<seq<nat>>,
                                                     first: nat, last: nat, b: nat, q: nat)
    requires |buckets| > 0 && first <= last <= |data| && b < |buckets|
    ensures q in UnregisterRange(hash, data, buckets, first, last)[b] <==>
            q in buckets[b] && !(first <= q < last && Index(hash, data[q], |buckets|) == b)
  {
    if first < last {
      UnregisterRangeMembers(hash, data, buckets, first, last - 1, b, q);
    }
  }

  /**
   * On a table that indexes the whole list, unregistering `first` .. `last - 1`
   * leaves every other position registered in its bucket and those in none.
   */
  lemma UnregisterRangeIndexes<K>(hash: K -> nat, data: seq<K>, buckets: seq<seq<nat>>, first: nat, last: nat)
    requires Indexes(hash, data, buckets, |data|) && first <= last <= |data|
    ensures var r := UnregisterRange(hash, data, buckets, first, last);
      && (forall p :: 0 <= p < |data| && !(first <= p < last) ==> p in r[Index(hash, data[p], |r|)])
      && (forall p, b :: first <= p < last && 0 <= b < |r| ==> p !in r[b])
  {
    var r := UnregisterRange(hash, data, buckets, first, last);
    forall p | 0 <= p < |data| && !(first <= p < last)
      ensures p in r[Index(hash, data[p], |r|)]
    {
      UnregisterRangeMembers(hash, data, buckets, first, last, Index(hash, data[p], |r|), p);
      assert Registered(hash, data, buckets, p);
    }
    forall p, b | first <= p < last && 0 <= b < |r|
      ensures p !in r[b]
    {
      UnregisterRangeMembers(hash, data, buckets, first, last, b, p);
      if p in buckets[b] {
        var j :| 0 <= j < |buckets[b]| && buckets[b][j] == p;
        assert Filed(hash, data, buckets, |data|, b);
      }
    }
  }

  /**
   * Inserting `key` before `h` and registering it keeps the table an index of
   * the whole list: stored positions are renumbered, and each still names the
   * element it named before.
   */
  lemma InsertAtIndexes<K>(hash: K -> nat, data: seq<K>, buckets: seq<seq<nat>>, h: nat, key: K)
    requires Indexes(hash, data, buckets, |data|) && h <= |data|
    ensures var d := InsertAt(data, h, key);
      && InRange(d, Shift(buckets, h))
      && (forall b, j :: 0 <= b < |buckets| && 0 <= j < |buckets[b]| ==>
            d[Shift(buckets, h)[b][j]] == data[buckets[b][j]])
      && Indexes(hash, d, Register(hash, d, Shift(buckets, h), h), |d|)
  {
    var d := InsertAt(data, h, key);
    var s := Shift(buckets, h);
    assert forall q :: 0 <= q < |data| ==> d[Shifted(q, h)] == data[q];
    assert d[h] == key;
    var r := Register(hash, d, s, h);
    forall b, j | 0 <= b < |r| && 0 <= j < |r[b]|
      ensures r[b][j] < |d| && Index(hash, d[r[b][j]], |r|) == b
    {
      if j < |s[b]| {
        assert r[b][j] == s[b][j] == Shifted(buckets[b][j], h);
        assert Filed(hash, data, buckets, |data|, b);
      }
    }
    assert InRange(d, r);
    ShiftRegisterDistinct(hash, d, buckets, h);
    forall p | 0 <= p < |d|
      ensures Registered(hash, d, r, p)
    {
      if p != h {
        var q := if p < h then p else p - 1;
        assert Shifted(q, h) == p && d[p] == data[q];
        var b := Index(hash, data[q], |buckets|);
        assert Registered(hash, data, buckets, q);
        var j :| 0 <= j < |buckets[b]| && buckets[b][j] == q;
        assert s[b][j] == p;
        assert p in r[b];
      }
    }
  }

  /**
   * Renumbering a table that stores each position once for an insertion
   * before `h`, then registering `h`, still stores each position once.
   */
  lemma ShiftRegisterDistinct<K>(hash: K -> nat, d: seq<K>, buckets: seq<seq<nat>>, h: nat)
    requires |buckets| > 0 && h < |d|
    requires forall b :: 0 <= b < |buckets| ==> Distinct(buckets[b])
    ensures forall b :: 0 <= b < |buckets| ==> Distinct(Register(hash, d, Shift(buckets, h), h)[b])
  {
    var s := Shift(buckets, h);
    forall b | 0 <= b < |buckets|
      ensures Distinct(Register(hash, d, s, h)[b])
    {
      assert Distinct(buckets[b]);
      assert h !in s[b];
    }
  }

  /**
   * Appending a key that `find` does not find and registering its position
   * keeps the table an index of the whole list, and keeps the list unique.
   */
  lemma AppendIndexes<K(!new)>(hash: K -> nat, eq: (K, K) -> bool, data: seq<K>, buckets: seq<seq<nat>>, key: K)
    requires Indexes(hash, data, buckets, |data|)
    ensures Indexes(hash, data + [key], RegisterRange(hash, data + [key], buckets, |data|, |data| + 1), |data| + 1)
    ensures InRange(data, buckets)
    ensures Compatible(hash, eq) && Unique(eq, data) && Search(hash, eq, data, buckets, key) == |data| ==>
            Unique(eq, data + [key])
  {
    IndexesExtend(hash, data, [key], buckets, |data|);
    RegisterRangeIndexes(hash, data + [key], buckets, |data|, |data| + 1);
    if Compatible(hash, eq) && Unique(eq, data) && Search(hash, eq, data, buckets, key) == |data| {
      InsertAtKeepsUnique(hash, eq, data, buckets, |data|, key);
      assert InsertAt(data, |data|, key) == data + [key];
    }
  }

  /**
   * Inserting a key that `find` does not find before `h`, renumbering the
   * table and registering the new position keeps the table an index of the
   * whole list, and keeps the list unique.
   */
  lemma InsertAtFull<K(!new)>(hash: K -> nat, eq: (K, K) -> bool, data: seq<K>, buckets: seq<seq<nat>>, h: nat, key: K)
    requires Indexes(hash, data, buckets, |data|) && h <= |data|
    ensures var d := InsertAt(data, h, key);
      && InRange(d, Shift(buckets, h)) && |Shift(buckets, h)| == |buckets|
      && Indexes(hash, d, RegisterRange(hash, d, Shift(buckets, h), h, h + 1), |d|)
    ensures InRange(data, buckets)
    ensures Compatible(hash, eq) && Unique(eq, data) && Search(hash, eq, data, buckets, key) == |data| ==>
            Unique(eq, InsertAt(data, h, key))
  {
    InsertAtIndexes(hash, data, buckets, h, key);
    var d := InsertAt(data, h, key);
    assert RegisterRange(hash, d, Shift(buckets, h), h, h + 1) == Register(hash, d, Shift(buckets, h), h);
    if Compatible(hash, eq) && Unique(eq, data) && Search(hash, eq, data, buckets, key) == |data| {
      InsertAtKeepsUnique(hash, eq, data, buckets, h, key);
    }
  }

  /** Placing positions adds exactly them, each to its element's bucket. */
  lemma {:induction false} PlaceMembers<K>(hash: K -> nat, data: seq<K>, table: seq<seq<nat>>, ps: seq<nat>, b: nat, q: nat)
    requires |table| > 0 && (forall i :: 0 <= i < |ps| ==> ps[i] < |data|) && b < |table|
    ensures q in Place(hash, data, table, ps)[b] <==>
            q in table[b] || (q in ps && q < |data| && Index(hash, data[q], |table|) == b)
    decreases |ps|
  {
    if ps != [] {
      PlaceMembers(hash, data, Register(hash, data, table, ps[0]), ps[1..], b, q);
      assert q in ps <==> q == ps[0] || q in ps[1..];
    }
  }

  /** Placing distinct positions, none stored yet, stores none of them twice. */
  lemma {:induction false} PlaceDistinct<K>(hash: K -> nat, data: seq<K>, table: seq<seq<nat>>, ps: seq<nat>, b: nat)
    requires |table| > 0 && (forall i :: 0 <= i < |ps| ==> ps[i] < |data|) && b < |table|
    requires Distinct(ps) && Distinct(table[b]) && forall i :: 0 <= i < |ps| ==> ps[i] !in table[b]
    ensures Distinct(Place(hash, data, table, ps)[b])
    decreases |ps|
  {
    if ps != [] {
      var t := Register(hash, data, table, ps[0]);
      forall i | 0 <= i < |ps| - 1
        ensures ps[1..][i] !in t[b]
      {
        assert ps[1..][i] == ps[i + 1] != ps[0];
      }
      PlaceDistinct(hash, data, t, ps[1..], b);
    }
  }

  /** Rehashing into any positive number of buckets keeps the table an index of the same positions. */
  lemma RebucketIndexes<K>(hash: K -> nat, data: seq<K>, buckets: seq<seq<nat>>, count: nat, k: nat)
    requires Indexes(hash, data, buckets, k) && count > 0
    ensures InRange(data, buckets)
    ensures Indexes(hash, data, Rebucket(hash, data, buckets, count), k)
  {
    var flat := Flatten(buckets);
    var empty: seq<seq<nat>> := seq(count, _ => []);
    var r := Rebucket(hash, data, buckets, count);
    forall b, j | 0 <= b < |buckets| && 0 <= j < |buckets[b]|
      ensures buckets[b][j] < k
    {
      assert Filed(hash, data, buckets, k, b);
    }
    FlattenBelow(buckets, k);
    forall b, j | 0 <= b < |r| && 0 <= j < |r[b]|
      ensures r[b][j] < k && Index(hash, data[r[b][j]], |r|) == b
    {
      PlaceMembers(hash, data, empty, flat, b, r[b][j]);
    }
    assert InRange(data, r);
    StoredOnce(hash, data, buckets, k);
    forall b | 0 <= b < |r|
      ensures Distinct(r[b])
    {
      PlaceDistinct(hash, data, empty, flat, b);
    }
    forall p | 0 <= p < k
      ensures Registered(hash, data, r, p)
    {
      var b := Index(hash, data[p], |buckets|);
      assert Registered(hash, data, buckets, p);
      var j :| 0 <= j < |buckets[b]| && buckets[b][j] == p;
      assert p in flat;
      PlaceMembers(hash, data, empty, flat, Index(hash, data[p], count), p);
    }
  }

  /** A sequence without repeats has as many elements as positions. */
  lemma {:induction false} DistinctCard(s: seq<nat>)
    requires Distinct(s)
    ensures |Elements(s)| == |s|
  {
    if s != [] {
      assert Distinct(s[1..]);
      DistinctCard(s[1..]);
      assert Elements(s) == Elements(s[1..]) + {s[0]};
      assert s[0] !in Elements(s[1..]);
    }
  }

  /** A sequence without repeats holds each of its elements once. */
  lemma {:induction false} DistinctMultiset(s: seq<nat>)
    requires Distinct(s)
    ensures multiset(s) == multiset(Elements(s))
  {
    if s != [] {
      assert Distinct(s[1..]);
      DistinctMultiset(s[1..]);
      assert s == [s[0]] + s[1..];
      assert Elements(s) == Elements(s[1..]) + {s[0]};
      assert s[0] !in Elements(s[1..]);
    }
  }

  /** The positions below `k`. */
  function Positions(k: nat): (r: set<nat>)
    ensures forall q :: q in r <==> 0 <= q < k
  {
    if k == 0 then {} else Positions(k - 1) + {k - 1}
  }

  /** There are `k` positions below `k`. */
  lemma {:induction false} PositionsCard(k: nat)
    ensures |Positions(k)| == k
  {
    if k > 0 {
      PositionsCard(k - 1);
      var below := Positions(k - 1);
      assert k - 1 !in below;
      assert |below + {k - 1}| == |below| + 1;
    }
  }

  /**
   * A table indexing the first `k` positions stores each of them exactly
   * once and nothing else: `k` entries in all.
   */
  lemma StoredOnce<K>(hash: K -> nat, data: seq<K>, buckets: seq<seq<nat>>, k: nat)
    requires Indexes(hash, data, buckets, k)
    ensures Distinct(Flatten(buckets))
    ensures Elements(Flatten(buckets)) == Positions(k)
    ensures |Flatten(buckets)| == k
  {
    forall b1, b2, j1, j2 | 0 <= b1 < b2 < |buckets| && 0 <= j1 < |buckets[b1]| && 0 <= j2 < |buckets[b2]|
      ensures buckets[b1][j1] != buckets[b2][j2]
    {
      assert Filed(hash, data, buckets, k, b1) && Filed(hash, data, buckets, k, b2);
    }
    FlattenDistinct(buckets);
    var f := Flatten(buckets);
    forall q: nat
      ensures q in f <==> q < k
    {
      if q in f {
        FlattenMembers(buckets, q);
        var b, j :| 0 <= b < |buckets| && 0 <= j < |buckets[b]| && buckets[b][j] == q;
        assert Filed(hash, data, buckets, k, b);
      }
      if q < k {
        assert Registered(hash, data, buckets, q);
        var b := Index(hash, data[q], |buckets|);
        var j :| 0 <= j < |buckets[b]| && buckets[b][j] == q;
      }
    }
    assert Elements(f) == Positions(k);
    DistinctCard(f);
    PositionsCard(k);
  }

  /**
   * On a table indexing the first `k` positions, bucket `b` holds as many
   * entries as there are positions below `k` whose element falls into it.
   */
  lemma BucketCount<K>(hash: K -> nat, data: seq<K>, buckets: seq<seq<nat>>, k: nat, b: nat)
    requires Indexes(hash, data, buckets, k) && b < |buckets|
    ensures |buckets[b]| == |HashingTo(hash, data, k, |buckets|, b)|
  {
    assert Filed(hash, data, buckets, k, b);
    forall q: nat
      ensures q in buckets[b] <==> q in HashingTo(hash, data, k, |buckets|, b)
    {
      if q < k {
        assert Registered(hash, data, buckets, q);
      }
    }
    assert Elements(buckets[b]) == HashingTo(hash, data, k, |buckets|, b);
    DistinctCard(buckets[b]);
  }

  /**
   * Rehashing a table that indexes the first `k` positions keeps its entries
   * exactly: none is lost, none is duplicated, and their number is unchanged.
   */
  lemma RebucketKeepsEntries<K>(hash: K -> nat, data: seq<K>, buckets: seq<seq<nat>>, count: nat, k: nat)
    requires Indexes(hash, data, buckets, k) && count > 0
    ensures InRange(data, buckets)
    ensures multiset(Flatten(Rebucket(hash, data, buckets, count))) == multiset(Flatten(buckets))
    ensures |Flatten(Rebucket(hash, data, buckets, count))| == |Flatten(buckets)|
  {
    RebucketIndexes(hash, data, buckets, count, k);
    var r := Rebucket(hash, data, buckets, count);
    StoredOnce(hash, data, buckets, k);
    StoredOnce(hash, data, r, k);
    DistinctMultiset(Flatten(buckets));
    DistinctMultiset(Flatten(r));
  }

  /**
   * After a range insert appends past an indexed prefix, rebuilding the table
   * (or not) and then registering the appended positions indexes the whole list.
   */
  lemma GrowAndRegisterIndexes<K>(hash: K -> nat, data: seq<K>, buckets: seq<seq<nat>>, first: nat, grow: bool, count: nat)
    requires Indexes(hash, data, buckets, first) && count > 0
    ensures InRange(data, buckets)
    ensures var table := if grow then Rebucket(hash, data, buckets, count) else buckets;
      && Indexes(hash, data, table, first)
      && Indexes(hash, data, RegisterRange(hash, data, table, first, |data|), |data|)
  {
    RebucketIndexes(hash, data, buckets, count, first);
    var table := if grow then Rebucket(hash, data, buckets, count) else buckets;
    RegisterRangeIndexes(hash, data, table, first, |data|);
  }

  /** Lookup only reads the positions stored in the table, so extending the list changes only what `end()` is. */
  lemma SearchExtended<K>(hash: K -> nat, eq: (K, K) -> bool, data: seq<K>, ext: seq<K>, buckets: seq<seq<nat>>, key: K)
    requires |buckets| > 0 && InRange(data, buckets)
    ensures InRange(data + ext, buckets)
    ensures Search(hash, eq, data + ext, buckets, key) ==
            if Search(hash, eq, data, buckets, key) == |data| then |data + ext|
            else Search(hash, eq, data, buckets, key)
  {
    var bucket := buckets[Index(hash, key, |buckets|)];
    assert forall i :: 0 <= i < |bucket| ==> (data + ext)[bucket[i]] == data[bucket[i]];
    var j1 := FirstMatch(eq, data, bucket, key);
    var j2 := FirstMatch(eq, data + ext, bucket, key);
  }

  /**
   * On a table indexing the whole list, `find(key)` is `end()` exactly when no
   * element of the list equals `key`, and otherwise names one that does.
   */
  lemma SearchIsMembership<K(!new)>(hash: K -> nat, eq: (K, K) -> bool, data: seq<K>, buckets: seq<seq<nat>>, key: K)
    requires Indexes(hash, data, buckets, |data|) && Compatible(hash, eq)
    ensures InRange(data, buckets)
    ensures Search(hash, eq, data, buckets, key) == |data| <==> forall p :: 0 <= p < |data| ==> !eq(data[p], key)
  {
    var it := Search(hash, eq, data, buckets, key);
    if it == |data| {
      var kb := Index(hash, key, |buckets|);
      forall p | 0 <= p < |data| ensures !eq(data[p], key) {
        var b := Index(hash, data[p], |buckets|);
        assert Registered(hash, data, buckets, p);
        assert eq(data[p], key) ==> b == kb;
      }
    }
  }

  /** Inserting a key that `find` does not find, anywhere in the list, keeps its elements unique. */
  lemma InsertAtKeepsUnique<K(!new)>(hash: K -> nat, eq: (K, K) -> bool, data: seq<K>, buckets: seq<seq<nat>>, h: nat, key: K)
    requires Indexes(hash, data, buckets, |data|) && Compatible(hash, eq) && h <= |data|
    requires Unique(eq, data) && Search(hash, eq, data, buckets, key) == |data|
    ensures Unique(eq, InsertAt(data, h, key))
  {
    SearchIsMembership(hash, eq, data, buckets, key);
    var d := InsertAt(data, h, key);
    forall i, j | 0 <= i < |d| && 0 <= j < |d| && i != j
      ensures !eq(d[i], d[j])
    {
      var i' := if i < h then i else i - 1;
      var j' := if j < h then j else j - 1;
      if i == h {
        assert d[j] == data[j'];
      } else if j == h {
        assert d[i] == data[i'];
      } else {
        assert d[i] == data[i'] && d[j] == data[j'];
      }
    }
  }

  /**
   * One step of the range insert: the next value is appended exactly when its
   * lookup, in the list as extended so far and the table as the call found
   * it, gives `end()`.
   */
  lemma UnseenStep<K>(hash: K -> nat, eq: (K, K) -> bool, data: seq<K>, buckets: seq<seq<nat>>, items: seq<K>, i: nat)
    requires |buckets| > 0 && InRange(data, buckets) && i < |items|
    ensures var d := data + Unseen(hash, eq, data, buckets, items[..i]);
      && InRange(d, buckets)
      && Unseen(hash, eq, data, buckets, items[..i + 1]) ==
         Unseen(hash, eq, data, buckets, items[..i]) +
         (if Search(hash, eq, d, buckets, items[i]) == |d| then [items[i]] else [])
  {
    SearchExtended(hash, eq, data, Unseen(hash, eq, data, buckets, items[..i]), buckets, items[i]);
    assert items[..i + 1][..i] == items[..i];
  }

  /** On a table indexing the whole list, no value the range insert appends equals an element present before the call. */
  lemma {:induction false} UnseenAbsent<K(!new)>(hash: K -> nat, eq: (K, K) -> bool, data: seq<K>, buckets: seq<seq<nat>>, items: seq<K>)
    requires Indexes(hash, data, buckets, |data|) && Compatible(hash, eq)
    ensures InRange(data, buckets)
    ensures forall x, p :: x in Unseen(hash, eq, data, buckets, items) && 0 <= p < |data| ==> !eq(data[p], x)
  {
    if items != [] {
      var last := items[|items| - 1];
      UnseenAbsent(hash, eq, data, buckets, items[..|items| - 1]);
      SearchIsMembership(hash, eq, data, buckets, last);
    }
  }

  /** The range insert never appends a value equal to an element present before the call. */
  lemma RangeInsertAbsent<K(!new)>(hash: K -> nat, eq: (K, K) -> bool, data: seq<K>, buckets: seq<seq<nat>>, items: seq<K>)
    requires Indexes(hash, data, buckets, |data|)
    ensures InRange(data, buckets)
    ensures var d := data + Unseen(hash, eq, data, buckets, items);
      Compatible(hash, eq) ==> forall q, p :: |data| <= q < |d| && 0 <= p < |data| ==> !eq(d[p], d[q])
  {
    var u := Unseen(hash, eq, data, buckets, items);
    var d := data + u;
    if Compatible(hash, eq) {
      UnseenAbsent(hash, eq, data, buckets, items);
      forall q, p | |data| <= q < |d| && 0 <= p < |data|
        ensures !eq(d[p], d[q])
      {
        assert d[q] == u[q - |data|] && d[p] == data[p];
        assert u[q - |data|] in u;
      }
    }
  }

  /**
   * The range insert keeps both copies of a value repeated in its input: from
   * an empty set with one bucket, inserting [7, 7] appends 7 twice.
   */
  lemma RangeInsertKeepsDuplicates()
    ensures var hash := (x: nat) => x;
      var eq := (x: nat, y: nat) => x == y;
      var d := [] + Unseen(hash, eq, [], [[]], [7, 7]);
      d == [7, 7] && !Unique(eq, d)
  {
    var hash := (x: nat) => x;
    var eq := (x: nat, y: nat) => x == y;
    assert [7, 7][..1] == [7];
    assert [7][..0] == [];
    assert Search(hash, eq, [], [[]], 7) == 0;
  }
}
