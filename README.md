# tstl container engine, modelled in Dafny

This project models the container engine of tstl, the TypeScript port of
the C++ standard template library. It covers three layers.

- **The unique-key hash set** (`HashSet`). The set keeps an element list and
  a bucket table of iterators into that list. The model covers:
  - inserting by key, by hint and by range;
  - registering and unregistering iterators in the buckets;
  - `rehash` and `reserve`;
  - `bucket`, `bucket_size`, `clear` and `swap`;
  - the bucket table's `find`, which scans a single bucket.
- **The tree index of the tree-based maps.** The model covers the key
  comparators, including the UID tie-break among equivalent keys of a
  multi-key map. It also covers `nearest_by_key`, which descends the tree
  and stops on a match (unique keys) or keeps going left or right past
  matches (multi keys). Finally it covers `upper_bound`.
- **The multi-key map and the sorted-vector set.** For the multi-key map
  this is erasing every entry of a key, and `merge`. For `FlatSet` it is
  `lower_bound`, `upper_bound`, `nth`, `swap` and the no-op index hooks.

Representation:

- An element list is a Dafny sequence.
- An iterator is a position in that sequence, and `end()` is its length.
- A bucket table is a sequence of buckets. Each bucket is a sequence of
  positions, in the order they were registered; a valid table stores each
  position once.
- A search tree is the value `Tree = Leaf | Node(left, entry, right)`. Its
  entries are positions in the element list.
- The tree is ordered when `Covers(root, 0, n)` holds: its in-order
  traversal is exactly `0 .. n - 1`. The keys must also be strictly
  increasing under the tree comparator. Both are preconditions, because
  the rebalancing code that maintains them is not part of this model.
- Hashing, key equality and comparators are pure functions passed to the
  containers, as the library's constructors take them.

Files:

- `options.dfy`: the optional value that lookups return.
- `ordering.dfy`: comparators, strict weak orderings, sorted sequences and
  the lower/upper bound predicates.
- `hash_buckets.dfy`: the bucket table as values, with its lemmas.
- `hash_set.dfy`: the `HashSet` class.
- `tree_index.dfy`: the tree value and the predicates that tie it to the
  element list.
- `unique_map_tree.dfy`: the unique-key tree search.
- `multi_map_tree.dfy`: the multi-key tree search, the UID counter and
  the multi-key tree's `insert`.
- `multi_map.dfy`: the multi-key map.
- `flat_set.dfy`: the sorted-vector set.

## Model

| member | source | states |
|---|---|---|
| HashBuckets.FirstMatch | ts/src/std/base/hash/_SetHashBuckets.ts:27-29 | the index returned is the first one, in bucket order, whose element equals `key`; it is the bucket's length when none does |
| HashBuckets.Search | ts/src/std/base/hash/_SetHashBuckets.ts:22-32 | `find` looks only in bucket `hash(key) % size()`. A non-end result equals `key`, is stored in that bucket, and no earlier entry of the bucket equals `key`. The result is `end()` exactly when no entry of that bucket equals `key` |
| HashSets.HashSet.Find | ts/src/std/base/hash/_SetHashBuckets.ts:22-32 | the indexed scan with early return computes exactly `Search`; it changes nothing (no `modifies`) |
| HashBuckets.SearchIsMembership | src/container/HashSet.ts:142-145 | on a table that indexes the whole list, `find(key)` is `end()` exactly when no element of the list equals `key` |
| HashSets.HashSet.Has | src/container/HashSet.ts:353-354 | `has(key)` holds exactly when `find(key)` is not `end()` |
| HashSets.HashSet.Bucket | src/container/HashSet.ts:254-257 | `bucket(key)` is a valid bucket index. It is the index `hash(key) % bucket_count()` that `Search` scans |
| HashSets.HashSet.BucketSize | src/container/HashSet.ts:222-225 | in a valid set, `bucket_size(n)` is the number of elements whose hash falls into bucket `n`; a missing bucket `n` is an error (`None`) |
| HashBuckets.BucketCount | src/container/HashSet.ts:222-225 | on a table indexing the first `k` positions, bucket `b` holds exactly as many entries as there are positions below `k` whose element hashes to `b` |
| HashBuckets.StoredOnce | src/container/HashSet.ts:378-382 | a table indexing the first `k` positions stores each of them exactly once and nothing else, so it holds `k` entries in all |
| HashSets.HashSet.constructor | src/container/HashSet.ts:78-95 | a new set is empty, has the given number of empty buckets, holds the given hash and equality, and satisfies the table invariant |
| HashSets.HashSet.HandleInsert | src/container/HashSet.ts:378-382 | the loop registers exactly the iterators `first .. last - 1`, one per step, in order (`RegisterRange`) |
| HashBuckets.RegisterRangeMembers | src/container/HashSet.ts:378-382 | after registering `first .. last - 1`, a bucket holds exactly what it held plus those positions whose element hashes to it |
| HashBuckets.RegisterRangeDistinct | src/container/HashSet.ts:378-382 | registering positions at or past every stored one never stores a position twice in a bucket |
| HashBuckets.RegisterRangeIndexes | src/container/HashSet.ts:378-382 | registering the positions after an indexed prefix makes the table index the whole range, each position stored once |
| HashSets.HashSet.HandleErase | src/container/HashSet.ts:387-391 | the loop unregisters exactly the iterators `first .. last - 1`, one per step, in order (`UnregisterRange`) |
| HashBuckets.UnregisterRangeMembers | src/container/HashSet.ts:387-391 | after unregistering, a bucket holds exactly what it held minus the erased positions that hash to it |
| HashBuckets.WithoutOnce | src/container/HashSet.ts:387-391 | in a bucket that stores each position once, erasing a stored position removes exactly one entry and leaves no repeats |
| HashBuckets.UnregisterRangeIndexes | src/container/HashSet.ts:387-391 | on a full index, every position outside `first .. last - 1` stays registered in its bucket, and the erased positions are in no bucket |
| HashSets.HashSet.RebuildTable | src/container/HashSet.ts:288 | the bucket table's `rehash(n)` rebuilds the table with `max(n, 1)` buckets and re-registers every stored position; a valid set stays valid |
| HashBuckets.PlaceDistinct | src/container/HashSet.ts:288 | re-registering distinct positions into buckets that hold none of them stores none twice |
| HashBuckets.RebucketIndexes | src/container/HashSet.ts:283-289 | rebuilding the table with any positive number of buckets keeps it an index of the same positions, each stored once |
| HashBuckets.RebucketKeepsEntries | src/container/HashSet.ts:283-289 | rebuilding the table keeps its entries exactly: the same positions with the same multiplicities, so none is lost or duplicated and their number is unchanged |
| HashSets.HashSet.Reserve | src/container/HashSet.ts:275-278 | `reserve(n)` rebuilds the table with `n * max_load_factor` buckets, unconditionally; a valid set stays valid |
| HashSets.HashSet.Rehash | src/container/HashSet.ts:283-289 | with `n <= bucket_count()` the buckets are unchanged. Otherwise the table is rebuilt with exactly `n` buckets. Either way the table still indexes every element, and it holds the same entries as before, one per element, none lost or duplicated |
| HashSets.HashSet.InsertByKey | src/container/HashSet.ts:302-317 | if `find(key)` names an element, that iterator is returned with `false` and neither the list nor the buckets change. Otherwise `key` is appended as the last element, registered in its bucket and returned with `true`, so the size grows by one. The table still indexes every element, and a set without equal elements stays so |
| HashBuckets.AppendIndexes | src/container/HashSet.ts:310-314 | appending a key `find` did not find, then registering its position, keeps the table a full index and the list free of equal elements |
| HashSets.HashSet.InsertByHint | src/container/HashSet.ts:322-335 | if `find(key)` names an element, it is returned and nothing changes. Otherwise `key` is placed immediately before `hint`, every stored iterator still names its element, the new one is registered and returned, and uniqueness is kept |
| HashBuckets.InsertAtIndexes | src/container/HashSet.ts:329-332 | after an insertion before `hint`, each renumbered position in the table names the same element as before, and with the new position registered the table indexes the whole list |
| HashBuckets.ShiftRegisterDistinct | src/container/HashSet.ts:329-332 | renumbering the table for an insertion before `hint` and registering the new position stores no position twice |
| HashBuckets.InsertAtFull | src/container/HashSet.ts:329-332 | the index and uniqueness facts `InsertByHint` needs about inserting before `hint` and registering that one position |
| HashBuckets.InsertAtKeepsUnique | src/container/HashSet.ts:325-329 | inserting, anywhere, a key that `find` does not find keeps the list free of equal elements |
| HashBuckets.Unseen | src/container/HashSet.ts:350-358 | every value a range insert appends comes from the input, and it appends no more values than the input holds |
| HashBuckets.UnseenStep | src/container/HashSet.ts:350-358 | one loop step appends the next value exactly when its lookup, in the list so far against the table as the call found it, gives `end()` |
| HashSets.HashSet.AppendUnseen | src/container/HashSet.ts:350-358 | the insertion loop appends exactly `Unseen(items)` and leaves the table as the call found it |
| HashBuckets.SearchExtended | src/container/HashSet.ts:353 | appending to the list changes the lookup result only in where `end()` is |
| HashBuckets.UnseenAbsent | src/container/HashSet.ts:353-357 | no appended value equals an element that was present before the call |
| HashBuckets.RangeInsertAbsent | src/container/HashSet.ts:347-358 | every appended position holds a value unequal to every pre-existing element |
| HashBuckets.GrowAndRegisterIndexes | src/container/HashSet.ts:365-369 | whether or not the table grew, registering the appended suffix makes it index the whole list |
| HashSets.HashSet.InsertByRange | src/container/HashSet.ts:340-370 | the range insert as written. It appends exactly the values whose lookup failed at test time. When the size then exceeds the capacity, the table is rebuilt for `max(size, capacity * 2)` elements. Only the appended suffix is registered, so the table indexes the whole list. No value present before the call is appended again |
| HashBuckets.RangeInsertKeepsDuplicates | src/container/HashSet.ts:350-358 | concrete case: inserting `[7, 7]` into an empty one-bucket set appends 7 twice, so the list is no longer free of equal elements |
| HashSets.HashSet.InsertByRangeUnique | src/container/HashSet.ts:340-370 | the range insert with each value looked up in an up-to-date table. Earlier elements are kept, and every appended value comes from the input. Every input value ends up present or equal to an element. The list stays free of equal elements and the table still indexes every element |
| HashSets.HashSet.Clear | src/container/HashSet.ts:103-108 | every bucket is empty (the bucket count is kept) and the element list is empty |
| HashSets.HashSet.Swap | src/container/HashSet.ts:113-122 | the two sets exchange their element lists and their bucket tables, with the hash, equality and load factor those carry; both stay valid |
| UniqueTrees.Nearest | src/base/tree/_UniqueMapTree.ts:36-67 | `None` exactly for an empty tree. The result is a valid position. At a node whose key is equivalent to `key` the descent stops on that node |
| UniqueTrees.NearestByKey | src/base/tree/_UniqueMapTree.ts:36-67 | the `while (true)` descent, left when `key` is before the node's key and right when after, returns exactly `Nearest` |
| UniqueTrees.NearestSplitsWithin | src/base/tree/_UniqueMapTree.ts:53-66 | inside a subtree whose surroundings are before and after `key`, the node found splits the whole list: every earlier key is before `key` and every later key is after it |
| UniqueTrees.NearestSplits | src/base/tree/_UniqueMapTree.ts:36-67 | in an ordered tree, `nearest_by_key` is `null` exactly when the map is empty. Every key before the node found is before `key`, and every key after it is after `key` |
| UniqueTrees.NearestFindsEquivalent | src/base/tree/_UniqueMapTree.ts:57-58 | in an ordered tree holding a key equivalent to `key`, `nearest_by_key` returns that entry |
| UniqueTrees.UpperBound | src/base/tree/_UniqueMapTree.ts:69-82 | `end()` for an empty tree; in an ordered tree, the first position whose key is after `key`, or `end()` |
| MultiTrees.EntryOrderIsStrict | src/base/tree/_MultiMapTree.ts:28-36 | the tree comparator (keys by `comp`, equivalent keys by UID) is a strict weak ordering, and it orders any two entries with different UIDs: a strict total order on distinct iterators |
| MultiTrees.SortedKeysNonDecreasing | src/base/tree/_MultiMapTree.ts:28-36 | entries sorted by the tree comparator have keys in non-decreasing order |
| MultiTrees.Descend | src/base/tree/_MultiMapTree.ts:63-91 | the descent returns a valid position. Once an equivalent node has been met, the result is that node or another equivalent one |
| MultiTrees.NearestFrom | src/base/tree/_MultiMapTree.ts:56-58 | `_Nearest_by_key` is `null` exactly for an empty tree, and otherwise a valid position |
| MultiTrees.NearestByKeyFrom | src/base/tree/_MultiMapTree.ts:50-92 | the loop that records the last equivalent node and moves by `equal_mover` returns exactly `NearestFrom` |
| MultiTrees.NearestByKey | src/base/tree/_MultiMapTree.ts:94-100 | `nearest_by_key` is the descent that moves left on an equivalent key |
| MultiTrees.DescendLeftWithin | src/base/tree/_MultiMapTree.ts:63-91 | for the left-moving descent inside a subtree, every key before the result is before `key` and every key after it is not. Either the result is equivalent to `key`, or every later key is after it |
| MultiTrees.NearestByKeyFirstMatch | src/base/tree/_MultiMapTree.ts:94-100 | in an ordered tree, `nearest_by_key` is `null` exactly for an empty map. Every earlier entry has a key before `key`. The entry found is equivalent to `key` exactly when the map holds such a key, and it is then the equivalent entry with the smallest UID |
| MultiTrees.DescendRightWithin | src/base/tree/_MultiMapTree.ts:105-109 | for the right-moving descent inside a subtree, every key before the result is not after `key` and every key after it is after `key` |
| MultiTrees.UpperBound | src/base/tree/_MultiMapTree.ts:102-119 | `end()` for an empty tree; in an ordered tree, the first position whose key is after `key`, or `end()` |
| MultiTrees.UidIssuer.constructor | src/base/Global.ts:23-24 | the global UID counter starts at 0, with no UID issued |
| MultiTrees.UidIssuer.GetUid | src/base/tree/_MultiMapTree.ts:43 | an iterator that already has a UID keeps it, and nothing changes. Otherwise it gets the incremented counter. UIDs stay distinct and between 1 and the counter |
| MultiTrees.IssuedUidsOrderEntries | src/base/tree/_MultiMapTree.ts:28-36 | when every entry of the list carries the UID the counter issued to its iterator, the tree comparator orders any two distinct entries one way or the other, so equivalent keys never tie |
| MultiTrees.MultiMapTree.constructor | src/base/tree/_MultiMapTree.ts:25-38 | an empty node set holding the given key comparator and UID counter |
| MultiTrees.MultiMapTree.Insert | src/base/tree/_MultiMapTree.ts:40-45 | the iterator's UID is issued before it joins the tree, so every node has a UID that no other node shares, and no UID issued earlier changes; an iterator already holding a UID leaves the counter and UID map as they were, and a new one receives the incremented counter, larger than every UID issued before, so equivalent keys keep their insertion order |
| MultiMaps.FindFirst | src/base/container/MultiMap.ts:88 | `find(key)` is the first entry whose key equals `key`, or `end()` when none does |
| MultiMaps.RunEnd | src/base/container/MultiMap.ts:95-99 | the run of equal keys from `from` stops at `end()` or at the first entry whose key differs |
| MultiMaps.RunIsEveryMatch | src/base/container/MultiMap.ts:86-102 | in a map sorted by a strict weak ordering whose equivalence is the key equality, the run starting at `find(key)` holds exactly the entries whose key equals `key` |
| MultiMaps.MultiMap.EraseByKey | src/base/container/MultiMap.ts:86-102 | returns 0 and changes nothing when `find(key)` is `end()`. Otherwise it returns the length `k >= 1` of the run starting at `find(key)`, erases exactly that run, keeps every other entry in order, and the size drops by `k` |
| MultiMaps.MultiMap.Clear | src/base/container/MultiMap.ts:113 | the map holds no entry |
| MultiMaps.MultiMap.Merge | src/base/container/MultiMap.ts:110-114 | afterwards `source` is empty, and this map holds its former entries plus every entry of `source` (as a multiset, with the sizes added) |
| FlatSets.LowerBoundIn | src/experimental/container/FlatSet.ts:119-122 | the binary search returns the first position whose key is not before `key`, or `end()` |
| FlatSets.UpperBoundIn | src/experimental/container/FlatSet.ts:127-130 | the binary search returns the first position whose key is after `key`, or `end()` |
| FlatSets.LowerBoundUnique | src/experimental/container/FlatSet.ts:119-122 | the lower bound of a key is a single position |
| FlatSets.UpperBoundUnique | src/experimental/container/FlatSet.ts:127-130 | the upper bound of a key is a single position |
| FlatSets.BoundsEnclose | src/experimental/container/FlatSet.ts:119-130 | in a strictly increasing vector, `lower_bound <= upper_bound <= lower_bound + 1`, and the positions between them are exactly those whose key is equivalent to `key` |
| FlatSets.BoundsOfElement | src/experimental/container/FlatSet.ts:119-130 | the key at position `p` has its lower bound at `p` and its upper bound at `p + 1` |
| FlatSets.FlatSet.constructor | src/experimental/container/FlatSet.ts:63-82 | an empty set holding the given comparator |
| FlatSets.FlatSet.LowerBound | src/experimental/container/FlatSet.ts:119-122 | `lower_bound(key)` is the first position whose key is not before `key`, or `end()` |
| FlatSets.FlatSet.UpperBound | src/experimental/container/FlatSet.ts:127-130 | `upper_bound(key)` is the first position whose key is after `key`, or `end()` |
| FlatSets.NthRoundTrip | src/experimental/container/FlatSet.ts:103-106 | `nth(p)` designates position `p`: `lower_bound` of its element is `p` and `upper_bound` is `p + 1` |
| FlatSets.BoundsOfKey | src/experimental/container/FlatSet.ts:119-130 | in a valid set, `lower_bound(key) <= upper_bound(key) <= lower_bound(key) + 1`, and the positions between them are exactly those holding a key equivalent to `key`, so there is at most one |
| FlatSets.FlatSet.HandleInsert | src/experimental/container/FlatSet.ts:138 | `_Handle_insert` changes nothing: the vector is the only index |
| FlatSets.FlatSet.HandleErase | src/experimental/container/FlatSet.ts:143 | `_Handle_erase` changes nothing |
| FlatSets.FlatSet.Swap | src/experimental/container/FlatSet.ts:87-95 | the two sets exchange their vectors and comparators, nothing else, and both stay valid |

## Left out

- HashSets.HashSet.InsertByRange: claims only that no value present before the call is appended again. It does not claim the list stays free of equal elements, because values repeated within the input range are appended twice (see Findings).
- HashSets.HashSet.Bucket: its contract states the index range. The formula `hash(key) % bucket_count()` is stated once, in `HashBuckets.Index`, which `Search` uses.
- HashSets.HashSet.Reserve: `max_load_factor` is a floating-point number in the library, and `reserve` takes the ceiling of `n * max_load_factor`. The model takes a positive integer load factor, so the ceiling is the product. The product (not a quotient) is kept as the code has it. `load_factor`, `max_load_factor`, `hash_function`, `key_eq` and `bucket_count` (which is `|buckets|`) are plain accessors with no member of their own.
- Hash values are natural numbers. The library's `%` gives a negative bucket index for a negative hash, and that case is not modelled.
- The internals of the bucket table (`_SetHashBuckets`: `insert`, `erase`, `rehash`, `capacity`, `clear`) are not part of this model. They are modelled as follows:
  - `insert` appends the position to bucket `hash % count`;
  - `erase` removes the position from its bucket;
  - `rehash(n)` builds `max(n, 1)` empty buckets and re-registers the stored positions in bucket order;
  - `capacity` is `bucket_count * max_load_factor`;
  - `clear` empties every bucket and keeps their number.
- The bucket table's automatic growth is not modelled. In the library, an insert that would push the load factor past `max_load_factor` makes the bucket table rehash itself. The model's table `insert` never grows the table, and the set invariant does not bound `size() / bucket_count()`. Only the explicit growth of the range insert is modelled.
- The legacy `find` uses the library's global `hash` and `equal_to`. The model passes the container's hash and equality instead, as the current `HashSet` does.
- The element lists (`SetElementList`, `MapElementList`, `SetElementVector`) and the `lower_bound`/`upper_bound` algorithms are not part of this model. Lists are sequences; an iterator is a position, and a linked-list insertion that leaves other iterators valid is a renumbering (`Shift`). The bound algorithms are binary searches with the standard meaning.
- Bucket-local iteration (`begin(index)`, `end(index)`, `rbegin(index)`, `rend(index)`) is left out. `end(index)` is the list successor of the bucket's last element, not a bucket range, and it fails on an empty bucket.
- Constructor overloads (copy, range, initializer list) and their argument dispatch are left out. The constructor takes the hash, equality, bucket count and load factor directly.
- MultiTrees.MultiMapTree.constructor: the class holds the node set, the key comparator and the UID counter, not the search tree. The UIDs the counter issues are tied to the `uid` of list entries by `Tagged` and `IssuedUidsOrderEntries`, as a precondition on the list rather than a field of the class.
- The unique-key tree comparator (comparing two iterators by `comp` on their keys) has no member of its own. The unique-key tree is searched over the keys directly, so that comparator is `comp`.
- MultiTrees.EntryLess: carries no contract; what it guarantees is stated by `EntryOrderIsStrict`.
- Red-black rebalancing, node colours and parent links are not part of this model. A tree's ordering is a precondition, and `MultiTrees.MultiMapTree.Insert` models the UID issue and the node set, not where the node lands.
- `get_uid` is not part of this model. It is modelled as issuing the incremented global counter on an iterator's first use and returning the stored UID afterwards.
- MultiMaps.MultiMap.Merge: requires `source` to be a different map, and its contract is a multiset. Where each entry lands is decided by the map's own range insert, which is not part of this model, so the model appends. Merging a map into itself is left out.
- The multi-key map's `find` is modelled as the first entry in list order whose key equals `key`. `RunIsEveryMatch` shows that in a sorted map this is the start of the run of equal keys. The range erase it calls is modelled as removing that slice, without its index hooks.
- `FlatSet` insertion and erasure into the vector are not part of this model, nor are the binary-search routines they use.
- Concurrency primitives (`Semaphore`, `SharedMutex`), the `swap` forwarder in `functional.ts` and host-global detection in `Global.ts` are left out. They are asynchronous or host-specific, and the UID counter from `Global.ts` is modelled as a plain field.

## Findings

| source | as written | input that shows it | evidently intended | confidence | as-written member | corrected member |
|---|---|---|---|---|---|---|
| src/container/HashSet.ts:350-369 | the range insert tests each value with `has`, which consults the bucket table. Values appended earlier in the same call are only registered after the loop, so a value repeated in the input range is appended again | an empty set with one bucket, `insert([7, 7])`: the element list becomes `[7, 7]` | a unique-key set never holds two equal elements | not executed | HashBuckets.RangeInsertKeepsDuplicates | HashSets.HashSet.InsertByRangeUnique |
