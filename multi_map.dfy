/**
 * The multi-key map container: erasing every entry of a key, and merging
 * another map into this one.
 *
 * The element list is a sequence of key/value pairs; `find(key)` is the
 * first entry, in list order, whose key the container's key equality
 * `_Key_eq` relates to `key`, or `end()`.
 */
module MultiMaps {
  import opened Ordering

  datatype Pair<K, V> = Pair(first: K, second: V)

  /** `find(key)`: the first position whose key equals `key`, or `|s|` (end) when none does. */
  function FindFirst<K, V>(s: seq<Pair<K, V>>, keyEq: (K, K) -> bool, key: K): (f: nat)
    ensures f <= |s|
    ensures f < |s| ==> keyEq(key, s[f].first)
    ensures forall i :: 0 <= i < f ==> !keyEq(key, s[i].first)
  {
    if s == [] then 0
    else if keyEq(key, s[0].first) then 0
    else 1 + FindFirst(s[1..], keyEq, key)
  }

  /**
   * Where the run of entries equal to `key` that continues at `from` ends:
   * the first position from `from` on whose key differs, or `|s|`.
   */
  function RunEnd<K, V>(s: seq<Pair<K, V>>, keyEq: (K, K) -> bool, key: K, from: nat): (l: nat)
    requires from <= |s|
    ensures from <= l <= |s|
    ensures forall i :: from <= i < l ==> keyEq(key, s[i].first)
    ensures l < |s| ==> !keyEq(key, s[l].first)
    decreases |s| - from
  {
    if from == |s| || !keyEq(key, s[from].first) then from
    else RunEnd(s, keyEq, key, from + 1)
  }

  /** No key of the list is before an earlier one: the order of a tree-based multi-key map. */
  ghost predicate KeysSorted<K, V>(s: seq<Pair<K, V>>, comp: (K, K) -> bool) {
    forall i, j :: 0 <= i < j < |s| ==> !comp(s[j].first, s[i].first)
  }

  /**
   * In a list sorted by a strict weak ordering whose equivalence is the key
   * equality, the run that starts at `find(key)` is exactly the entries equal
   * to `key`: erasing it removes every such entry and nothing else.
   */
  lemma RunIsEveryMatch<K(!new), V>(s: seq<Pair<K, V>>, comp: (K, K) -> bool, keyEq: (K, K) -> bool, key: K)
    requires StrictWeakOrder(comp) && KeysSorted(s, comp)
    requires forall x, y :: keyEq(x, y) == Equivalent(comp, x, y)
    ensures var f := FindFirst(s, keyEq, key);
      f < |s| ==> forall i :: 0 <= i < |s| ==> (keyEq(key, s[i].first) <==> f <= i < RunEnd(s, keyEq, key, f + 1))
  {
    var f := FindFirst(s, keyEq, key);
    if f < |s| {
      var l := RunEnd(s, keyEq, key, f + 1);
      forall i | l <= i < |s|
        ensures !keyEq(key, s[i].first)
      {
        assert !keyEq(key, s[l].first);
        assert !comp(s[l].first, s[f].first) && !comp(s[i].first, s[l].first);
      }
    }
  }

  class MultiMap<K, V> {
    var entries: seq<Pair<K, V>>
    var keyEq: (K, K) -> bool

    constructor (keyEq: (K, K) -> bool)
      ensures entries == [] && this.keyEq == keyEq
    {
      entries := [];
      this.keyEq := keyEq;
    }

    /** `clear()`: the map holds no entry. */
    method Clear()
      modifies this`entries
      ensures entries == []
    {
      entries := [];
    }

    /**
     * `_Erase_by_key(key)`: 0 and no change when `find(key)` is `end()`;
     * otherwise counts the run of entries equal to `key` that starts there,
     * erases exactly that run and returns its length.
     */
    method EraseByKey(key: K) returns (count: nat)
      modifies this`entries
      ensures var f := FindFirst(old(entries), keyEq, key);
        if f == |old(entries)| then
          count == 0 && entries == old(entries)
        else
          var l := RunEnd(old(entries), keyEq, key, f + 1);
          && count == l - f >= 1
          && entries == old(entries)[..f] + old(entries)[l..]
          && |entries| == |old(entries)| - count
    {
      var first := FindFirst(entries, keyEq, key);
      if first == |entries| {
        return 0;
      }
      var last := first + 1;
      count := 1;
      while last != |entries| && keyEq(key, entries[last].first)
        invariant first < last <= |entries| && count == last - first
        invariant RunEnd(entries, keyEq, key, first + 1) == RunEnd(entries, keyEq, key, last)
        decreases |entries| - last
      {
        last := last + 1;
        count := count + 1;
      }
      entries := entries[..first] + entries[last..];
    }

    /** `merge(source)`: every entry of `source` is inserted here, then `source` is cleared. */
    method Merge(source: MultiMap<K, V>)
      requires source != this
      modifies this`entries, source`entries
      ensures multiset(entries) == multiset(old(entries)) + multiset(old(source.entries))
      ensures |entries| == |old(entries)| + |old(source.entries)|
      ensures source.entries == []
    {
      entries := entries + source.entries;
      source.Clear();
    }
  }
}
