/**
 * The sorted-vector set: a unique-key set whose only index is its element
 * vector, kept strictly increasing under the set's comparator.
 *
 * An iterator is a position in the vector, `|data|` being `end()`. The
 * bounds are binary searches over the whole vector.
 */
module FlatSets {
  import opened Ordering

  /**
   * Binary search for the lower bound between `lo` and `hi`, the keys before
   * `lo` being known to be before `key` and those from `hi` on not.
   */
  function LowerBoundIn<K(!new)>(s: seq<K>, comp: (K, K) -> bool, key: K, lo: nat, hi: nat): (i: nat)
    requires StrictWeakOrder(comp) && NonDecreasing(s, comp)
    requires lo <= hi <= |s|
    requires forall j :: 0 <= j < lo ==> comp(s[j], key)
    requires forall j :: hi <= j < |s| ==> !comp(s[j], key)
    ensures lo <= i <= hi
    ensures IsLowerBound(s, comp, key, i)
    decreases hi - lo
  {
    if lo == hi then lo
    else
      var mid := (lo + hi) / 2;
      if comp(s[mid], key) then LowerBoundIn(s, comp, key, mid + 1, hi)
      else LowerBoundIn(s, comp, key, lo, mid)
  }

  /**
   * Binary search for the upper bound between `lo` and `hi`, the keys before
   * `lo` being known not to be after `key` and those from `hi` on after it.
   */
  function UpperBoundIn<K(!new)>(s: seq<K>, comp: (K, K) -> bool, key: K, lo: nat, hi: nat): (i: nat)
    requires StrictWeakOrder(comp) && NonDecreasing(s, comp)
    requires lo <= hi <= |s|
    requires forall j :: 0 <= j < lo ==> !comp(key, s[j])
    requires forall j :: hi <= j < |s| ==> comp(key, s[j])
    ensures lo <= i <= hi
    ensures IsUpperBound(s, comp, key, i)
    decreases hi - lo
  {
    if lo == hi then lo
    else
      var mid := (lo + hi) / 2;
      if comp(key, s[mid]) then UpperBoundIn(s, comp, key, lo, mid)
      else UpperBoundIn(s, comp, key, mid + 1, hi)
  }

  /** A sequence has at most one lower bound for a key. */
  lemma LowerBoundUnique<K>(s: seq<K>, comp: (K, K) -> bool, key: K, i: nat, j: nat)
    requires IsLowerBound(s, comp, key, i) && IsLowerBound(s, comp, key, j)
    ensures i == j
  {
  }

  /** A sequence has at most one upper bound for a key. */
  lemma UpperBoundUnique<K>(s: seq<K>, comp: (K, K) -> bool, key: K, i: nat, j: nat)
    requires IsUpperBound(s, comp, key, i) && IsUpperBound(s, comp, key, j)
    ensures i == j
  {
  }

  /**
   * In a strictly increasing sequence the lower bound is at most the upper
   * bound, the positions between them are exactly those whose key is
   * equivalent to `key`, and there is at most one such position.
   */
  lemma BoundsEnclose<K(!new)>(s: seq<K>, comp: (K, K) -> bool, key: K, lb: nat, ub: nat)
    requires StrictWeakOrder(comp) && StrictlySorted(s, comp)
    requires IsLowerBound(s, comp, key, lb) && IsUpperBound(s, comp, key, ub)
    ensures lb <= ub <= lb + 1
    ensures forall p :: 0 <= p < |s| ==> (lb <= p < ub <==> Equivalent(comp, s[p], key))
  {
    if ub < |s| {
      Asymmetric(comp, s[ub], key);
    }
    if lb + 1 < |s| {
      AtMostOneEquivalent(s, comp, key, lb, lb + 1);
    }
  }

  /** Under a strict weak ordering no key is both before and after another. */
  lemma Asymmetric<K(!new)>(comp: (K, K) -> bool, x: K, y: K)
    requires StrictWeakOrder(comp)
    ensures !(comp(x, y) && comp(y, x))
  {
  }

  /** Two positions of a strictly increasing sequence never both hold a key equivalent to `key`. */
  lemma AtMostOneEquivalent<K(!new)>(s: seq<K>, comp: (K, K) -> bool, key: K, p: nat, q: nat)
    requires StrictWeakOrder(comp) && StrictlySorted(s, comp) && p < q < |s|
    ensures !(Equivalent(comp, s[p], key) && Equivalent(comp, s[q], key))
  {
  }

  /** The key at position `p` of a strictly increasing sequence has its bounds at `p` and `p + 1`. */
  lemma BoundsOfElement<K(!new)>(s: seq<K>, comp: (K, K) -> bool, p: nat)
    requires StrictWeakOrder(comp) && StrictlySorted(s, comp) && p < |s|
    ensures IsLowerBound(s, comp, s[p], p)
    ensures IsUpperBound(s, comp, s[p], p + 1)
  {
  }

  class FlatSet<K(!new)> {
    var data: seq<K>
    var comp: (K, K) -> bool

    /** The comparator is a strict weak ordering and the vector is strictly increasing under it. */
    ghost predicate Valid()
      reads this
    {
      StrictWeakOrder(comp) && StrictlySorted(data, comp)
    }

    constructor (comp: (K, K) -> bool)
      requires StrictWeakOrder(comp)
      ensures Valid() && data == [] && this.comp == comp
    {
      data := [];
      this.comp := comp;
    }

    /** `lower_bound(key)`: the first position whose key is not before `key`, or `end()`. */
    function LowerBound(key: K): (i: nat)
      reads this
      requires Valid()
      ensures IsLowerBound(data, comp, key, i)
    {
      StrictlySortedIsNonDecreasing(data, comp);
      LowerBoundIn(data, comp, key, 0, |data|)
    }

    /** `upper_bound(key)`: the first position whose key is after `key`, or `end()`. */
    function UpperBound(key: K): (i: nat)
      reads this
      requires Valid()
      ensures IsUpperBound(data, comp, key, i)
    {
      StrictlySortedIsNonDecreasing(data, comp);
      UpperBoundIn(data, comp, key, 0, |data|)
    }

    /** `nth(index)`: the iterator at position `index` of the vector. */
    function Nth(index: nat): nat {
      index
    }

    /** `_Handle_insert(first, last)`: the vector is the only index, so nothing changes. */
    method HandleInsert(first: nat, last: nat)
      ensures unchanged(this)
    {
    }

    /** `_Handle_erase(first, last)`: the vector is the only index, so nothing changes. */
    method HandleErase(first: nat, last: nat)
      ensures unchanged(this)
    {
    }

    /** `swap(other)`: the two sets exchange their vectors and their comparators. */
    method Swap(other: FlatSet<K>)
      requires Valid() && other.Valid()
      modifies this, other
      ensures Valid() && other.Valid()
      ensures data == old(other.data) && other.data == old(data)
      ensures comp == old(other.comp) && other.comp == old(comp)
    {
      data, other.data := other.data, data;
      comp, other.comp := other.comp, comp;
    }
  }

  /**
   * The positional queries agree: the element `nth(p)` designates is found
   * at `p` by `lower_bound`, and `upper_bound` of it is the next position.
   */
  lemma NthRoundTrip<K(!new)>(set_: FlatSet<K>, p: nat)
    requires set_.Valid() && p < |set_.data|
    ensures set_.LowerBound(set_.data[set_.Nth(p)]) == p
    ensures set_.UpperBound(set_.data[set_.Nth(p)]) == p + 1
  {
    BoundsOfElement(set_.data, set_.comp, p);
    LowerBoundUnique(set_.data, set_.comp, set_.data[p], set_.LowerBound(set_.data[p]), p);
    UpperBoundUnique(set_.data, set_.comp, set_.data[p], set_.UpperBound(set_.data[p]), p + 1);
  }

  /**
   * In a valid set `lower_bound(key) <= upper_bound(key)`, the positions
   * between them are exactly those holding a key equivalent to `key`, and
   * there is at most one.
   */
  lemma BoundsOfKey<K(!new)>(set_: FlatSet<K>, key: K)
    requires set_.Valid()
    ensures var lb := set_.LowerBound(key);
      var ub := set_.UpperBound(key);
      && lb <= ub <= lb + 1
      && forall p :: 0 <= p < |set_.data| ==> (lb <= p < ub <==> Equivalent(set_.comp, set_.data[p], key))
  {
    BoundsEnclose(set_.data, set_.comp, key, set_.LowerBound(key), set_.UpperBound(key));
  }
}
