/**
 * Comparators and sorted sequences shared by the tree index, the multi-key
 * containers and the sorted-vector set.
 *
 * A comparator `comp(x, y)` says that `x` is placed before `y`; two keys are
 * equivalent when neither is placed before the other.
 */
module Ordering {

  /** Neither key is placed before the other. */
  predicate Equivalent<K>(comp: (K, K) -> bool, x: K, y: K) {
    !comp(x, y) && !comp(y, x)
  }

  /**
   * `comp` is a strict weak ordering: irreflexive, transitive, and negatively
   * transitive (if `x` precedes `z`, every `y` either follows `x` or precedes `z`).
   */
  ghost predicate StrictWeakOrder<K(!new)>(comp: (K, K) -> bool) {
    && (forall x :: !comp(x, x))
    && (forall x, y, z :: comp(x, y) && comp(y, z) ==> comp(x, z))
    && (forall x, y, z :: comp(x, z) ==> comp(x, y) || comp(y, z))
  }

  /** Every key is strictly before every later key: the order of a unique-key container. */
  ghost predicate StrictlySorted<K>(s: seq<K>, comp: (K, K) -> bool) {
    forall i, j :: 0 <= i < j < |s| ==> comp(s[i], s[j])
  }

  /** No key is strictly before an earlier key: the order of a multi-key container. */
  ghost predicate NonDecreasing<K>(s: seq<K>, comp: (K, K) -> bool) {
    forall i, j :: 0 <= i < j < |s| ==> !comp(s[j], s[i])
  }

  /** `i` is the first position whose key is not before `key`, or `|s|` (end). */
  ghost predicate IsLowerBound<K>(s: seq<K>, comp: (K, K) -> bool, key: K, i: nat) {
    && i <= |s|
    && (forall j :: 0 <= j < i ==> comp(s[j], key))
    && (i < |s| ==> !comp(s[i], key))
  }

  /** `i` is the first position whose key is after `key`, or `|s|` (end). */
  ghost predicate IsUpperBound<K>(s: seq<K>, comp: (K, K) -> bool, key: K, i: nat) {
    && i <= |s|
    && (forall j :: 0 <= j < i ==> !comp(key, s[j]))
    && (i < |s| ==> comp(key, s[i]))
  }

  /** A strictly sorted sequence is non-decreasing. */
  lemma StrictlySortedIsNonDecreasing<K(!new)>(s: seq<K>, comp: (K, K) -> bool)
    requires StrictWeakOrder(comp) && StrictlySorted(s, comp)
    ensures NonDecreasing(s, comp)
  {
  }
}
