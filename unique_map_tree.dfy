/**
 * Searching the tree of a unique-key map.
 *
 * The tree comparator orders two iterators by `comp` on their keys, so a
 * tree whose in-order traversal is the element list is ordered exactly when
 * the keys of the list are strictly increasing under `comp`.
 */
module UniqueTrees {
  import opened Options
  import opened Ordering
  import opened TreeIndex

  /** The tree indexes the whole element list, whose keys are strictly increasing. */
  ghost predicate Ordered<K>(root: Tree, keys: seq<K>, comp: (K, K) -> bool) {
    Covers(root, 0, |keys|) && StrictlySorted(keys, comp)
  }

  /**
   * The node `nearest_by_key` stops at: descending from `t`, left when `key`
   * is before the node's key, right when it is after, it stops on the first
   * node whose key is equivalent, or on the node whose required child is
   * missing. `None` for an empty tree.
   */
  function Nearest<K>(t: Tree, keys: seq<K>, comp: (K, K) -> bool, key: K): (r: Option<nat>)
    requires Below(t, |keys|)
    ensures r.None? <==> t.Leaf?
    ensures r.Some? ==> r.value < |keys|
    ensures t.Node? && Equivalent(comp, key, keys[t.entry]) ==> r == Some(t.entry)
  {
    match t
    case Leaf => None
    case Node(l, e, rt) =>
      if comp(key, keys[e]) then (if l.Leaf? then Some(e) else Nearest(l, keys, comp, key))
      else if comp(keys[e], key) then (if rt.Leaf? then Some(e) else Nearest(rt, keys, comp, key))
      else Some(e)
  }

  /** `nearest_by_key(key)`: the descent of `Nearest`, one node per step. */
  method NearestByKey<K>(root: Tree, keys: seq<K>, comp: (K, K) -> bool, key: K) returns (r: Option<nat>)
    requires Below(root, |keys|)
    ensures r == Nearest(root, keys, comp, key)
  {
    if root.Leaf? {
      return None;
    }
    var ret := root;
    while true
      invariant ret.Node? && Below(ret, |keys|)
      invariant Nearest(ret, keys, comp, key) == Nearest(root, keys, comp, key)
      decreases ret
    {
      var it := ret.entry;
      var next: Tree;
      if comp(key, keys[it]) {
        next := ret.left;
      } else if comp(keys[it], key) {
        next := ret.right;
      } else {
        return Some(it);
      }
      if next.Leaf? {
        break;
      }
      ret := next;
    }
    return Some(ret.entry);
  }

  /**
   * Below a subtree covering `lo` .. `hi - 1` whose surroundings are already
   * known to be before and after `key`, the node found splits the whole list:
   * every earlier key is before `key`, every later key after it.
   */
  lemma {:induction false} NearestSplitsWithin<K(!new)>(t: Tree, keys: seq<K>, comp: (K, K) -> bool, key: K, lo: nat, hi: nat)
    requires StrictWeakOrder(comp) && StrictlySorted(keys, comp)
    requires Covers(t, lo, hi) && lo < hi <= |keys|
    requires forall i :: 0 <= i < lo ==> comp(keys[i], key)
    requires forall i :: hi <= i < |keys| ==> comp(key, keys[i])
    ensures Below(t, |keys|)
    ensures var r := Nearest(t, keys, comp, key).value;
      && lo <= r < hi
      && (forall i :: 0 <= i < r ==> comp(keys[i], key))
      && (forall i :: r < i < |keys| ==> comp(key, keys[i]))
  {
    CoversBelow(t, lo, hi);
    BelowMonotone(t, hi, |keys|);
    var e := t.entry;
    CoversBelow(t.left, lo, e);
    CoversBelow(t.right, e + 1, hi);
    if comp(key, keys[e]) {
      if t.left.Node? {
        NearestSplitsWithin(t.left, keys, comp, key, lo, e);
      }
    } else if comp(keys[e], key) {
      if t.right.Node? {
        NearestSplitsWithin(t.right, keys, comp, key, e + 1, hi);
      }
    }
  }

  /**
   * In an ordered tree the node `nearest_by_key` returns splits the element
   * list around `key`; it is absent exactly when the map is empty.
   */
  lemma NearestSplits<K(!new)>(root: Tree, keys: seq<K>, comp: (K, K) -> bool, key: K)
    requires StrictWeakOrder(comp) && Ordered(root, keys, comp)
    ensures Below(root, |keys|)
    ensures var r := Nearest(root, keys, comp, key);
      && (r.None? <==> |keys| == 0)
      && (r.Some? ==>
            && (forall i :: 0 <= i < r.value ==> comp(keys[i], key))
            && (forall i :: r.value < i < |keys| ==> comp(key, keys[i])))
  {
    CoversBelow(root, 0, |keys|);
    if root.Node? {
      NearestSplitsWithin(root, keys, comp, key, 0, |keys|);
    }
  }

  /**
   * In an ordered tree, the node found holds a key equivalent to `key`
   * exactly when the map holds one, and it is then that entry.
   */
  lemma NearestFindsEquivalent<K(!new)>(root: Tree, keys: seq<K>, comp: (K, K) -> bool, key: K, i: nat)
    requires StrictWeakOrder(comp) && Ordered(root, keys, comp)
    requires i < |keys| && Equivalent(comp, keys[i], key)
    ensures Below(root, |keys|)
    ensures Nearest(root, keys, comp, key) == Some(i)
  {
    NearestSplits(root, keys, comp, key);
  }

  /**
   * `upper_bound(key)`: `end()` for an empty tree; otherwise the node found
   * if `key` is before its key, else the next position in the list. In an
   * ordered tree this is the first position whose key is after `key`.
   */
  method UpperBound<K(!new)>(root: Tree, keys: seq<K>, comp: (K, K) -> bool, key: K) returns (u: nat)
    requires Below(root, |keys|)
    ensures u <= |keys|
    ensures root.Leaf? ==> u == |keys|
    ensures StrictWeakOrder(comp) && Ordered(root, keys, comp) ==> IsUpperBound(keys, comp, key, u)
  {
    var node := NearestByKey(root, keys, comp, key);
    if node.None? {
      return |keys|;
    }
    var it := node.value;
    if comp(key, keys[it]) {
      u := it;
    } else {
      u := it + 1;
    }
    if StrictWeakOrder(comp) && Ordered(root, keys, comp) {
      NearestSplits(root, keys, comp, key);
    }
  }
}
