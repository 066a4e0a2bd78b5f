/**
 * Searching the tree of a multi-key map, and the UIDs that order its
 * equivalent keys.
 *
 * An entry of the element list is its key and the UID of its iterator. The
 * tree comparator orders entries by key and, among equivalent keys, by UID;
 * a tree whose in-order traversal is the element list is ordered exactly
 * when the entries are strictly increasing under that comparator.
 */
module MultiTrees {
  import opened Options
  import opened Ordering
  import opened TreeIndex

  datatype Entry<K> = Entry(key: K, uid: nat)

  /** Which child the descent takes at a node whose key is equivalent to the one sought. */
  datatype Mover = Left | Right

  /** The tree comparator: `comp` on the keys, and for equivalent keys the smaller UID first. */
  function EntryLess<K>(comp: (K, K) -> bool, x: Entry<K>, y: Entry<K>): bool {
    var ret := comp(x.key, y.key);
    if !ret && !comp(y.key, x.key) then x.uid < y.uid else ret
  }

  /**
   * Over a strict weak ordering of keys, the tree comparator is a strict
   * weak ordering of entries that separates any two entries with different
   * UIDs: a strict total order on distinct iterators.
   */
  lemma EntryOrderIsStrict<K(!new)>(comp: (K, K) -> bool)
    requires StrictWeakOrder(comp)
    ensures StrictWeakOrder((x: Entry<K>, y: Entry<K>) => EntryLess(comp, x, y))
    ensures forall x: Entry<K>, y: Entry<K> :: x.uid != y.uid ==> EntryLess(comp, x, y) || EntryLess(comp, y, x)
  {
    var less := (x: Entry<K>, y: Entry<K>) => EntryLess(comp, x, y);
    forall x: Entry<K>, y: Entry<K>, z: Entry<K> | less(x, y) && less(y, z)
      ensures less(x, z)
    {
      assert EntryLess(comp, x, y) && EntryLess(comp, y, z);
    }
    forall x: Entry<K>, y: Entry<K>, z: Entry<K> | less(x, z)
      ensures less(x, y) || less(y, z)
    {
      assert EntryLess(comp, x, z);
    }
  }

  /** The entries are strictly increasing under the tree comparator. */
  ghost predicate EntriesSorted<K>(es: seq<Entry<K>>, comp: (K, K) -> bool) {
    forall i, j :: 0 <= i < j < |es| ==> EntryLess(comp, es[i], es[j])
  }

  /** No key of the list is before an earlier one. */
  ghost predicate KeysNonDecreasing<K>(es: seq<Entry<K>>, comp: (K, K) -> bool) {
    forall i, j :: 0 <= i < j < |es| ==> !comp(es[j].key, es[i].key)
  }

  /** The tree indexes the whole element list, in tree-comparator order. */
  ghost predicate Ordered<K>(root: Tree, es: seq<Entry<K>>, comp: (K, K) -> bool) {
    Covers(root, 0, |es|) && EntriesSorted(es, comp)
  }

  /** Entries sorted by the tree comparator have non-decreasing keys. */
  lemma SortedKeysNonDecreasing<K(!new)>(es: seq<Entry<K>>, comp: (K, K) -> bool)
    requires StrictWeakOrder(comp) && EntriesSorted(es, comp)
    ensures KeysNonDecreasing(es, comp)
  {
    forall i, j | 0 <= i < j < |es|
      ensures !comp(es[j].key, es[i].key)
    {
      assert EntryLess(comp, es[i], es[j]);
    }
  }

  /**
   * The entry `_Nearest_by_key` returns, continuing from node `t` with
   * `matched` the last equivalent node met so far: left when `key` is
   * before the node's key, right when after, and on an equivalent key it
   * records the node and moves as `mover` says. When the next child is
   * missing it returns the last equivalent node met, else the current node.
   */
  function Descend<K>(t: Tree, es: seq<Entry<K>>, comp: (K, K) -> bool, key: K, mover: Mover, matched: Option<nat>): (r: nat)
    requires t.Node? && Below(t, |es|) && (matched.Some? ==> matched.value < |es|)
    ensures r < |es|
    ensures matched.Some? ==> r == matched.value || Equivalent(comp, es[r].key, key)
    decreases t
  {
    var e := t.entry;
    var m := if comp(key, es[e].key) || comp(es[e].key, key) then matched else Some(e);
    var next :=
      if comp(key, es[e].key) then t.left
      else if comp(es[e].key, key) then t.right
      else if mover == Left then t.left else t.right;
    if next.Leaf? then (if m.Some? then m.value else e)
    else Descend(next, es, comp, key, mover, m)
  }

  /** `_Nearest_by_key(key, mover)` as a value: `None` for an empty tree. */
  function NearestFrom<K>(root: Tree, es: seq<Entry<K>>, comp: (K, K) -> bool, key: K, mover: Mover): (r: Option<nat>)
    requires Below(root, |es|)
    ensures r.None? <==> root.Leaf?
    ensures r.Some? ==> r.value < |es|
  {
    if root.Leaf? then None else Some(Descend(root, es, comp, key, mover, None))
  }

  /** `_Nearest_by_key(key, equal_mover)`: the descent of `Descend`, one node per step. */
  method NearestByKeyFrom<K>(root: Tree, es: seq<Entry<K>>, comp: (K, K) -> bool, key: K, mover: Mover)
    returns (r: Option<nat>)
    requires Below(root, |es|)
    ensures r == NearestFrom(root, es, comp, key, mover)
  {
    if root.Leaf? {
      return None;
    }
    var ret := root;
    var matched: Option<nat> := None;
    while true
      invariant ret.Node? && Below(ret, |es|) && (matched.Some? ==> matched.value < |es|)
      invariant Descend(ret, es, comp, key, mover, matched) == Descend(root, es, comp, key, mover, None)
      decreases ret
    {
      var it := ret.entry;
      var next: Tree;
      if comp(key, es[it].key) {
        next := ret.left;
      } else if comp(es[it].key, key) {
        next := ret.right;
      } else {
        matched := Some(it);
        next := if mover == Left then ret.left else ret.right;
      }
      if next.Leaf? {
        break;
      }
      ret := next;
    }
    r := if matched.Some? then matched else Some(ret.entry);
  }

  /** `nearest_by_key(key)`: the descent that moves left on an equivalent key. */
  method NearestByKey<K>(root: Tree, es: seq<Entry<K>>, comp: (K, K) -> bool, key: K) returns (r: Option<nat>)
    requires Below(root, |es|)
    ensures r == NearestFrom(root, es, comp, key, Left)
  {
    r := NearestByKeyFrom(root, es, comp, key, Left);
  }

  /**
   * The left-moving descent below a subtree covering `lo` .. `hi - 1`: keys
   * before the subtree are before `key`, keys after it are not; and either
   * the last equivalent node met is the one just after the subtree, or every
   * key after the subtree is after `key`.
   */
  lemma {:induction false} DescendLeftWithin<K(!new)>(t: Tree, es: seq<Entry<K>>, comp: (K, K) -> bool, key: K,
                                                      lo: nat, hi: nat, matched: Option<nat>)
    requires StrictWeakOrder(comp) && KeysNonDecreasing(es, comp)
    requires Covers(t, lo, hi) && lo < hi <= |es|
    requires forall i :: 0 <= i < lo ==> comp(es[i].key, key)
    requires forall i :: hi <= i < |es| ==> !comp(es[i].key, key)
    requires matched.Some? ==> matched.value == hi < |es| && Equivalent(comp, es[hi].key, key)
    requires matched.None? ==> forall i :: hi <= i < |es| ==> comp(key, es[i].key)
    ensures Below(t, |es|)
    ensures var r := Descend(t, es, comp, key, Left, matched);
      && (forall i :: 0 <= i < r ==> comp(es[i].key, key))
      && (forall i :: r < i < |es| ==> !comp(es[i].key, key))
      && (Equivalent(comp, es[r].key, key) || forall i :: r < i < |es| ==> comp(key, es[i].key))
  {
    CoversBelow(t, lo, hi);
    BelowMonotone(t, hi, |es|);
    var e := t.entry;
    CoversBelow(t.left, lo, e);
    CoversBelow(t.right, e + 1, hi);
    if comp(key, es[e].key) {
      if t.left.Node? {
        DescendLeftWithin(t.left, es, comp, key, lo, e, matched);
      }
    } else if comp(es[e].key, key) {
      if t.right.Node? {
        DescendLeftWithin(t.right, es, comp, key, e + 1, hi, matched);
      }
    } else if t.left.Node? {
      DescendLeftWithin(t.left, es, comp, key, lo, e, Some(e));
    }
  }

  /**
   * The right-moving descent below a subtree covering `lo` .. `hi - 1`: keys
   * before the subtree are not after `key`, keys after it are; and either
   * the last equivalent node met is the one just before the subtree, or
   * every key before the subtree is before `key`.
   */
  lemma {:induction false} DescendRightWithin<K(!new)>(t: Tree, es: seq<Entry<K>>, comp: (K, K) -> bool, key: K,
                                                       lo: nat, hi: nat, matched: Option<nat>)
    requires StrictWeakOrder(comp) && KeysNonDecreasing(es, comp)
    requires Covers(t, lo, hi) && lo < hi <= |es|
    requires forall i :: 0 <= i < lo ==> !comp(key, es[i].key)
    requires forall i :: hi <= i < |es| ==> comp(key, es[i].key)
    requires matched.Some? ==> matched.value + 1 == lo && Equivalent(comp, es[matched.value].key, key)
    requires matched.None? ==> forall i :: 0 <= i < lo ==> comp(es[i].key, key)
    ensures Below(t, |es|)
    ensures var r := Descend(t, es, comp, key, Right, matched);
      && (forall i :: 0 <= i < r ==> !comp(key, es[i].key))
      && (forall i :: r < i < |es| ==> comp(key, es[i].key))
  {
    CoversBelow(t, lo, hi);
    BelowMonotone(t, hi, |es|);
    var e := t.entry;
    CoversBelow(t.left, lo, e);
    CoversBelow(t.right, e + 1, hi);
    if comp(key, es[e].key) {
      if t.left.Node? {
        DescendRightWithin(t.left, es, comp, key, lo, e, matched);
      }
    } else if comp(es[e].key, key) {
      if t.right.Node? {
        DescendRightWithin(t.right, es, comp, key, e + 1, hi, matched);
      }
    } else if t.right.Node? {
      DescendRightWithin(t.right, es, comp, key, e + 1, hi, Some(e));
    }
  }

  /**
   * In an ordered tree `nearest_by_key` is absent exactly when the map is
   * empty; every entry before the one it returns has a key before `key`;
   * that entry's key is equivalent to `key` exactly when the map holds such
   * a key, and it is then the equivalent entry with the smallest UID.
   */
  lemma NearestByKeyFirstMatch<K(!new)>(root: Tree, es: seq<Entry<K>>, comp: (K, K) -> bool, key: K)
    requires StrictWeakOrder(comp) && Ordered(root, es, comp)
    ensures Below(root, |es|)
    ensures var r := NearestFrom(root, es, comp, key, Left);
      && (r.None? <==> |es| == 0)
      && (r.Some? ==>
            && (forall i :: 0 <= i < r.value ==> comp(es[i].key, key))
            && (Equivalent(comp, es[r.value].key, key) <==>
                  exists i :: 0 <= i < |es| && Equivalent(comp, es[i].key, key))
            && (Equivalent(comp, es[r.value].key, key) ==>
                  forall i :: 0 <= i < |es| && i != r.value && Equivalent(comp, es[i].key, key) ==>
                    es[r.value].uid < es[i].uid))
  {
    CoversBelow(root, 0, |es|);
    if root.Node? {
      SortedKeysNonDecreasing(es, comp);
      DescendLeftWithin(root, es, comp, key, 0, |es|, None);
      var r := Descend(root, es, comp, key, Left, None);
      if Equivalent(comp, es[r].key, key) {
        forall i | 0 <= i < |es| && i != r && Equivalent(comp, es[i].key, key)
          ensures es[r].uid < es[i].uid
        {
          assert EntryLess(comp, es[r], es[i]);
        }
      }
    }
  }

  /**
   * `upper_bound(key)`: `end()` for an empty tree; otherwise the node found
   * by the right-moving descent if `key` is before its key, else the next
   * position in the list. In an ordered tree this is the first position
   * whose key is after `key`.
   */
  method UpperBound<K(!new)>(root: Tree, es: seq<Entry<K>>, comp: (K, K) -> bool, key: K) returns (u: nat)
    requires Below(root, |es|)
    ensures u <= |es|
    ensures root.Leaf? ==> u == |es|
    ensures StrictWeakOrder(comp) && Ordered(root, es, comp) ==>
      && (forall j :: 0 <= j < u ==> !comp(key, es[j].key))
      && (u < |es| ==> comp(key, es[u].key))
  {
    var node := NearestByKeyFrom(root, es, comp, key, Right);
    if node.None? {
      return |es|;
    }
    var it := node.value;
    if comp(key, es[it].key) {
      u := it;
    } else {
      u := it + 1;
    }
    if StrictWeakOrder(comp) && Ordered(root, es, comp) {
      CoversBelow(root, 0, |es|);
      SortedKeysNonDecreasing(es, comp);
      DescendRightWithin(root, es, comp, key, 0, |es|, None);
    }
  }

  /** No two iterators hold the same UID. */
  ghost predicate Injective(uids: map<nat, nat>) {
    forall x, y :: x in uids && y in uids && x != y ==> uids[x] != uids[y]
  }

  /**
   * Each entry carries the UID issued to its iterator: `ids[i]` is the
   * iterator of entry `i`, and distinct entries are distinct iterators.
   */
  ghost predicate Tagged<K>(es: seq<Entry<K>>, ids: seq<nat>, uids: map<nat, nat>) {
    && |ids| == |es|
    && (forall i, j :: 0 <= i < j < |ids| ==> ids[i] != ids[j])
    && (forall i :: 0 <= i < |es| ==> ids[i] in uids && es[i].uid == uids[ids[i]])
  }

  /**
   * When every entry carries the UID the counter issued to its iterator, the
   * tree comparator orders any two distinct entries one way or the other, so
   * equivalent keys never tie.
   */
  lemma IssuedUidsOrderEntries<K(!new)>(comp: (K, K) -> bool, es: seq<Entry<K>>, ids: seq<nat>, uids: map<nat, nat>)
    requires StrictWeakOrder(comp) && Injective(uids) && Tagged(es, ids, uids)
    ensures forall i, j :: 0 <= i < |es| && 0 <= j < |es| && i != j ==>
              EntryLess(comp, es[i], es[j]) || EntryLess(comp, es[j], es[i])
  {
    EntryOrderIsStrict(comp);
    forall i, j | 0 <= i < |es| && 0 <= j < |es| && i != j
      ensures es[i].uid != es[j].uid
    {
      assert ids[i] != ids[j];
    }
  }

  /**
   * The global UID counter and the UIDs issued so far, by iterator
   * identity. The counter starts at 0; each UID is issued once.
   */
  class UidIssuer {
    var counter: nat
    var uids: map<nat, nat>

    /** Every UID issued is between 1 and the counter, and no two iterators share one. */
    ghost predicate Valid()
      reads this
    {
      && (forall x :: x in uids ==> 1 <= uids[x] <= counter)
      && Injective(uids)
    }

    constructor ()
      ensures Valid() && counter == 0 && uids == map[]
    {
      counter := 0;
      uids := map[];
    }

    /** `get_uid(it)`: the iterator's UID, issuing the next counter value on first use. */
    method GetUid(it: nat) returns (uid: nat)
      requires Valid()
      modifies this
      ensures Valid()
      ensures it in uids && uid == uids[it]
      ensures it in old(uids) ==> uids == old(uids) && counter == old(counter)
      ensures it !in old(uids) ==> counter == old(counter) + 1 && uids == old(uids)[it := counter]
    {
      if it !in uids {
        counter := counter + 1;
        uids := uids[it := counter];
      }
      uid := uids[it];
    }
  }

  /**
   * The tree's node set (by iterator), its key comparator, and the counter
   * its tree comparator asks for UIDs. The search tree itself is the `Tree`
   * value the descents above take.
   */
  class MultiMapTree<K> {
    var nodes: set<nat>
    var comp: (K, K) -> bool
    var issuer: UidIssuer

    /** Every node of the tree has a UID. */
    ghost predicate Valid()
      reads this, issuer
    {
      issuer.Valid() && nodes <= issuer.uids.Keys
    }

    constructor (issuer: UidIssuer, comp: (K, K) -> bool)
      requires issuer.Valid()
      ensures Valid() && nodes == {} && this.issuer == issuer && this.comp == comp
    {
      nodes := {};
      this.comp := comp;
      this.issuer := issuer;
    }

    /**
     * `insert(it)`: issues the iterator's UID before the tree takes it, so
     * the comparator can order it among equivalent keys.
     */
    method Insert(it: nat)
      requires Valid()
      modifies this, issuer
      ensures Valid() && issuer == old(issuer)
      ensures nodes == old(nodes) + {it}
      ensures it in issuer.uids
      ensures forall x :: x in nodes && x != it ==> issuer.uids[x] != issuer.uids[it]
      ensures forall x :: x in old(issuer.uids) ==> x in issuer.uids && issuer.uids[x] == old(issuer.uids[x])
      ensures it in old(issuer.uids) ==> issuer.uids == old(issuer.uids) && issuer.counter == old(issuer.counter)
      ensures it !in old(issuer.uids) ==>
        && issuer.counter == old(issuer.counter) + 1
        && issuer.uids == old(issuer.uids)[it := issuer.counter]
        && (forall x :: x in old(issuer.uids) ==> old(issuer.uids)[x] < issuer.uids[it])
      ensures comp == old(comp)
    {
      var _ := issuer.GetUid(it);
      nodes := nodes + {it};
    }
  }
}
