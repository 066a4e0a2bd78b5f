/**
 * The search tree of the tree-based map containers, as a value.
 *
 * Each node holds an iterator into the container's element list; an
 * iterator is a position in that list, the list's `end()` being its length.
 * The red-black colouring and parent links play no part in searching and
 * are not represented.
 */
module TreeIndex {

  datatype Tree = Leaf | Node(left: Tree, entry: nat, right: Tree)

  /** Every entry of `t` is a position below `n`. */
  ghost predicate Below(t: Tree, n: nat) {
    match t
    case Leaf => true
    case Node(l, e, r) => e < n && Below(l, n) && Below(r, n)
  }

  /**
   * The in-order traversal of `t` is exactly the positions `lo` .. `hi - 1`:
   * the tree indexes that slice of the element list in list order.
   */
  ghost predicate Covers(t: Tree, lo: nat, hi: nat) {
    match t
    case Leaf => lo == hi
    case Node(l, e, r) => lo <= e < hi && Covers(l, lo, e) && Covers(r, e + 1, hi)
  }

  /** A tree covering `lo` .. `hi - 1` holds only positions below `hi`, and is empty exactly when the slice is. */
  lemma {:induction false} CoversBelow(t: Tree, lo: nat, hi: nat)
    requires Covers(t, lo, hi)
    ensures Below(t, hi) && lo <= hi
    ensures t.Leaf? <==> lo == hi
  {
    match t
    case Leaf =>
    case Node(l, e, r) =>
      CoversBelow(l, lo, e);
      CoversBelow(r, e + 1, hi);
      BelowMonotone(l, e, hi);
  }

  /** Raising the bound keeps every entry below it. */
  lemma {:induction false} BelowMonotone(t: Tree, n: nat, m: nat)
    requires Below(t, n) && n <= m
    ensures Below(t, m)
  {
    match t
    case Leaf =>
    case Node(l, _, r) =>
      BelowMonotone(l, n, m);
      BelowMonotone(r, n, m);
  }
}
