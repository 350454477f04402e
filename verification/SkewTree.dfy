/**
 The self-adjusting heap of lab8/libs/skew_heap.h as operations on trees of entries.
 */
module SkewTree {

  /** An entry together with the item of the structure it is embedded in. */
  class Entry<K> {
    const item: K
    var parent: Entry?<K>
    var left: Entry?<K>
    var right: Entry?<K>

    constructor (item: K)
      ensures this.item == item && parent == null && left == null && right == null
    {
      this.item := item;
      parent, left, right := null, null, null;
    }
  }

  type Compare<!K> = (K, K) -> int

  // The code asks only whether the comparator returns -1.
  predicate Less<K>(comp: Compare<K>, a: K, b: K) {
    comp(a, b) == -1
  }

  /** "Not greater" is a total preorder. */
  ghost predicate Ordered<K(!new)>(comp: Compare<K>) {
    && (forall x, y :: Less(comp, x, y) ==> !Less(comp, y, x))
    && (forall x, y, z :: Less(comp, x, z) ==> Less(comp, x, y) || Less(comp, y, z))
  }

  datatype Tree<K> = Leaf | Node(left: Tree<K>, entry: Entry<K>, right: Tree<K>)

  ghost function Nodes<K>(t: Tree<K>): set<Entry<K>> {
    match t
    case Leaf => {}
    case Node(l, e, r) => Nodes(l) + {e} + Nodes(r)
  }

  ghost function Root<K>(t: Tree<K>): Entry?<K> {
    if t.Leaf? then null else t.entry
  }

  /** No entry occurs twice. */
  ghost predicate Distinct<K>(t: Tree<K>) {
    match t
    case Leaf => true
    case Node(l, e, r) =>
      Distinct(l) && Distinct(r) && e !in Nodes(l) && e !in Nodes(r) && Nodes(l) !! Nodes(r)
  }

  ghost function Size<K>(t: Tree<K>): (n: nat) {
    match t
    case Leaf => 0
    case Node(l, _, r) => Size(l) + 1 + Size(r)
  }

  /** No entry is less than its parent. */
  ghost predicate HeapOrdered<K>(t: Tree<K>, comp: Compare<K>) {
    match t
    case Leaf => true
    case Node(l, e, r) =>
      && HeapOrdered(l, comp) && (l.Node? ==> !Less(comp, l.entry.item, e.item))
      && HeapOrdered(r, comp) && (r.Node? ==> !Less(comp, r.entry.item, e.item))
  }

  // ----- the operations on trees -----

  ghost function MergeTree<K>(a: Tree<K>, b: Tree<K>, comp: Compare<K>): Tree<K>
    decreases Size(a) + Size(b)
  {
    if a.Leaf? then b
    else if b.Leaf? then a
    else if Less(comp, a.entry.item, b.entry.item) then
      Node(MergeTree(a.right, b, comp), a.entry, a.left)
    else
      Node(MergeTree(a, b.right, comp), b.entry, b.left)
  }

  ghost function InsertTree<K>(a: Tree<K>, b: Entry<K>, comp: Compare<K>): Tree<K> {
    MergeTree(a, Node(Leaf, b, Leaf), comp)
  }

  /** The subtree whose root is b. */
  ghost function Subtree<K>(t: Tree<K>, b: Entry<K>): (s: Tree<K>)
    requires b in Nodes(t)
    ensures s.Node? && s.entry == b && Nodes(s) <= Nodes(t)
  {
    if t.entry == b then t
    else if b in Nodes(t.left) then Subtree(t.left, b)
    else Subtree(t.right, b)
  }

  /** t with the subtree rooted at b replaced by s. */
  ghost function Replace<K>(t: Tree<K>, b: Entry<K>, s: Tree<K>): Tree<K>
    requires b in Nodes(t)
  {
    if t.entry == b then s
    else if b in Nodes(t.left) then Node(Replace(t.left, b, s), t.entry, t.right)
    else Node(t.left, t.entry, Replace(t.right, b, s))
  }

  ghost function RemoveTree<K>(t: Tree<K>, b: Entry<K>, comp: Compare<K>): Tree<K>
    requires b in Nodes(t)
  {
    var s := Subtree(t, b);
    Replace(t, b, MergeTree(s.left, s.right, comp))
  }

  /** The number of times merging a and b calls the comparator. */
  ghost function MergeCost<K>(a: Tree<K>, b: Tree<K>, comp: Compare<K>): nat
    decreases Size(a) + Size(b)
  {
    if a.Leaf? || b.Leaf? then 0
    else if Less(comp, a.entry.item, b.entry.item) then 1 + MergeCost(a.right, b, comp)
    else 1 + MergeCost(a, b.right, comp)
  }

  // ----- contents -----

  lemma {:induction false} MergeNodes<K>(a: Tree<K>, b: Tree<K>, comp: Compare<K>)
    ensures Nodes(MergeTree(a, b, comp)) == Nodes(a) + Nodes(b)
    ensures Size(MergeTree(a, b, comp)) == Size(a) + Size(b)
    ensures Distinct(a) && Distinct(b) && Nodes(a) !! Nodes(b) ==> Distinct(MergeTree(a, b, comp))
    decreases Size(a) + Size(b)
  {
    if a.Leaf? || b.Leaf? {
    } else if Less(comp, a.entry.item, b.entry.item) {
      MergeNodes(a.right, b, comp);
    } else {
      MergeNodes(a, b.right, comp);
    }
  }

  lemma {:induction false} ReplaceNodes<K>(t: Tree<K>, b: Entry<K>, s: Tree<K>)
    requires Distinct(t) && b in Nodes(t) && Nodes(s) == Nodes(Subtree(t, b)) - {b}
    ensures Nodes(Replace(t, b, s)) == Nodes(t) - {b}
    ensures Distinct(s) ==> Distinct(Replace(t, b, s))
  {
    if t.entry == b {
    } else if b in Nodes(t.left) {
      ReplaceNodes(t.left, b, s);
    } else {
      ReplaceNodes(t.right, b, s);
    }
  }
}
