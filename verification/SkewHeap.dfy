/**
 The pointer code of lab8/libs/skew_heap.h. Entries are shared heap objects with parent,
 left and right pointers; a ghost tree mirrors the shape, and every operation is proved
 against the function of module SkewTree that it implements.
 */
module SkewHeap {
  import opened SkewTree

  datatype Links<K> = Links(parent: Entry?<K>, left: Entry?<K>, right: Entry?<K>)

  ghost function LinksOf<K>(e: Entry<K>): Links<K>
    reads e
  {
    Links(e.parent, e.left, e.right)
  }

  ghost function Snapshot<K>(s: set<Entry<K>>): map<Entry<K>, Links<K>>
    reads s
  {
    map e | e in s :: LinksOf(e)
  }

  /** In the snapshot m, the pointers from n down are those of t; n's own parent is free. */
  ghost predicate Wired<K>(m: map<Entry<K>, Links<K>>, n: Entry?<K>, t: Tree<K>)
    requires Nodes(t) <= m.Keys
  {
    match t
    case Leaf => n == null
    case Node(l, e, r) =>
      && n == e
      && Wired(m, m[e].left, l) && (l.Node? ==> m[l.entry].parent == e)
      && Wired(m, m[e].right, r) && (r.Node? ==> m[r.entry].parent == e)
  }

  ghost predicate Shape<K>(n: Entry?<K>, t: Tree<K>)
    reads Nodes(t)
  {
    Wired(Snapshot(Nodes(t)), n, t)
  }

  /** A whole heap: pointers as in t, no sharing, and no parent above the root. */
  ghost predicate Heap<K>(n: Entry?<K>, t: Tree<K>)
    reads Nodes(t)
  {
    Shape(n, t) && Distinct(t) && (t.Node? ==> t.entry.parent == null)
  }

  method Init<K>(a: Entry<K>)
    modifies a
    ensures a.parent == null && a.left == null && a.right == null
  {
    a.left, a.right, a.parent := null, null, null;
  }

  lemma NodesAllocated<K>(t: Tree<K>)
    ensures forall x :: x in Nodes(t) ==> allocated(x)
  {
  }

  /** Hangs l on the left and r on the right of a; r already points up to a. */
  method Attach<K>(a: Entry<K>, l: Entry?<K>, r: Entry?<K>, ghost tl: Tree<K>, ghost tr: Tree<K>)
    requires Shape(l, tl) && Shape(r, tr) && Distinct(Node(tl, a, tr))
    requires r != null ==> r.parent == a
    modifies a, l
    ensures Shape(a, Node(tl, a, tr))
    ensures a.parent == old(a.parent)
  {
    ghost var t := Node(tl, a, tr);
    ghost var s := Nodes(t);
    NodesAllocated(t);
    ghost var m := Snapshot(s);
    ShapeIsWired(s, l, tl);
    ShapeIsWired(s, r, tr);
    if l != null { assert l in Nodes(tl); }
    a.left := l;
    a.right := r;
    if l != null { l.parent := a; }
    ghost var m' := Snapshot(s);
    assert Hung(m, m', a, l);
    HungWired(m, m', a, l, l, tl);
    HungWired(m, m', a, l, r, tr);
  }

  /** Merges two heaps. The parent of the returned root is left as it was: the caller sets it.
      `cost` counts the calls of the comparator. */
  method Merge<K>(a: Entry?<K>, b: Entry?<K>, comp: Compare<K>, ghost ta: Tree<K>, ghost tb: Tree<K>)
      returns (root: Entry?<K>, ghost cost: nat)
    requires Shape(a, ta) && Shape(b, tb)
    requires Distinct(ta) && Distinct(tb) && Nodes(ta) !! Nodes(tb)
    modifies Nodes(ta) + Nodes(tb)
    ensures Shape(root, MergeTree(ta, tb, comp))
    ensures root != null ==> root.parent == old(root.parent)
    ensures cost == MergeCost(ta, tb, comp)
    decreases Size(ta) + Size(tb)
  {
    if a == null {
      return b, 0;
    } else if b == null {
      return a, 0;
    }
    NodesAllocated(ta);
    NodesAllocated(tb);
    ShapeParts(a, ta);
    ShapeParts(b, tb);
    var l, r;
    if comp(a.item, b.item) == -1 {
      r := a.left;
      l, cost := Merge(a.right, b, comp, ta.right, tb);
      MergeNodes(ta.right, tb, comp);
      Attach(a, l, r, MergeTree(ta.right, tb, comp), ta.left);
      return a, cost + 1;
    } else {
      r := b.left;
      l, cost := Merge(a, b.right, comp, ta, tb.right);
      MergeNodes(ta, tb.right, comp);
      Attach(b, l, r, MergeTree(ta, tb.right, comp), tb.left);
      return b, cost + 1;
    }
  }

  /** Inserts the single entry b, whatever its pointers were. */
  method Insert<K>(a: Entry?<K>, b: Entry<K>, comp: Compare<K>, ghost t: Tree<K>)
      returns (root: Entry?<K>, ghost cost: nat)
    requires Heap(a, t) && b !in Nodes(t)
    modifies Nodes(t), b
    ensures Heap(root, InsertTree(t, b, comp))
    ensures cost == MergeCost(t, Node(Leaf, b, Leaf), comp)
  {
    NodesAllocated(t);
    Init(b);
    ghost var single := Node(Leaf, b, Leaf);
    assert Nodes(single) == {b};
    root, cost := Merge(a, b, comp, t, single);
    MergeNodes(t, single, comp);
  }

  /** Puts rep in the place of b below its parent p, or at the root if there is none. */
  method Replant<K>(a: Entry?<K>, b: Entry<K>, p: Entry?<K>, rep: Entry?<K>) returns (root: Entry?<K>)
    requires p == null || p != rep
    modifies p, rep
    ensures root == if p == null then rep else a
    ensures rep != null ==> LinksOf(rep) == old(LinksOf(rep)).(parent := p)
    ensures p != null ==> LinksOf(p) == Redirect(old(LinksOf(p)), b, rep)
  {
    if rep != null { rep.parent := p; }
    if p != null {
      if p.left == b {
        p.left := rep;
      } else {
        p.right := rep;
      }
      root := a;
    } else {
      root := rep;
    }
  }

  /** Removes b, the root or any other entry. */
  method Remove<K>(a: Entry?<K>, b: Entry<K>, comp: Compare<K>, ghost t: Tree<K>)
      returns (root: Entry?<K>, ghost cost: nat)
    requires Heap(a, t) && b in Nodes(t)
    modifies Nodes(t) - {b}
    ensures Heap(root, RemoveTree(t, b, comp))
    ensures cost == MergeCost(Subtree(t, b).left, Subtree(t, b).right, comp)
  {
    hide MergeTree, MergeCost;
    NodesAllocated(t);
    ghost var s := Subtree(t, b);
    ghost var m, merged := Snapshot(Nodes(t)), MergeTree(s.left, s.right, comp);
    SubtreeShape(a, t, b);
    ShapeParts(b, s);
    MergeNodes(s.left, s.right, comp);
    var p := b.parent;
    var rep;
    rep, cost := Merge(b.left, b.right, comp, s.left, s.right);
    ShapeIsWired(Nodes(t), rep, merged);
    ghost var m1 := Snapshot(Nodes(t));
    hide Wired;
    root := Replant(a, b, p, rep);
    ghost var m2 := Snapshot(Nodes(t));
    Relinked(m, m1, m2, a, t, b, rep, merged);
    ShapeIsWired(Nodes(t), root, Replace(t, b, merged));
  }

  /** From m over m1 to m2, the subtrees of b have been merged below rep, and rep has been put in
      the place of b. */
  lemma Relinked<K>(m: map<Entry<K>, Links<K>>, m1: map<Entry<K>, Links<K>>, m2: map<Entry<K>, Links<K>>,
      n: Entry?<K>, t: Tree<K>, b: Entry<K>, rep: Entry?<K>, s: Tree<K>)
    requires Nodes(t) == m.Keys == m1.Keys == m2.Keys && b in Nodes(t) && Distinct(t)
    requires Wired(m, n, t) && m[n].parent == null
    requires Nodes(s) == Nodes(Subtree(t, b)) - {b} && Distinct(s) && Wired(m1, rep, s)
    requires forall x :: x in m && x !in Nodes(s) ==> m1[x] == m[x]
    requires rep != null ==> rep in m && m2[rep] == m1[rep].(parent := m[b].parent)
    requires m[b].parent != null ==> m[b].parent in m && m2[m[b].parent] == Redirect(m1[m[b].parent], b, rep)
    requires forall x :: x in m && x != rep && x != m[b].parent ==> m2[x] == m1[x]
    ensures Nodes(Replace(t, b, s)) <= m2.Keys && Distinct(Replace(t, b, s))
    ensures Wired(m2, if m[b].parent == null then rep else n, Replace(t, b, s))
    ensures Replace(t, b, s).Node? ==> m2[Replace(t, b, s).entry].parent == null
  {
    SubtreeWired(m, n, t, b);
    SameWired(m1, m2, rep, s);
    hide Wired;
    assert Spliced(m, m2, Nodes(Subtree(t, b)), b, rep);
    RemoveWired(m, m2, n, t, b, rep, s);
  }

  // ----- pointers -----

  lemma ShapeParts<K>(n: Entry?<K>, t: Tree<K>)
    requires t.Node? && Shape(n, t) && Distinct(t)
    ensures n == t.entry && Shape(n.left, t.left) && Shape(n.right, t.right)
    ensures t.left.Node? ==> t.left.entry.parent == n
    ensures t.right.Node? ==> t.right.entry.parent == n
  {
    ShapeIsWired(Nodes(t), n.left, t.left);
    ShapeIsWired(Nodes(t), n.right, t.right);
  }

  lemma ShapeIsWired<K>(s: set<Entry<K>>, n: Entry?<K>, t: Tree<K>)
    requires Nodes(t) <= s && Distinct(t)
    ensures Shape(n, t) <==> Wired(Snapshot(s), n, t)
  {
    if Shape(n, t) { SameWired(Snapshot(Nodes(t)), Snapshot(s), n, t); }
    if Wired(Snapshot(s), n, t) { SameWired(Snapshot(s), Snapshot(Nodes(t)), n, t); }
  }

  /** Only entries of t matter, and of its root only the children. */
  lemma {:induction false} SameWired<K>(
      m: map<Entry<K>, Links<K>>, m': map<Entry<K>, Links<K>>, n: Entry?<K>, t: Tree<K>)
    requires Nodes(t) <= m.Keys && Nodes(t) <= m'.Keys && Wired(m, n, t) && Distinct(t)
    requires forall x :: x in Nodes(t) && x != n ==> m[x] == m'[x]
    requires n != null ==> m'[n] == m[n].(parent := m'[n].parent)
    ensures Wired(m', n, t)
  {
    if t.Node? {
      SameWired(m, m', m[t.entry].left, t.left);
      SameWired(m, m', m[t.entry].right, t.right);
    }
  }

  /** The snapshots agree except at a and, for its parent, at l. */
  ghost predicate Hung<K>(m: map<Entry<K>, Links<K>>, m': map<Entry<K>, Links<K>>, a: Entry<K>, l: Entry?<K>)
  {
    && m'.Keys == m.Keys
    && (l != null && l in m ==> m'[l] == m[l].(parent := a))
    && (forall x :: x in m && x != a && x != l ==> m'[x] == m[x])
  }

  /** Hanging l below a changes no pointer inside a tree that a is not in, unless at l. */
  lemma HungWired<K>(m: map<Entry<K>, Links<K>>, m': map<Entry<K>, Links<K>>,
      a: Entry<K>, l: Entry?<K>, n: Entry?<K>, t: Tree<K>)
    requires Hung(m, m', a, l) && Nodes(t) <= m.Keys && Wired(m, n, t) && Distinct(t)
    requires a !in Nodes(t) && (l == n || l == null || l !in Nodes(t))
    ensures Wired(m', n, t)
  {
    if t.Node? { assert n in Nodes(t); }
    SameWired(m, m', n, t);
  }

  /** p's links once its pointer to b leads to rep. */
  ghost function Redirect<K>(p: Links<K>, b: Entry<K>, rep: Entry?<K>): Links<K> {
    if p.left == b then p.(left := rep) else p.(right := rep)
  }

  /** Inside a heap, b heads its own subtree, and its parent pointer leads to the entry above. */
  lemma {:induction false} SubtreeWired<K>(m: map<Entry<K>, Links<K>>, n: Entry?<K>, t: Tree<K>, b: Entry<K>)
    requires Nodes(t) <= m.Keys && Wired(m, n, t) && Distinct(t) && b in Nodes(t)
    ensures Wired(m, b, Subtree(t, b)) && Distinct(Subtree(t, b))
    ensures b != n ==> m[b].parent != null && m[b].parent in Nodes(t) - Nodes(Subtree(t, b))
    ensures b != n ==> m[m[b].parent].left == b || m[m[b].parent].right == b
  {
    if t.entry == b {
    } else if b in Nodes(t.left) {
      SubtreeWired(m, m[t.entry].left, t.left, b);
    } else {
      SubtreeWired(m, m[t.entry].right, t.right, b);
    }
  }

  lemma SubtreeShape<K>(n: Entry?<K>, t: Tree<K>, b: Entry<K>)
    requires Shape(n, t) && Distinct(t) && b in Nodes(t)
    ensures Shape(b, Subtree(t, b)) && Distinct(Subtree(t, b))
    ensures b != n ==> b.parent != null && b.parent in Nodes(t) - Nodes(Subtree(t, b))
  {
    SubtreeWired(Snapshot(Nodes(t)), n, t, b);
    ShapeIsWired(Nodes(t), b, Subtree(t, b));
  }

  /** From m to m', the entries of b's subtree have been relinked below rep, rep has taken b's
      place under b's parent, and nothing else has changed. */
  ghost predicate Spliced<K>(m: map<Entry<K>, Links<K>>, m': map<Entry<K>, Links<K>>,
      inside: set<Entry<K>>, b: Entry<K>, rep: Entry?<K>)
    requires b in m
  {
    var p := m[b].parent;
    && m'.Keys == m.Keys
    && (rep != null && rep in m ==> m'[rep].parent == p)
    && (p != null && p in m ==> m'[p] == Redirect(m[p], b, rep))
    && (forall x :: x in m && x !in inside && x != p ==> m'[x] == m[x])
  }

  /** A tree without b and its parent stays as it is. */
  lemma Untouched<K>(m: map<Entry<K>, Links<K>>, m': map<Entry<K>, Links<K>>,
      n: Entry?<K>, t: Tree<K>, inside: set<Entry<K>>, b: Entry<K>, rep: Entry?<K>)
    requires b in m && Spliced(m, m', inside, b, rep) && Nodes(t) <= m.Keys && Wired(m, n, t) && Distinct(t)
    requires Nodes(t) !! inside && m[b].parent !in Nodes(t)
    ensures Wired(m', n, t)
  {
    SameWired(m, m', n, t);
  }

  /** Splicing puts s in the place of b's subtree. */
  lemma {:induction false} ReplaceWired<K>(m: map<Entry<K>, Links<K>>, m': map<Entry<K>, Links<K>>,
      n: Entry?<K>, t: Tree<K>, b: Entry<K>, rep: Entry?<K>, s: Tree<K>)
    requires Nodes(t) <= m.Keys && Wired(m, n, t) && Distinct(t) && b in Nodes(t) && b != n
    requires Nodes(s) == Nodes(Subtree(t, b)) - {b}
    requires Spliced(m, m', Nodes(Subtree(t, b)), b, rep) && Wired(m', rep, s)
    ensures Nodes(Replace(t, b, s)) == Nodes(t) - {b} && Wired(m', n, Replace(t, b, s))
  {
    ReplaceNodes(t, b, s);
    var e, l, r := t.entry, t.left, t.right;
    if rep != null { assert rep in Nodes(s); }
    if b in Nodes(l) {
      SubtreeWired(m, m[e].left, l, b);
      Untouched(m, m', m[e].right, r, Nodes(Subtree(t, b)), b, rep);
      if l.entry == b {
        assert Replace(l, b, s) == s;
      } else {
        assert m[b].parent in Nodes(l);
        ReplaceWired(m, m', m[e].left, l, b, rep, s);
      }
    } else {
      SubtreeWired(m, m[e].right, r, b);
      Untouched(m, m', m[e].left, l, Nodes(Subtree(t, b)), b, rep);
      if r.entry == b {
        assert Replace(r, b, s) == s;
      } else {
        assert m[b].parent in Nodes(r);
        ReplaceWired(m, m', m[e].right, r, b, rep, s);
      }
    }
  }

  /** Splicing at any b of a heap, the root included. */
  lemma RemoveWired<K>(m: map<Entry<K>, Links<K>>, m': map<Entry<K>, Links<K>>,
      n: Entry?<K>, t: Tree<K>, b: Entry<K>, rep: Entry?<K>, s: Tree<K>)
    requires Nodes(t) == m.Keys && Wired(m, n, t) && Distinct(t) && b in Nodes(t) && m[n].parent == null
    requires Nodes(s) == Nodes(Subtree(t, b)) - {b} && Distinct(s)
    requires Spliced(m, m', Nodes(Subtree(t, b)), b, rep) && Wired(m', rep, s)
    ensures Nodes(Replace(t, b, s)) <= m'.Keys && Distinct(Replace(t, b, s))
    ensures Wired(m', if m[b].parent == null then rep else n, Replace(t, b, s))
    ensures Replace(t, b, s).Node? ==> m'[Replace(t, b, s).entry].parent == null
  {
    SubtreeWired(m, n, t, b);
    ReplaceNodes(t, b, s);
    if rep != null { assert rep in Nodes(s); }
    if b != n { ReplaceWired(m, m', n, t, b, rep, s); }
  }
}
