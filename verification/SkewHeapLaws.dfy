/**
 What the skew heap is for: it keeps its entries in heap order through any run of inserts
 and removals, gives them back sorted, and does so in logarithmic amortised time.
 */
module SkewHeapLaws {
  import opened Bits
  import opened SkewTree
  import opened Wrappers

  // ----- heap order -----

  lemma {:induction false} MergeOrdered<K(!new)>(a: Tree<K>, b: Tree<K>, comp: Compare<K>)
    requires Ordered(comp) && HeapOrdered(a, comp) && HeapOrdered(b, comp)
    ensures HeapOrdered(MergeTree(a, b, comp), comp)
    ensures Root(MergeTree(a, b, comp)) in {Root(a), Root(b)}
    decreases Size(a) + Size(b)
  {
    if a.Leaf? || b.Leaf? {
    } else if Less(comp, a.entry.item, b.entry.item) {
      MergeOrdered(a.right, b, comp);
    } else {
      MergeOrdered(a, b.right, comp);
    }
  }

  /** Replacing b's subtree by a heap whose root is not less than b keeps the order. */
  lemma {:induction false} ReplaceOrdered<K(!new)>(t: Tree<K>, b: Entry<K>, s: Tree<K>, comp: Compare<K>)
    requires Ordered(comp) && HeapOrdered(t, comp) && HeapOrdered(s, comp) && b in Nodes(t)
    requires s.Node? ==> !Less(comp, s.entry.item, b.item)
    ensures HeapOrdered(Replace(t, b, s), comp)
    ensures var r := Replace(t, b, s); r.Node? ==> !Less(comp, r.entry.item, t.entry.item)
  {
    if t.entry == b {
    } else if b in Nodes(t.left) {
      ReplaceOrdered(t.left, b, s, comp);
    } else {
      ReplaceOrdered(t.right, b, s, comp);
    }
  }

  lemma {:induction false} SubtreeOrdered<K>(t: Tree<K>, b: Entry<K>, comp: Compare<K>)
    requires HeapOrdered(t, comp) && b in Nodes(t)
    ensures HeapOrdered(Subtree(t, b), comp)
  {
    if t.entry == b {
    } else if b in Nodes(t.left) {
      SubtreeOrdered(t.left, b, comp);
    } else {
      SubtreeOrdered(t.right, b, comp);
    }
  }

  /** Inserting adds exactly the new entry and keeps the heap a heap. */
  lemma InsertKeepsHeap<K(!new)>(t: Tree<K>, b: Entry<K>, comp: Compare<K>)
    requires Ordered(comp) && HeapOrdered(t, comp) && Distinct(t) && b !in Nodes(t)
    ensures HeapOrdered(InsertTree(t, b, comp), comp) && Distinct(InsertTree(t, b, comp))
    ensures Nodes(InsertTree(t, b, comp)) == Nodes(t) + {b}
    ensures Size(InsertTree(t, b, comp)) == Size(t) + 1
  {
    var single := Node(Leaf, b, Leaf);
    MergeOrdered(t, single, comp);
    MergeNodes(t, single, comp);
  }

  /** Removing any entry, the root or an interior one, takes out exactly that entry and
      keeps the heap a heap. */
  lemma RemoveKeepsHeap<K(!new)>(t: Tree<K>, b: Entry<K>, comp: Compare<K>)
    requires Ordered(comp) && HeapOrdered(t, comp) && Distinct(t) && b in Nodes(t)
    ensures HeapOrdered(RemoveTree(t, b, comp), comp) && Distinct(RemoveTree(t, b, comp))
    ensures Nodes(RemoveTree(t, b, comp)) == Nodes(t) - {b}
    ensures Size(RemoveTree(t, b, comp)) == Size(t) - 1
  {
    var s := Subtree(t, b);
    SubtreeOrdered(t, b, comp);
    SubtreeDistinct(t, b);
    MergeOrdered(s.left, s.right, comp);
    MergeNodes(s.left, s.right, comp);
    var m := MergeTree(s.left, s.right, comp);
    ReplaceOrdered(t, b, m, comp);
    ReplaceNodes(t, b, m);
    ReplaceSize(t, b, m);
  }

  lemma {:induction false} SubtreeDistinct<K>(t: Tree<K>, b: Entry<K>)
    requires Distinct(t) && b in Nodes(t)
    ensures Distinct(Subtree(t, b))
  {
    if t.entry == b {
    } else if b in Nodes(t.left) {
      SubtreeDistinct(t.left, b);
    } else {
      SubtreeDistinct(t.right, b);
    }
  }

  lemma {:induction false} ReplaceSize<K>(t: Tree<K>, b: Entry<K>, s: Tree<K>)
    requires b in Nodes(t)
    ensures Size(Replace(t, b, s)) == Size(t) - Size(Subtree(t, b)) + Size(s)
  {
    if t.entry == b {
    } else if b in Nodes(t.left) {
      ReplaceSize(t.left, b, s);
    } else {
      ReplaceSize(t.right, b, s);
    }
  }

  /** The root of a heap is a least entry. */
  lemma {:induction false} RootIsLeast<K(!new)>(t: Tree<K>, x: Entry<K>, comp: Compare<K>)
    requires Ordered(comp) && HeapOrdered(t, comp) && x in Nodes(t)
    ensures !Less(comp, x.item, t.entry.item)
  {
    if x == t.entry {
    } else if x in Nodes(t.left) {
      RootIsLeast(t.left, x, comp);
    } else {
      RootIsLeast(t.right, x, comp);
    }
  }

  // ----- ties -----

  /** Entry x of a is less than every entry of b. */
  ghost predicate Precedes<K>(x: Entry<K>, b: Tree<K>, comp: Compare<K>)
  {
    forall y :: y in Nodes(b) ==> Less(comp, x.item, y.item)
  }

  /** The merged root comes from the first heap exactly when that heap has an entry less than every
      entry of the second; on ties it comes from the second. */
  lemma MergedRoot<K(!new)>(a: Tree<K>, b: Tree<K>, comp: Compare<K>)
    requires Ordered(comp) && HeapOrdered(a, comp) && HeapOrdered(b, comp) && a.Node? && b.Node?
    ensures Root(MergeTree(a, b, comp)) ==
      if exists x :: x in Nodes(a) && Precedes(x, b, comp) then Root(a) else Root(b)
  {
    if Less(comp, a.entry.item, b.entry.item) {
      forall y | y in Nodes(b) ensures Less(comp, a.entry.item, y.item) {
        RootIsLeast(b, y, comp);
      }
      assert a.entry in Nodes(a) && Precedes(a.entry, b, comp);
    } else if x :| x in Nodes(a) && Precedes(x, b, comp) {
      RootIsLeast(a, x, comp);
    }
  }

  /** An entry put into a heap becomes the root, with the old heap on its left, unless an entry of the
      heap is less. */
  lemma InsertedRoot<K(!new)>(t: Tree<K>, b: Entry<K>, comp: Compare<K>)
    requires Ordered(comp) && HeapOrdered(t, comp) && b !in Nodes(t)
    ensures Root(InsertTree(t, b, comp)) ==
      if exists x :: x in Nodes(t) && Less(comp, x.item, b.item) then Root(t) else b
    ensures (forall x :: x in Nodes(t) ==> !Less(comp, x.item, b.item)) ==> InsertTree(t, b, comp) == Node(t, b, Leaf)
  {
    var single := Node(Leaf, b, Leaf);
    if t.Node? {
      MergedRoot(t, single, comp);
      forall x | x in Nodes(t) ensures Precedes(x, single, comp) <==> Less(comp, x.item, b.item) {
        assert Nodes(single) == {b};
      }
    }
  }

  /** Removing the root leaves the root of its one child, or of two children the right one's unless
      an entry below the left one is less than all below the right; removing another entry leaves
      the root alone. */
  lemma RemovedRoot<K(!new)>(t: Tree<K>, b: Entry<K>, comp: Compare<K>)
    requires Ordered(comp) && HeapOrdered(t, comp) && b in Nodes(t)
    ensures Root(RemoveTree(t, b, comp)) ==
      if b != t.entry then t.entry
      else if t.left.Leaf? then Root(t.right)
      else if t.right.Leaf? then Root(t.left)
      else if exists x :: x in Nodes(t.left) && Precedes(x, t.right, comp) then Root(t.left)
      else Root(t.right)
  {
    if t.left.Node? && t.right.Node? { MergedRoot(t.left, t.right, comp); }
  }

  /** What t's subtree at x becomes when b, which is not x, is removed below it on one side. */
  ghost predicate RemovedBelow<K>(s: Tree<K>, s': Tree<K>, b: Entry<K>, comp: Compare<K>)
    requires s.Node?
  {
    && s'.Node? && s'.entry == s.entry
    && s'.left == (if b in Nodes(s.left) then RemoveTree(s.left, b, comp) else s.left)
    && s'.right == (if b in Nodes(s.right) then RemoveTree(s.right, b, comp) else s.right)
  }

  /** Removal changes nothing but the subtree of the removed entry: every entry that is not below it
      stays where it is, with the same entry above it and the same subtrees but for the removal. */
  lemma {:induction false} RemovalIsLocal<K>(t: Tree<K>, b: Entry<K>, x: Entry<K>, comp: Compare<K>)
    requires Distinct(t) && b in Nodes(t) && x in Nodes(t) && x !in Nodes(Subtree(t, b))
    ensures x in Nodes(RemoveTree(t, b, comp))
    ensures RemovedBelow(Subtree(t, x), Subtree(RemoveTree(t, b, comp), x), b, comp)
  {
    hide MergeTree;
    RemovedNodes(t, b, comp);
    if t.entry != x {
      if b in Nodes(t.left) && x in Nodes(t.left) {
        RemovalIsLocal(t.left, b, x, comp);
      } else if b in Nodes(t.right) && x in Nodes(t.right) {
        RemovalIsLocal(t.right, b, x, comp);
      }
      if b in Nodes(t.left) { RemovedNodes(t.left, b, comp); }
    }
  }

  lemma RemovedNodes<K>(t: Tree<K>, b: Entry<K>, comp: Compare<K>)
    requires Distinct(t) && b in Nodes(t)
    ensures Nodes(RemoveTree(t, b, comp)) == Nodes(t) - {b}
  {
    var s := Subtree(t, b);
    SubtreeDistinct(t, b);
    MergeNodes(s.left, s.right, comp);
    ReplaceNodes(t, b, MergeTree(s.left, s.right, comp));
  }

  // ----- runs -----

  datatype Op<K> = Insert(entry: Entry<K>) | Remove(entry: Entry<K>)

  /** What a run leaves in the heap, by its history alone. */
  ghost function Contents<K>(ops: seq<Op<K>>): set<Entry<K>> {
    if ops == [] then {}
    else
      var before := Contents(ops[..|ops| - 1]);
      match ops[|ops| - 1]
      case Insert(e) => before + {e}
      case Remove(e) => before - {e}
  }

  /** Callers insert entries that are outside and remove entries that are inside. */
  ghost predicate Legal<K>(ops: seq<Op<K>>) {
    ops == [] ||
    (var before := ops[..|ops| - 1];
     Legal(before) &&
     match ops[|ops| - 1]
     case Insert(e) => e !in Contents(before)
     case Remove(e) => e in Contents(before))
  }

  /** The heap after one operation; removing an absent entry does not occur in a legal run. */
  ghost function Apply<K>(t: Tree<K>, op: Op<K>, comp: Compare<K>): Tree<K> {
    match op
    case Insert(e) => InsertTree(t, e, comp)
    case Remove(e) => if e in Nodes(t) then RemoveTree(t, e, comp) else t
  }

  /** The heap after a run from empty. */
  ghost function Run<K>(ops: seq<Op<K>>, comp: Compare<K>): Tree<K> {
    if ops == [] then Leaf else Apply(Run(ops[..|ops| - 1], comp), ops[|ops| - 1], comp)
  }

  /** Every reachable heap is ordered and holds exactly the entries put in and not taken out. */
  lemma {:induction false} RunKeepsHeap<K(!new)>(ops: seq<Op<K>>, comp: Compare<K>)
    requires Ordered(comp) && Legal(ops)
    ensures HeapOrdered(Run(ops, comp), comp) && Distinct(Run(ops, comp))
    ensures Nodes(Run(ops, comp)) == Contents(ops)
  {
    if ops != [] {
      var before, last := ops[..|ops| - 1], ops[|ops| - 1];
      RunKeepsHeap(before, comp);
      var t := Run(before, comp);
      if last.Insert? {
        InsertKeepsHeap(t, last.entry, comp);
      } else {
        RemoveKeepsHeap(t, last.entry, comp);
      }
    }
  }

  /** Taking out the root until nothing is left. */
  ghost function Drain<K>(t: Tree<K>, comp: Compare<K>): seq<Entry<K>>
    decreases Size(t)
  {
    if t.Leaf? then []
    else
      MergeNodes(t.left, t.right, comp);
      assert RemoveTree(t, t.entry, comp) == MergeTree(t.left, t.right, comp);
      [t.entry] + Drain(RemoveTree(t, t.entry, comp), comp)
  }

  ghost predicate Nondecreasing<K>(s: seq<Entry<K>>, comp: Compare<K>) {
    forall i, j :: 0 <= i < j < |s| ==> !Less(comp, s[j].item, s[i].item)
  }

  ghost function Elements<K>(s: seq<Entry<K>>): set<Entry<K>> {
    if s == [] then {} else {s[0]} + Elements(s[1..])
  }

  lemma {:induction false} ElementsContain<K>(s: seq<Entry<K>>, i: nat)
    requires i < |s|
    ensures s[i] in Elements(s)
  {
    if i > 0 { ElementsContain(s[1..], i - 1); }
  }

  lemma {:induction false} DrainSorts<K(!new)>(t: Tree<K>, comp: Compare<K>)
    requires Ordered(comp) && HeapOrdered(t, comp) && Distinct(t)
    ensures Nondecreasing(Drain(t, comp), comp) && NoRepeats(Drain(t, comp))
    ensures Elements(Drain(t, comp)) == Nodes(t)
    decreases Size(t)
  {
    if t.Node? {
      var rest := RemoveTree(t, t.entry, comp);
      RemoveKeepsHeap(t, t.entry, comp);
      DrainSorts(rest, comp);
      var d := Drain(rest, comp);
      assert Drain(t, comp) == [t.entry] + d;
      forall j | 0 <= j < |d| ensures !Less(comp, d[j].item, t.entry.item) && d[j] != t.entry {
        ElementsContain(d, j);
        RootIsLeast(t, d[j], comp);
      }
    }
  }

  /** After any interleaving of inserts and removals, taking out the root again and again
      yields the remaining entries in order, each exactly once. */
  lemma RunThenDrainSorts<K(!new)>(ops: seq<Op<K>>, comp: Compare<K>)
    requires Ordered(comp) && Legal(ops)
    ensures var d := Drain(Run(ops, comp), comp);
      && Nondecreasing(d, comp) && NoRepeats(d)
      && Elements(d) == Contents(ops)
  {
    RunKeepsHeap(ops, comp);
    DrainSorts(Run(ops, comp), comp);
  }

  // ----- amortised cost -----

  /** k is the floor of the binary logarithm of n, or 0 for n = 0. */
  ghost predicate IsLog(n: nat, k: nat) {
    n < Pow2(k + 1) && (k > 0 ==> Pow2(k) <= n)
  }

  ghost function Log2(n: nat): (k: nat)
    ensures IsLog(n, k)
  {
    LogExists(n);
    var k: nat :| IsLog(n, k);
    k
  }

  lemma {:induction false} LogExists(n: nat)
    ensures exists k: nat :: IsLog(n, k)
  {
    if n < 2 {
      assert IsLog(n, 0);
    } else {
      LogExists(n / 2);
      var k: nat :| IsLog(n / 2, k);
      NextLog(n, n / 2, k);
    }
  }

  lemma NextLog(n: nat, h: nat, k: nat)
    requires 2 * h <= n <= 2 * h + 1 && 1 <= h && IsLog(h, k)
    ensures IsLog(n, k + 1)
  {
  }

  /** Log2 is monotone. */
  lemma Log2Below(n: nat, k: nat)
    requires n < Pow2(k + 1)
    ensures Log2(n) <= k
  {
    if Log2(n) > k { Pow2Grows(k + 1, Log2(n)); }
  }

  /** The number of entries whose right subtree is larger than their left one. */
  ghost function Potential<K>(t: Tree<K>): nat {
    match t
    case Leaf => 0
    case Node(l, _, r) => Potential(l) + Potential(r) + (if Size(r) > Size(l) then 1 else 0)
  }

  /** The amortised cost of one merge, for any bounds x and y on the logarithms of the sizes. */
  lemma {:induction false} MergeBelow<K>(a: Tree<K>, b: Tree<K>, comp: Compare<K>, x: nat, y: nat)
    requires Size(a) + 1 < Pow2(x + 1) && Size(b) + 1 < Pow2(y + 1)
    ensures MergeCost(a, b, comp) + Potential(MergeTree(a, b, comp)) <= Potential(a) + Potential(b) + 2 * (x + y)
    decreases Size(a) + Size(b)
  {
    if a.Leaf? || b.Leaf? {
    } else if Less(comp, a.entry.item, b.entry.item) {
      MergeNodes(a.right, b, comp);
      var light := Size(a.right) <= Size(a.left);
      MergeBelow(a.right, b, comp, if light then x - 1 else x, y);
    } else {
      MergeNodes(a, b.right, comp);
      var light := Size(b.right) <= Size(b.left);
      MergeBelow(a, b.right, comp, x, if light then y - 1 else y);
    }
  }

  /** The amortised cost of one merge of heaps with m - 1 and n - 1 entries. */
  lemma MergeAmortised<K>(a: Tree<K>, b: Tree<K>, comp: Compare<K>, m: nat, n: nat)
    requires m == Size(a) + 1 && n == Size(b) + 1
    ensures MergeCost(a, b, comp) + Potential(MergeTree(a, b, comp))
         <= Potential(a) + Potential(b) + 2 * (Log2(m) + Log2(n))
  {
    MergeBelow(a, b, comp, Log2(m), Log2(n));
  }

  /** Every removal takes out the root, as a priority queue does. */
  ghost predicate RootRemovals<K>(ops: seq<Op<K>>, comp: Compare<K>) {
    ops == [] ||
    (var before := ops[..|ops| - 1];
     RootRemovals(before, comp) &&
     (ops[|ops| - 1].Remove? ==> Root(Run(before, comp)) == ops[|ops| - 1].entry))
  }

  /** The comparisons made by one operation on t. */
  ghost function OpCost<K>(t: Tree<K>, op: Op<K>, comp: Compare<K>): nat {
    match op
    case Insert(e) => MergeCost(t, Node(Leaf, e, Leaf), comp)
    case Remove(e) =>
      if e in Nodes(t) then MergeCost(Subtree(t, e).left, Subtree(t, e).right, comp) else 0
  }

  ghost function RunCost<K>(ops: seq<Op<K>>, comp: Compare<K>): nat {
    if ops == [] then 0
    else
      var before := ops[..|ops| - 1];
      RunCost(before, comp) + OpCost(Run(before, comp), ops[|ops| - 1], comp)
  }

  /** The sum over the operations of 4 log2(size of the heap before it + 1) + 2. */
  ghost function LogBudget<K>(ops: seq<Op<K>>, comp: Compare<K>): nat {
    if ops == [] then 0
    else
      var before := ops[..|ops| - 1];
      LogBudget(before, comp) + 4 * Log2(Size(Run(before, comp)) + 1) + 2
  }

  /** The amortised cost of one operation on fewer than 2^(x+1) - 1 entries. */
  lemma OpAmortised<K>(t: Tree<K>, op: Op<K>, comp: Compare<K>, x: nat)
    requires op.Remove? ==> Root(t) == op.entry
    requires Size(t) + 1 < Pow2(x + 1)
    ensures OpCost(t, op, comp) + Potential(Apply(t, op, comp)) <= Potential(t) + 4 * x + 2
  {
    if op.Insert? {
      var single := Node(Leaf, op.entry, Leaf);
      assert Size(single) == 1 && Potential(single) == 0;
      MergeBelow(t, single, comp, x, 1);
    } else {
      assert Apply(t, op, comp) == MergeTree(t.left, t.right, comp);
      MergeBelow(t.left, t.right, comp, x, x);
    }
  }

  lemma NoPotential<K>()
    ensures Potential<K>(Leaf) == 0
  {
  }

  /** The number of entries on the way from the root to the right. */
  ghost function RightSpine<K>(t: Tree<K>): nat
  {
    if t.Leaf? then 0 else 1 + RightSpine(t.right)
  }

  /** Merging calls the comparator until one of the right spines is used up. */
  lemma {:induction false} CostOfSpines<K>(a: Tree<K>, b: Tree<K>, comp: Compare<K>)
    ensures var m, n := RightSpine(a), RightSpine(b);
      if m == 0 || n == 0 then MergeCost(a, b, comp) == 0
      else (m <= n ==> m <= MergeCost(a, b, comp)) && (n <= m ==> n <= MergeCost(a, b, comp))
           && MergeCost(a, b, comp) <= m + n - 1
    decreases Size(a) + Size(b)
  {
    if a.Node? && b.Node? {
      if Less(comp, a.entry.item, b.entry.item) {
        CostOfSpines(a.right, b, comp);
      } else {
        CostOfSpines(a, b.right, comp);
      }
    }
  }

  /** A run of inserts and root removals from empty costs at most the sum of its logarithms. */
  lemma {:induction false} RunAmortised<K>(ops: seq<Op<K>>, comp: Compare<K>)
    requires RootRemovals(ops, comp)
    ensures RunCost(ops, comp) + Potential(Run(ops, comp)) <= LogBudget(ops, comp)
  {
    hide Potential, OpCost, Apply, Size, Log2, Pow2;
    if ops == [] {
      NoPotential<K>();
    } else {
      var before, last := ops[..|ops| - 1], ops[|ops| - 1];
      RunAmortised(before, comp);
      OpAmortised(Run(before, comp), last, comp, Log2(Size(Run(before, comp)) + 1));
    }
  }

  lemma {:induction false} RunSize<K>(ops: seq<Op<K>>, comp: Compare<K>)
    requires RootRemovals(ops, comp)
    ensures Size(Run(ops, comp)) <= |ops|
  {
    if ops != [] {
      var before, last := ops[..|ops| - 1], ops[|ops| - 1];
      RunSize(before, comp);
      var t := Run(before, comp);
      if last.Insert? {
        MergeNodes(t, Node(Leaf, last.entry, Leaf), comp);
      } else {
        MergeNodes(t.left, t.right, comp);
      }
    }
  }

  /** Logarithmically many comparisons per operation, in the length of the run. */
  lemma {:induction false} RunIsLogarithmic<K>(ops: seq<Op<K>>, comp: Compare<K>)
    requires RootRemovals(ops, comp)
    ensures RunCost(ops, comp) <= |ops| * (4 * Log2(|ops|) + 2)
  {
    RunAmortised(ops, comp);
    BudgetBound(ops, comp, |ops|);
  }

  lemma {:induction false} BudgetBound<K>(ops: seq<Op<K>>, comp: Compare<K>, n: nat)
    requires RootRemovals(ops, comp) && |ops| <= n
    ensures LogBudget(ops, comp) <= |ops| * (4 * Log2(n) + 2)
  {
    if ops != [] {
      var before := ops[..|ops| - 1];
      BudgetBound(before, comp, n);
      RunSize(before, comp);
      Log2Below(Size(Run(before, comp)) + 1, Log2(n));
      TimesPlusOne(|before|, 4 * Log2(n) + 2);
    }
  }

  lemma TimesPlusOne(m: nat, x: nat)
    ensures (m + 1) * x == m * x + x
  {
  }

  /** An operation compares exactly when there are two heaps to merge. */
  lemma OpCompares<K>(t: Tree<K>, op: Op<K>, comp: Compare<K>)
    ensures OpCost(t, op, comp) > 0 <==>
      if op.Insert? then t.Node?
      else op.entry in Nodes(t) && Subtree(t, op.entry).left.Node? && Subtree(t, op.entry).right.Node?
  {
    if op.Insert? {
      CostOfSpines(t, Node(Leaf, op.entry, Leaf), comp);
    } else if op.entry in Nodes(t) {
      CostOfSpines(Subtree(t, op.entry).left, Subtree(t, op.entry).right, comp);
    }
  }

  /** So n inserts make at least n - 1 comparisons. */
  lemma {:induction false} InsertsCompare<K>(ops: seq<Op<K>>, comp: Compare<K>)
    requires forall i :: 0 <= i < |ops| ==> ops[i].Insert?
    ensures RunCost(ops, comp) + 1 >= |ops| && Size(Run(ops, comp)) == |ops|
  {
    if ops != [] {
      var before, last := ops[..|ops| - 1], ops[|ops| - 1];
      InsertsCompare(before, comp);
      OpCompares(Run(before, comp), last, comp);
      MergeNodes(Run(before, comp), Node(Leaf, last.entry, Leaf), comp);
    }
  }
}
