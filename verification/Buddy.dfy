/**
 The allocator of lab02/buddy_system.cpp: a complete binary tree of block sizes stored in
 the array `longest`, updated in place. The source is a sketch; its stated intent is
 modelled where the text deviates from it (see IsOrderOfTwoAsWritten).
 */
module Buddy {
  import opened Bits
  import opened BuddySpec

  /** `n > 0 && (n & (n - 1)) == 0`, as the source's comment explains it. */
  predicate IsOrderOfTwo(n: int)
  {
    n > 0 && BitAnd(n, n - 1) == 0
  }

  /** The expression of the source: `n & (n-1)==0` groups as `n & ((n - 1) == 0)`. */
  predicate IsOrderOfTwoAsWritten(n: int)
  {
    n > 0 && BitAnd(n, if n - 1 == 0 then 1 else 0) != 0
  }

  lemma {:induction false} OrderOfTwo(n: int)
    ensures IsOrderOfTwo(n) <==> IsPow2(n)
  {
    if n > 1 {
      if n % 2 == 0 {
        OrderOfTwo(n / 2);
        assert (n - 1) / 2 == n / 2 - 1;
      } else {
        BitAndSelf(n / 2);
        assert (n - 1) / 2 == n / 2;
      }
    }
  }

  lemma {:induction false} BitAndSelf(x: nat)
    ensures BitAnd(x, x) == x
  {
    if x > 0 { BitAndSelf(x / 2); }
  }

  /** Grouped as C++ reads it, the test accepts 1 only: exactly then does it agree with the
      intended test on a power of two. */
  lemma AsWrittenAcceptsOnlyOne(n: int)
    ensures IsOrderOfTwoAsWritten(n) <==> n == 1
    ensures IsOrderOfTwoAsWritten(n) == IsOrderOfTwo(n) <==> !(n > 1 && IsPow2(n))
  {
    OrderOfTwo(n);
    if n >= 1 { assert BitAnd(n / 2, 0) == 0; }
  }

  /** Doubles until the size suffices. */
  method FixSize(n: int) returns (res: int)
    ensures res == FixFrom(1, n)
  {
    res := 1;
    while res < n
      invariant IsPow2(res) && FixFrom(res, n) == FixFrom(1, n)
      decreases n - res
    {
      res := res * 2;
    }
  }

  // ----- the tree -----

  function Parent(i: nat): nat
    requires i > 0
  {
    (i - 1) / 2
  }

  function NodeSize(size: nat, i: nat): nat
  {
    if i == 0 then size else NodeSize(size, Parent(i)) / 2
  }

  function NodeOffset(size: nat, i: nat): nat
  {
    if i == 0 then 0
    else NodeOffset(size, Parent(i)) + (if i % 2 == 0 then NodeSize(size, i) else 0)
  }

  /** The offset formula of the source; a node has children exactly when it is not a unit. */
  lemma {:induction false} NodeFormula(size: nat, i: nat)
    requires IsPow2(size) && i < 2 * size - 1
    ensures Dyadic(NodeOffset(size, i), NodeSize(size, i))
    ensures NodeOffset(size, i) + NodeSize(size, i) <= size
    ensures NodeOffset(size, i) == (i + 1) * NodeSize(size, i) - size
    ensures NodeSize(size, i) > 1 <==> 2 * i + 2 < 2 * size - 1
  {
    var s := NodeSize(size, i);
    if i == 0 {
      assert 0 == 0 * size;
    } else {
      var p := Parent(i);
      NodeFormula(size, p);
      DyadicHalves(NodeOffset(size, p), NodeSize(size, p));
      ChildOffset(p, s, i);
    }
    LeafBound(size, i, s);
  }

  lemma NodeGeometry(size: nat, i: nat)
    requires IsPow2(size) && i < 2 * size - 1
    ensures Dyadic(NodeOffset(size, i), NodeSize(size, i))
    ensures NodeOffset(size, i) + NodeSize(size, i) <= size
    ensures NodeSize(size, i) > 1 <==> 2 * i + 2 < 2 * size - 1
  {
    NodeFormula(size, i);
  }

  lemma NodePositive(size: nat, i: nat)
    requires IsPow2(size) && i < 2 * size - 1
    ensures NodeSize(size, i) >= 1
  {
    NodeGeometry(size, i);
  }

  lemma ChildOffset(p: nat, h: nat, i: nat)
    requires i == 2 * p + 1 || i == 2 * p + 2
    ensures (i + 1) * h == (p + 1) * (h + h) + (if i % 2 == 0 then h else 0)
  {
  }

  lemma LeafBound(size: nat, i: nat, s: nat)
    requires s >= 1 && size <= (i + 1) * s <= 2 * size - s
    ensures s > 1 <==> 2 * i + 2 < 2 * size - 1
  {
    if s > 1 { Scale(2, s, i + 2); }
    assert (i + 2) * s == (i + 1) * s + s;
  }

  /** j lies on the way from i up to the root. */
  predicate Above(j: nat, i: nat)
  {
    i > 0 && (j == Parent(i) || Above(j, Parent(i)))
  }

  /** An ancestor's range contains the node's, at at least twice the size. */
  lemma {:induction false} AboveContains(size: nat, j: nat, i: nat)
    requires IsPow2(size) && i < 2 * size - 1 && Above(j, i)
    ensures j < i && 2 * NodeSize(size, i) <= NodeSize(size, j)
    ensures Within(NodeOffset(size, i), NodeSize(size, i), NodeOffset(size, j), NodeSize(size, j))
  {
    var p := Parent(i);
    NodeGeometry(size, i);
    NodeGeometry(size, p);
    DyadicHalves(NodeOffset(size, p), NodeSize(size, p));
    if j != p { AboveContains(size, j, p); }
  }

  lemma SameNode(size: nat, i: nat, j: nat, s: nat)
    requires s > 0 && (i + 1) * s - size == (j + 1) * s - size
    ensures i == j
  {
    if i < j { Scale(i + 2, j + 1, s); } else if j < i { Scale(j + 2, i + 1, s); }
  }

  /** Two nodes whose ranges meet are the same or one is above the other. */
  lemma {:induction false} OverlapIsAbove(size: nat, i: nat, j: nat)
    requires IsPow2(size) && i < 2 * size - 1 && j < 2 * size - 1
    requires NodeSize(size, i) <= NodeSize(size, j)
    requires Overlap(NodeOffset(size, i), NodeSize(size, i), NodeOffset(size, j), NodeSize(size, j))
    ensures i == j || Above(j, i)
  {
    var s, o := NodeSize(size, i), NodeOffset(size, i);
    var s', o' := NodeSize(size, j), NodeOffset(size, j);
    NodeGeometry(size, i);
    NodeGeometry(size, j);
    if s == s' {
      DyadicNested(o, s, o', s');
      NodeFormula(size, i);
      NodeFormula(size, j);
      SameNode(size, i, j, s);
    } else {
      Pow2Divides(s, s');
      var p := Parent(i);
      NodeGeometry(size, p);
      DyadicHalves(NodeOffset(size, p), NodeSize(size, p));
      OverlapIsAbove(size, p, j);
    }
  }

  /** The node of an aligned block, found from the unit leaf at its start. */
  lemma {:induction false} NodeOfBlock(size: nat, i: nat, o: int, s: int) returns (k: nat)
    requires IsPow2(size) && i < 2 * size - 1
    requires Dyadic(o, s) && o + s <= size && NodeSize(size, i) <= s
    requires Overlap(NodeOffset(size, i), NodeSize(size, i), o, s)
    ensures k < 2 * size - 1 && NodeOffset(size, k) == o && NodeSize(size, k) == s
    ensures k == i || Above(k, i)
  {
    var s', o' := NodeSize(size, i), NodeOffset(size, i);
    NodeGeometry(size, i);
    DyadicNested(o', s', o, s);
    if s' == s {
      k := i;
    } else {
      Pow2Divides(s', s);
      var p := Parent(i);
      NodeGeometry(size, p);
      DyadicHalves(NodeOffset(size, p), NodeSize(size, p));
      k := NodeOfBlock(size, p, o, s);
    }
  }

  /** The unit leaf for an offset: the index/offset formula inverted. */
  lemma LeafOfOffset(size: nat, o: nat)
    requires IsPow2(size) && o < size
    ensures NodeSize(size, size - 1 + o) == 1 && NodeOffset(size, size - 1 + o) == o
  {
    var i := size - 1 + o;
    var s := NodeSize(size, i);
    NodeFormula(size, i);
    if s > 1 { Scale(2, s, size + o + 1); }
    assert (i + 1) * s + s == (i + 2) * s;
  }

  // ----- what the array holds -----

  ghost function NodeValue(live: set<Block>, size: nat, i: nat): int
  {
    Value(live, NodeOffset(size, i), NodeSize(size, i))
  }

  /** The array is determined by the live blocks alone. */
  ghost function Canonical(live: set<Block>, size: nat): seq<int>
  {
    seq(if size == 0 then 0 else 2 * size - 1, i requires 0 <= i => NodeValue(live, size, i))
  }

  ghost function NodeBlock(size: nat, i: nat): Block
  {
    Block(NodeOffset(size, i), NodeSize(size, i))
  }

  /** Adding or removing t's block does not touch a node that is not above t. */
  lemma UntouchedNode(live: set<Block>, size: nat, t: nat, j: nat)
    requires IsPow2(size) && t < 2 * size - 1 && j < 2 * size - 1
    requires Free(live, NodeOffset(size, t), NodeSize(size, t))
    requires j != t && !Above(j, t)
    ensures NodeValue(live + {NodeBlock(size, t)}, size, j) == NodeValue(live, size, j)
  {
    var b := NodeBlock(size, t);
    var o, s := NodeOffset(size, j), NodeSize(size, j);
    NodeGeometry(size, j);
    NodeGeometry(size, t);
    if Overlap(b.offset, b.size, o, s) {
      if b.size <= s { OverlapIsAbove(size, t, j); } else { OverlapIsAbove(size, j, t); }
      AboveContains(size, t, j);
      assert b in live + {b};
      assert Inside(live + {b}, o, s);
      FreePart(live, b.offset, b.size, o, s);
      FreeValue(live, o, s);
    } else {
      ValueFrame(live, live + {b}, o, s);
    }
  }

  lemma FreePart(live: set<Block>, o: int, s: int, o': int, s': int)
    requires Free(live, o, s) && Within(o', s', o, s)
    ensures Free(live, o', s')
  {
    forall b | b in live ensures !Overlap(b.offset, b.size, o', s') {
      assert !Overlap(b.offset, b.size, o, s);
    }
  }

  /** A node whose range properly contains free space or a smaller live block is itself
      neither live nor inside a live block. */
  lemma AboveIsOutside(live: set<Block>, size: nat, t: nat, j: nat)
    requires IsPow2(size) && WellPlaced(live, size) && t < 2 * size - 1 && Above(j, t)
    requires NodeBlock(size, t) in live || Free(live, NodeOffset(size, t), NodeSize(size, t))
    ensures !Inside(live, NodeOffset(size, j), NodeSize(size, j)) && NodeBlock(size, j) !in live
  {
    var b := NodeBlock(size, t);
    AboveContains(size, j, t);
    NodeGeometry(size, t);
    forall a | a in live && a.size > b.size ensures !Within(b.offset, b.size, a.offset, a.size) {
      assert !Overlap(a.offset, a.size, b.offset, b.size);
    }
  }

  /** What two children make of their parent. */
  function Combine(l: int, r: int, s: int): int
  {
    if l + r == s then s else Max(l, r)
  }

  /** The recomputation at a node above t, from the two children. */
  lemma NodeOfChildren(live: set<Block>, size: nat, t: nat, j: nat, l: int, r: int)
    requires IsPow2(size) && WellPlaced(live, size) && t < 2 * size - 1 && Above(j, t)
    requires NodeBlock(size, t) in live || Free(live, NodeOffset(size, t), NodeSize(size, t))
    requires l == NodeValue(live, size, 2 * j + 1) && r == NodeValue(live, size, 2 * j + 2)
    ensures NodeValue(live, size, j) == Combine(l, r, NodeSize(size, j))
    ensures NodeBlock(size, t) in live ==> l + r != NodeSize(size, j)
  {
    hide NodeSize, NodeOffset, IsPow2, Above, WellPlaced, Inside, Value, Dyadic, Free, Combine;
    AboveContains(size, j, t);
    AboveIsOutside(live, size, t, j);
    NodeGeometry(size, j);
    NodeGeometry(size, t);
    Children(size, j);
    NodePositive(size, t);
    RangeOfHalves(live, size, NodeBlock(size, t), NodeOffset(size, j), NodeSize(size, j), l, r);
  }

  /** A range that strictly contains block b. */
  lemma RangeOfHalves(live: set<Block>, size: nat, b: Block, o: int, s: int, l: int, r: int)
    requires WellPlaced(live, size) && Dyadic(o, s) && s > 1 && !Inside(live, o, s) && Block(o, s) !in live
    requires b.size >= 1 && Within(b.offset, b.size, o, s)
    requires l == Value(live, o, s / 2) && r == Value(live, o + s / 2, s / 2)
    ensures Value(live, o, s) == Combine(l, r, s) && (b in live ==> l + r != s)
  {
    ValueOfHalves(live, size, o, s, s / 2);
    hide Value, WellPlaced, Inside, Dyadic;
    if b in live { assert Overlap(b.offset, b.size, o, s); }
  }

  lemma AboveHasChildren(size: nat, j: nat, t: nat)
    requires IsPow2(size) && t < 2 * size - 1 && Above(j, t)
    ensures 2 * j + 2 < 2 * size - 1
  {
    AboveContains(size, j, t);
    NodeGeometry(size, j);
    NodeGeometry(size, t);
  }

  lemma Children(size: nat, j: nat)
    ensures NodeSize(size, 2 * j + 1) == NodeSize(size, 2 * j + 2) == NodeSize(size, j) / 2
    ensures NodeOffset(size, 2 * j + 1) == NodeOffset(size, j)
    ensures NodeOffset(size, 2 * j + 2) == NodeOffset(size, j) + NodeSize(size, j) / 2
  {
    assert Parent(2 * j + 1) == j && Parent(2 * j + 2) == j;
  }

  // ----- steps of the loops -----

  lemma {:induction false} AboveIsSmaller(j: nat, i: nat)
    requires Above(j, i)
    ensures j < i
  {
    if j != Parent(i) { AboveIsSmaller(j, Parent(i)); }
  }

  lemma {:induction false} AboveTransitive(p: nat, i: nat, t: nat)
    requires i > 0 && p == Parent(i) && (i == t || Above(i, t))
    ensures Above(p, t)
  {
    if i != t && i != Parent(t) { AboveTransitive(p, i, Parent(t)); }
  }

  /** Every entry is right except those on the way from index to the root. */
  ghost predicate Settled(a: seq<int>, live: set<Block>, size: nat, index: nat)
    requires size > 0
  {
    && |a| == 2 * size - 1
    && (forall j :: 0 <= j < |a| && !Above(j, index) ==> a[j] == NodeValue(live, size, j))
  }

  lemma ChildrenSettled(a: seq<int>, live: set<Block>, size: nat, t: nat, index: nat, p: nat)
    requires IsPow2(size) && t < 2 * size - 1
    requires index > 0 && (index == t || Above(index, t)) && Settled(a, live, size, index)
    requires p == Parent(index)
    ensures Above(p, t) && 2 * p + 2 < |a|
    ensures a[2 * p + 1] == NodeValue(live, size, 2 * p + 1) && a[2 * p + 2] == NodeValue(live, size, 2 * p + 2)
  {
    AboveTransitive(p, index, t);
    AboveHasChildren(size, p, t);
    NotAboveSibling(2 * p + 1, index);
    NotAboveSibling(2 * p + 2, index);
  }

  /** Once its children are right, a node can be recomputed from them. */
  lemma RecomputeParent(a: seq<int>, live: set<Block>, size: nat, t: nat, index: nat, p: nat, l: int, r: int)
    requires IsPow2(size) && WellPlaced(live, size) && t < 2 * size - 1
    requires NodeBlock(size, t) in live || Free(live, NodeOffset(size, t), NodeSize(size, t))
    requires index > 0 && Settled(a, live, size, index)
    requires p == Parent(index) && p < |a| && Above(p, t)
    requires l == NodeValue(live, size, 2 * p + 1) && r == NodeValue(live, size, 2 * p + 2)
    ensures Settled(a[p := Combine(l, r, NodeSize(size, p))], live, size, p)
    ensures NodeBlock(size, t) in live ==> l + r != NodeSize(size, p)
  {
    NodeOfChildren(live, size, t, p, l, r);
    SettleParent(a, live, size, index, p, Combine(l, r, NodeSize(size, p)));
  }

  /** One round of either upward loop. */
  lemma ClimbStep(a: seq<int>, live: set<Block>, size: nat, t: nat, index: nat, p: nat)
      returns (next: seq<int>)
    requires IsPow2(size) && WellPlaced(live, size) && t < 2 * size - 1
    requires NodeBlock(size, t) in live || Free(live, NodeOffset(size, t), NodeSize(size, t))
    requires index > 0 && (index == t || Above(index, t)) && Settled(a, live, size, index)
    requires p == Parent(index)
    ensures Above(p, t) && 2 * p + 2 < |a|
    ensures next == a[p := Combine(a[2 * p + 1], a[2 * p + 2], NodeSize(size, p))]
    ensures Settled(next, live, size, p)
    ensures NodeBlock(size, t) in live ==> a[2 * p + 1] + a[2 * p + 2] != NodeSize(size, p)
  {
    ChildrenSettled(a, live, size, t, index, p);
    RecomputeParent(a, live, size, t, index, p, a[2 * p + 1], a[2 * p + 2]);
    next := a[p := Combine(a[2 * p + 1], a[2 * p + 2], NodeSize(size, p))];
  }

  lemma SettleParent(a: seq<int>, live: set<Block>, size: nat, index: nat, p: nat, v: int)
    requires size > 0 && index > 0 && p == Parent(index) && p < |a|
    requires Settled(a, live, size, index) && v == NodeValue(live, size, p)
    ensures Settled(a[p := v], live, size, p)
  {
  }

  lemma NotAboveSibling(c: nat, i: nat)
    requires i > 0 && (c == 2 * Parent(i) + 1 || c == 2 * Parent(i) + 2)
    ensures !Above(c, i)
  {
    if Above(c, Parent(i)) { AboveIsSmaller(c, Parent(i)); }
  }

  /** The descent: a child that can serve the request, the left one if possible. */
  lemma DescendStep(live: set<Block>, size: nat, i: nat, s: int)
    requires IsPow2(size) && WellPlaced(live, size) && i < 2 * size - 1
    requires IsPow2(s) && s < NodeSize(size, i) && s <= NodeValue(live, size, i)
    requires !Inside(live, NodeOffset(size, i), NodeSize(size, i))
    ensures 2 * i + 2 < 2 * size - 1 && s <= NodeSize(size, 2 * i + 1) == NodeSize(size, 2 * i + 2)
    ensures NodeSize(size, i) / 2 == NodeSize(size, 2 * i + 1)
    ensures !Inside(live, NodeOffset(size, 2 * i + 1), NodeSize(size, 2 * i + 1))
    ensures !Inside(live, NodeOffset(size, 2 * i + 2), NodeSize(size, 2 * i + 2))
    ensures NodeValue(live, size, 2 * i + 1) < s ==> s <= NodeValue(live, size, 2 * i + 2)
    ensures NodeOffset(size, 2 * i + 1) == NodeOffset(size, i)
    ensures NodeValue(live, size, 2 * i + 1) < s ==>
      forall a :: FreeBlock(live, size, a, s) && a >= NodeOffset(size, i) ==> a >= NodeOffset(size, 2 * i + 2)
  {
    var o, n := NodeOffset(size, i), NodeSize(size, i);
    NodeGeometry(size, i);
    Children(size, i);
    Pow2Divides(s, n);
    DyadicHalves(o, n);
    if NodeBlock(size, i) in live { LiveValue(live, size, NodeBlock(size, i)); }
    ValueOfHalves(live, size, o, n, n / 2);
    if NodeValue(live, size, 2 * i + 1) < s {
      forall a | FreeBlock(live, size, a, s) && a >= o ensures a >= o + n / 2 {
        if a < o + n / 2 {
          DyadicNested(a, s, o, n / 2);
          assert FreeWithin(live, o, n / 2, s);
        }
      }
    }
  }

  /** The root covers every block. */
  lemma RootCovers(live: set<Block>, size: nat, s: int)
    requires IsPow2(size) && WellPlaced(live, size)
    ensures !Inside(live, NodeOffset(size, 0), NodeSize(size, 0))
    ensures NodeValue(live, size, 0) <= size
    ensures forall a :: FreeBlock(live, size, a, s) ==> s <= NodeValue(live, size, 0)
  {
    NodeGeometry(size, 0);
    FullIsFree(live, 0, size);
    forall a | FreeBlock(live, size, a, s) ensures s <= NodeValue(live, size, 0) {
      assert FreeWithin(live, 0, size, s);
    }
  }

  lemma RoundedOfPow2(s: int)
    requires IsPow2(s)
    ensures Rounded(s) == s
  {
    RoundedIsLeast(s, s);
  }

  /** The first fit is determined by being lowest. */
  lemma LowestIsFirstFit(live: set<Block>, size: int, s: int, o: int)
    requires IsPow2(s) && FreeBlock(live, size, o, s)
    requires forall a :: FreeBlock(live, size, a, s) ==> a >= o
    ensures FirstFit(live, size, s, 0) == o
  {
    assert Dyadic(0, s) by { assert 0 == 0 * s; }
    FirstFitIsLowest(live, size, s, 0);
  }

  lemma NoneIsNoFit(live: set<Block>, size: int, s: int)
    requires IsPow2(s) && forall a :: !FreeBlock(live, size, a, s)
    ensures FirstFit(live, size, s, 0) == -1
  {
    assert Dyadic(0, s) by { assert 0 == 0 * s; }
    FirstFitIsLowest(live, size, s, 0);
  }

  /** The entries right after marking t, before its ancestors are recomputed. */
  lemma MarkSettles(a: seq<int>, live: set<Block>, size: nat, t: nat)
    requires IsPow2(size) && WellPlaced(live, size) && t < 2 * size - 1
    requires a == Canonical(live, size)
    requires Free(live, NodeOffset(size, t), NodeSize(size, t))
    ensures WellPlaced(live + {NodeBlock(size, t)}, size)
    ensures Settled(a[t := 0], live + {NodeBlock(size, t)}, size, t)
  {
    var b := NodeBlock(size, t);
    NodeGeometry(size, t);
    LiveValue(live + {b}, size, b);
    forall j | 0 <= j < |a| && j != t && !Above(j, t)
      ensures a[j] == NodeValue(live + {b}, size, j)
    {
      UntouchedNode(live, size, t, j);
    }
  }

  lemma ClearSettles(a: seq<int>, live: set<Block>, size: nat, t: nat)
    requires IsPow2(size) && WellPlaced(live, size) && t < 2 * size - 1
    requires a == Canonical(live, size) && NodeBlock(size, t) in live
    ensures var rest := live - {NodeBlock(size, t)};
      && WellPlaced(rest, size) && Free(rest, NodeOffset(size, t), NodeSize(size, t))
      && Settled(a[t := NodeSize(size, t)], rest, size, t)
  {
    var b := NodeBlock(size, t);
    var rest := live - {b};
    NodeGeometry(size, t);
    forall c | c in rest ensures !Overlap(c.offset, c.size, b.offset, b.size) {
      assert c in live && c != b;
    }
    FreeValue(rest, b.offset, b.size);
    assert rest + {b} == live;
    forall j | 0 <= j < |a| && j != t && !Above(j, t) ensures a[j] == NodeValue(rest, size, j) {
      UntouchedNode(rest, size, t, j);
    }
  }

  /** From one index to the next, the node size halves exactly when a new level starts. */
  lemma {:induction false} LevelStep(size: nat, i: nat)
    requires i > 0
    ensures NodeSize(size, i) == if IsPow2(i + 1) then NodeSize(size, i - 1) / 2 else NodeSize(size, i - 1)
  {
    if i > 1 && i % 2 == 1 {
      LevelStep(size, Parent(i));
      assert Parent(i - 1) == Parent(i) - 1;
    }
  }

  lemma EmptyValue(size: nat, i: nat)
    requires IsPow2(size) && i < 2 * size - 1
    ensures NodeValue({}, size, i) == NodeSize(size, i)
  {
    NodeGeometry(size, i);
    FreeValue({}, NodeOffset(size, i), NodeSize(size, i));
  }

  // ----- the allocator -----

  class Buddy2 {
    var size: nat
    var longest: array<int>
    ghost var live: set<Block>

    ghost predicate Valid()
      reads this, longest
    {
      && (size == 0 || IsPow2(size))
      && WellPlaced(live, size)
      && longest[..] == Canonical(live, size)
    }

    constructor (n: int)
      ensures Valid() && live == {} && fresh(longest)
      ensures size == if IsPow2(n) then n else 0
    {
      live := {};
      OrderOfTwo(n);
      var bad := n < 1 || !IsOrderOfTwo(n);
      size := if bad then 0 else n;
      longest := new int[if bad then 0 else 2 * n - 1];
      new;
      if bad {
        return;
      }
      var nodeSize := 2 * n;
      var i := 0;
      while i < 2 * n - 1
        invariant 0 <= i <= 2 * n - 1 == longest.Length && fresh(longest)
        invariant size == n && live == {}
        invariant nodeSize == if i == 0 then 2 * n else NodeSize(n, i - 1)
        invariant forall j :: 0 <= j < i ==> longest[j] == NodeValue({}, n, j)
      {
        OrderOfTwo(i + 1);
        if IsOrderOfTwo(i + 1) {
          nodeSize := nodeSize / 2;
        }
        if i > 0 { LevelStep(n, i); }
        EmptyValue(n, i);
        longest[i] := nodeSize;
        i := i + 1;
      }
    }

    /** Returns the lowest aligned free offset for the rounded-up size, or -1. */
    method Alloc(units: int) returns (offset: int)
      requires Valid() && size > 0
      modifies this`live, longest
      ensures Valid()
      ensures offset == AllocOffset(old(live), size, units)
      ensures live == AfterAlloc(old(live), size, units)
    {
      var s := units;
      if s <= 0 {
        s := 1;
      } else {
        OrderOfTwo(s);
        if !IsOrderOfTwo(s) {
          s := FixSize(s);
        } else {
          RoundedOfPow2(s);
        }
      }
      RootCovers(live, size, s);
      if longest[0] < s {
        NoneIsNoFit(live, size, s);
        return -1;
      }
      var index, nodeSize := Descend(s);
      NodeFormula(size, index);
      LowestIsFirstFit(live, size, s, NodeOffset(size, index));
      MarkSettles(longest[..], live, size, index);
      ghost var before := longest[..];
      longest[index] := 0;
      assert longest[..] == before[index := 0];
      live := live + {NodeBlock(size, index)};
      offset := (index + 1) * nodeSize - size;
      ClimbAfterAlloc(index);
    }

    /** From the root to the node that is marked: left if the left half can serve the request. */
    method Descend(s: int) returns (index: nat, nodeSize: int)
      requires Valid() && size > 0 && IsPow2(s) && s <= NodeValue(live, size, 0)
      ensures index < 2 * size - 1 && nodeSize == s == NodeSize(size, index)
      ensures BuddySpec.Free(live, NodeOffset(size, index), s)
      ensures forall a :: FreeBlock(live, size, a, s) ==> a >= NodeOffset(size, index)
    {
      index := 0;
      RootCovers(live, size, s);
      nodeSize := size;
      while nodeSize != s
        invariant index < 2 * size - 1 && nodeSize == NodeSize(size, index)
        invariant s <= nodeSize && s <= NodeValue(live, size, index)
        invariant !Inside(live, NodeOffset(size, index), nodeSize)
        invariant forall a :: FreeBlock(live, size, a, s) ==> a >= NodeOffset(size, index)
        decreases nodeSize
      {
        DescendStep(live, size, index, s);
        if longest[2 * index + 1] >= s {
          index := 2 * index + 1;
        } else {
          index := 2 * index + 2;
        }
        nodeSize := nodeSize / 2;
      }
      NodeGeometry(size, index);
      FullIsFree(live, NodeOffset(size, index), s);
    }

    /** Upwards after marking t: each parent becomes the larger of its children. */
    method ClimbAfterAlloc(t: nat)
      requires IsPow2(size) && WellPlaced(live, size) && t < 2 * size - 1
      requires NodeBlock(size, t) in live && Settled(longest[..], live, size, t)
      modifies longest
      ensures longest[..] == Canonical(live, size)
    {
      hide NodeSize, NodeOffset, WellPlaced, NodeValue, IsPow2;
      var index := t;
      while index != 0
        invariant 0 <= index < 2 * size - 1 && (index == t || Above(index, t))
        invariant Settled(longest[..], live, size, index)
      {
        ghost var before := longest[..];
        ghost var p := (index - 1) / 2;
        ghost var next := ClimbStep(before, live, size, t, index, p);
        index := (index - 1) / 2;
        longest[index] := Max(longest[2 * index + 1], longest[2 * index + 2]);
        assert longest[..] == next;
      }
    }

    /** Releases the live block that contains the offset, if there is one. */
    method Free(offset: int)
      requires Valid() && 0 <= offset < size
      modifies this`live, longest
      ensures Valid()
      ensures live == AfterFree(old(live), offset)
      ensures live == old(live) ==> longest[..] == old(longest[..])
    {
      var found, index, nodeSize := FindUsed(offset);
      if !found {
        return;
      }
      ReleasesOne(live, size, NodeBlock(size, index), offset);
      ClearSettles(longest[..], live, size, index);
      ghost var before := longest[..];
      longest[index] := nodeSize;
      assert longest[..] == before[index := nodeSize];
      live := live - {NodeBlock(size, index)};
      ClimbAfterFree(index, nodeSize);
    }

    /** From the leaf of the offset up to the first node marked 0. */
    method FindUsed(offset: int) returns (found: bool, index: nat, nodeSize: int)
      requires Valid() && 0 <= offset < size
      ensures found ==> index < 2 * size - 1 && nodeSize == NodeSize(size, index)
      ensures found ==> NodeBlock(size, index) in live && Covers(NodeBlock(size, index), offset)
      ensures !found ==> AfterFree(live, offset) == live
    {
      nodeSize := 1;
      index := size - 1 + offset;
      ghost var leaf := index;
      LeafOfOffset(size, offset);
      while longest[index] != 0
        invariant index < 2 * size - 1 && (index == leaf || Above(index, leaf))
        invariant nodeSize == NodeSize(size, index)
        invariant Covers(NodeBlock(size, index), offset)
        invariant forall k :: 0 <= k < 2 * size - 1 && Passed(k, leaf, index) ==> longest[k] != 0
        decreases index
      {
        nodeSize := nodeSize * 2;
        if index == 0 {
          NothingCovers(longest[..], live, size, leaf, offset);
          return false, index, nodeSize;
        }
        NextUp(size, leaf, index, offset);
        index := (index - 1) / 2;
      }
      FoundLive(longest[..], live, size, leaf, index, offset);
      found := true;
    }

    /** Upwards after restoring t: two whole children merge, otherwise the larger one counts. */
    method ClimbAfterFree(t: nat, restored: int)
      requires IsPow2(size) && WellPlaced(live, size) && t < 2 * size - 1
      requires BuddySpec.Free(live, NodeOffset(size, t), NodeSize(size, t))
      requires restored == NodeSize(size, t) && Settled(longest[..], live, size, t)
      modifies longest
      ensures longest[..] == Canonical(live, size)
    {
      hide NodeSize, NodeOffset, WellPlaced, NodeValue, IsPow2;
      var index, nodeSize := t, restored;
      while index != 0
        invariant 0 <= index < 2 * size - 1 && (index == t || Above(index, t))
        invariant nodeSize == NodeSize(size, index)
        invariant Settled(longest[..], live, size, index)
      {
        ghost var before := longest[..];
        ghost var p := (index - 1) / 2;
        ghost var next := ClimbStep(before, live, size, t, index, p);
        DoubleSize(size, index);
        index := (index - 1) / 2;
        nodeSize := nodeSize * 2;
        var ll := longest[2 * index + 1];
        var rl := longest[2 * index + 2];
        assert next == before[index := Combine(ll, rl, nodeSize)];
        if ll + rl == nodeSize {
          longest[index] := nodeSize;
        } else {
          longest[index] := Max(ll, rl);
        }
        assert longest[..] == next;
      }
    }
  }

  // ----- the climb from a leaf -----

  /** The nodes on the way from the leaf that have been left behind at index. */
  predicate Passed(k: nat, leaf: nat, index: nat)
  {
    (k == leaf || Above(k, leaf)) && k != index && !Above(k, index)
  }

  lemma DoubleSize(size: nat, i: nat)
    requires IsPow2(size) && 0 < i < 2 * size - 1
    ensures NodeSize(size, Parent(i)) == 2 * NodeSize(size, i)
  {
    NodeGeometry(size, i);
    NodeGeometry(size, Parent(i));
    DyadicHalves(NodeOffset(size, Parent(i)), NodeSize(size, Parent(i)));
  }

  lemma NextUp(size: nat, leaf: nat, index: nat, o: int)
    requires IsPow2(size) && leaf < 2 * size - 1 && 0 < index < 2 * size - 1
    requires index == leaf || Above(index, leaf)
    requires Covers(NodeBlock(size, index), o)
    ensures var p := Parent(index);
      && Above(p, leaf) && NodeSize(size, p) == 2 * NodeSize(size, index) && Covers(NodeBlock(size, p), o)
    ensures forall k :: Passed(k, leaf, Parent(index)) ==> k == index || Passed(k, leaf, index)
  {
    var p := Parent(index);
    AboveTransitive(p, index, leaf);
    DoubleSize(size, index);
    AboveContains(size, p, index);
  }

  /** Two ancestors of the same node are comparable. */
  lemma {:induction false} OnePath(j: nat, k: nat, i: nat)
    requires (j == i || Above(j, i)) && (k == i || Above(k, i))
    ensures j == k || Above(j, k) || Above(k, j)
    decreases i
  {
    if j != i && k != i { OnePath(j, k, Parent(i)); }
  }

  /** A live block that contains the offset lies on the way up, and there the entry is 0. */
  lemma CoveringNode(a: seq<int>, live: set<Block>, size: nat, leaf: nat, b: Block, o: int) returns (k: nat)
    requires IsPow2(size) && WellPlaced(live, size) && a == Canonical(live, size)
    requires 0 <= o < size && leaf == size - 1 + o && b in live && Covers(b, o)
    ensures k < |a| && a[k] == 0 && NodeBlock(size, k) == b && (k == leaf || Above(k, leaf))
  {
    LeafOfOffset(size, o);
    k := NodeOfBlock(size, leaf, b.offset, b.size);
    LiveValue(live, size, b);
  }

  lemma NothingCovers(a: seq<int>, live: set<Block>, size: nat, leaf: nat, o: int)
    requires IsPow2(size) && WellPlaced(live, size) && a == Canonical(live, size)
    requires 0 <= o < size && leaf == size - 1 + o && a[0] != 0
    requires forall k :: 0 <= k < |a| && Passed(k, leaf, 0) ==> a[k] != 0
    ensures AfterFree(live, o) == live
  {
    forall b | b in live ensures !Covers(b, o) {
      if Covers(b, o) {
        var k := CoveringNode(a, live, size, leaf, b, o);
      }
    }
  }

  /** Where no live block contains the offset, the unit there is free. */
  lemma UncoveredIsFree(a: seq<int>, live: set<Block>, size: nat, t: nat, o: int)
    requires IsPow2(size) && WellPlaced(live, size) && a == Canonical(live, size)
    requires 0 <= o < size && t < |a| && Covers(NodeBlock(size, t), o) && forall b :: b in live ==> !Covers(b, o)
    ensures a[t] != 0
  {
    NodeGeometry(size, t);
    LeafOfOffset(size, o);
    NodeGeometry(size, size - 1 + o);
    var n, p := NodeSize(size, t), NodeOffset(size, t);
    assert BuddySpec.Free(live, o, 1);
    assert Within(o, 1, p, n) && FreeWithin(live, p, n, 1);
  }

  /** The first zero on the way up is the live block that contains the offset. */
  lemma FoundLive(a: seq<int>, live: set<Block>, size: nat, leaf: nat, t: nat, o: int)
    requires IsPow2(size) && WellPlaced(live, size) && a == Canonical(live, size)
    requires 0 <= o < size && leaf == size - 1 + o && t < |a| && a[t] == 0
    requires t == leaf || Above(t, leaf)
    requires Covers(NodeBlock(size, t), o)
    requires forall k :: 0 <= k < |a| && Passed(k, leaf, t) ==> a[k] != 0
    ensures NodeBlock(size, t) in live && Covers(NodeBlock(size, t), o)
  {
    if forall b :: b in live ==> !Covers(b, o) {
      UncoveredIsFree(a, live, size, t, o);
    } else {
      var b :| b in live && Covers(b, o);
      var k := CoveringNode(a, live, size, leaf, b, o);
      OnePath(k, t, leaf);
      if Above(k, t) {
        AboveContains(size, k, t);
      } else if Above(t, k) {
        AboveIsSmaller(t, k);
        if Above(k, t) { AboveIsSmaller(k, t); }
      }
    }
  }
}
