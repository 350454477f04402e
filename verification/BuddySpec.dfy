/**
 The buddy allocator of lab02/buddy_system.cpp seen from outside: which blocks are live,
 which aligned blocks are free, and what the tree array must therefore hold.
 */
module BuddySpec {
  import opened Bits

  datatype Block = Block(offset: int, size: int)

  // ----- aligned blocks -----

  ghost predicate Multiple(x: int, s: int)
  {
    exists q :: x == q * s
  }

  /** The block starts at a multiple of its own power-of-two size. */
  ghost predicate Dyadic(o: int, s: int)
  {
    o >= 0 && IsPow2(s) && Multiple(o, s)
  }

  predicate Overlap(o: int, s: int, o': int, s': int)
  {
    o < o' + s' && o' < o + s
  }

  predicate Within(o: int, s: int, o': int, s': int)
  {
    o' <= o && o + s <= o' + s'
  }

  lemma {:induction false} Pow2Divides(s: int, t: int)
    requires IsPow2(s) && IsPow2(t) && s <= t
    ensures Multiple(t, s)
    ensures s < t ==> 2 * s <= t && Multiple(t / 2, s)
  {
    if s == t {
      assert t == 1 * s;
    } else {
      assert IsPow2(t / 2);
      if s > 1 {
        Pow2Divides(s / 2, t / 2);
        var q :| t / 2 == q * (s / 2);
        assert t == q * s;
        assert s / 2 < t / 2;
        var r :| t / 2 / 2 == r * (s / 2);
        assert t / 2 == r * s;
      } else {
        assert t == t * s && t / 2 == (t / 2) * s;
      }
    }
  }

  /** Aligned blocks are disjoint or nested. */
  lemma DyadicNested(o: int, s: int, o': int, s': int)
    requires Dyadic(o, s) && Dyadic(o', s') && s <= s' && Overlap(o, s, o', s')
    ensures Within(o, s, o', s')
  {
    Pow2Divides(s, s');
    var w :| s' == w * s;
    var q, q' :| o == q * s && o' == q' * s';
    assert o' == (q' * w) * s by { Regroup(q', w, s, s'); }
    NestedSteps(q, q' * w, w, s);
  }

  lemma Regroup(q: int, w: int, s: int, t: int)
    requires t == w * s
    ensures q * t == (q * w) * s
  {
  }

  lemma NestedSteps(q: int, a: int, w: int, s: int)
    requires s > 0 && q * s < a * s + w * s && a * s < q * s + s
    ensures a * s <= q * s && q * s + s <= a * s + w * s
  {
    assert a * s + w * s == (a + w) * s && q * s + s == (q + 1) * s;
    Steps(q, a + w, s);
    Steps(a, q + 1, s);
    Scale(a, q, s);
    Scale(q + 1, a + w, s);
  }

  lemma Steps(a: int, b: int, s: int)
    requires s > 0 && a * s < b * s
    ensures a < b
  {
    if a >= b { Scale(b, a, s); }
  }

  lemma Scale(a: int, b: int, s: int)
    requires s > 0 && a <= b
    ensures a * s <= b * s
  {
    assert (b - a) * s >= 0;
  }

  /** The two halves of an aligned block are aligned. */
  lemma DyadicHalves(o: int, s: int)
    requires Dyadic(o, s) && s > 1
    ensures Dyadic(o, s / 2) && Dyadic(o + s / 2, s / 2) && s / 2 + s / 2 == s
  {
    var q :| o == q * s;
    var h := s / 2;
    assert o == (2 * q) * h && o + h == (2 * q + 1) * h;
  }

  // ----- live blocks -----

  /** The live blocks are aligned, inside the arena and pairwise disjoint. */
  ghost predicate WellPlaced(live: set<Block>, size: int)
  {
    && (forall b :: b in live ==> Dyadic(b.offset, b.size) && b.offset + b.size <= size)
    && (forall a, b :: a in live && b in live && a != b ==> !Overlap(a.offset, a.size, b.offset, b.size))
  }

  ghost predicate Free(live: set<Block>, o: int, s: int)
  {
    forall b :: b in live ==> !Overlap(b.offset, b.size, o, s)
  }

  /** The range lies strictly inside a live block. */
  ghost predicate Inside(live: set<Block>, o: int, s: int)
  {
    exists b :: b in live && b.size > s && Within(o, s, b.offset, b.size)
  }

  /** An aligned, wholly free block of the arena. */
  ghost predicate FreeBlock(live: set<Block>, size: int, o: int, s: int)
  {
    Dyadic(o, s) && o + s <= size && Free(live, o, s)
  }

  function Max(a: int, b: int): int
  {
    if a >= b then a else b
  }

  /** Some aligned block of size t in the range is wholly free. */
  ghost predicate FreeWithin(live: set<Block>, o: int, s: int, t: int)
  {
    exists a :: Dyadic(a, t) && Within(a, t, o, s) && Free(live, a, t)
  }

  ghost predicate IsLargest(live: set<Block>, o: int, s: int, v: int)
  {
    && 0 <= v
    && (v > 0 ==> FreeWithin(live, o, s, v))
    && (forall t :: FreeWithin(live, o, s, t) ==> t <= v)
  }

  /** The size of the largest aligned, wholly free block in [o, o + s), or 0. */
  ghost function LargestFree(live: set<Block>, o: int, s: int): (v: int)
    requires s >= 0
    ensures IsLargest(live, o, s, v)
  {
    LargestExists(live, o, s, s);
    var v :| IsLargest(live, o, s, v);
    v
  }

  lemma {:induction false} LargestExists(live: set<Block>, o: int, s: int, n: nat)
    requires forall t :: FreeWithin(live, o, s, t) ==> t <= n
    ensures exists v :: IsLargest(live, o, s, v)
  {
    if n == 0 || FreeWithin(live, o, s, n) {
      assert IsLargest(live, o, s, n);
    } else {
      LargestExists(live, o, s, n - 1);
    }
  }

  /** What the tree holds for the node that covers [o, o + s). Nodes strictly inside a live
      block keep their full size: the allocator never visits them. */
  ghost function Value(live: set<Block>, o: int, s: int): int
    requires s >= 0
  {
    if Inside(live, o, s) then s else LargestFree(live, o, s)
  }

  lemma LargestIsUnique(live: set<Block>, o: int, s: int, v: int)
    requires s >= 0 && IsLargest(live, o, s, v)
    ensures LargestFree(live, o, s) == v
  {
  }

  /** Only the live blocks that overlap the range matter. */
  lemma ValueFrame(live: set<Block>, live': set<Block>, o: int, s: int)
    requires s >= 1
    requires forall b: Block :: Overlap(b.offset, b.size, o, s) ==> (b in live <==> b in live')
    ensures Value(live, o, s) == Value(live', o, s)
  {
    FreeWithinFrame(live, live', o, s);
    LargestIsUnique(live', o, s, LargestFree(live, o, s));
  }

  lemma FreeWithinFrame(live: set<Block>, live': set<Block>, o: int, s: int)
    requires s >= 1
    requires forall b: Block :: Overlap(b.offset, b.size, o, s) ==> (b in live <==> b in live')
    ensures Inside(live, o, s) <==> Inside(live', o, s)
    ensures forall t :: FreeWithin(live, o, s, t) <==> FreeWithin(live', o, s, t)
  {
    forall a, t | Within(a, t, o, s) ensures Free(live, a, t) <==> Free(live', a, t) {
      forall b: Block | Overlap(b.offset, b.size, a, t) ensures b in live <==> b in live' {
        assert t < 1 || Overlap(b.offset, b.size, o, s);
      }
    }
  }

  /** A free node holds its full size. */
  lemma FreeValue(live: set<Block>, o: int, s: int)
    requires Dyadic(o, s) && Free(live, o, s)
    ensures !Inside(live, o, s) && Value(live, o, s) == s
  {
    forall b | b in live ensures !Within(o, s, b.offset, b.size) {
      assert !Overlap(b.offset, b.size, o, s);
    }
    assert Within(o, s, o, s) && FreeWithin(live, o, s, s);
    LargestIsUnique(live, o, s, s);
  }

  /** The node of a live block holds 0. */
  lemma LiveValue(live: set<Block>, size: int, b: Block)
    requires WellPlaced(live, size) && b in live
    ensures !Inside(live, b.offset, b.size) && Value(live, b.offset, b.size) == 0
  {
    forall a | a in live && a.size > b.size ensures !Within(b.offset, b.size, a.offset, a.size) {
      assert !Overlap(a.offset, a.size, b.offset, b.size);
    }
    forall a, t | Dyadic(a, t) && Within(a, t, b.offset, b.size) ensures !Free(live, a, t) {
      assert Overlap(b.offset, b.size, a, t);
    }
    LargestIsUnique(live, b.offset, b.size, 0);
  }

  /** A node that is neither live nor inside a live block combines its halves: it is whole
      exactly when both of them are. */
  lemma ValueOfHalves(live: set<Block>, size: int, o: int, s: int, h: int)
    requires WellPlaced(live, size) && Dyadic(o, s) && s > 1 && h == s / 2
    requires !Inside(live, o, s) && Block(o, s) !in live
    ensures !Inside(live, o, h) && !Inside(live, o + h, h)
    ensures var l, r := Value(live, o, h), Value(live, o + h, h);
      && 0 <= l <= h && 0 <= r <= h
      && Value(live, o, s) == (if Free(live, o, s) then s else Max(l, r))
      && (l + r == s <==> Free(live, o, s))
  {
    DyadicHalves(o, s);
    NotInsideHalf(live, size, o, s, o);
    NotInsideHalf(live, size, o, s, o + h);
    FullIsFree(live, o, h);
    FullIsFree(live, o + h, h);
    assert Free(live, o, s) <==> Free(live, o, h) && Free(live, o + h, h) by { FreeHalves(live, o, h); }
    if Free(live, o, s) {
      FreeValue(live, o, s);
    } else {
      LargestOfHalves(live, o, s, h, LargestFree(live, o, h), LargestFree(live, o + h, h));
    }
  }

  lemma FreeHalves(live: set<Block>, o: int, h: int)
    requires h > 0 && forall b :: b in live ==> b.size > 0
    ensures Free(live, o, h + h) <==> Free(live, o, h) && Free(live, o + h, h)
  {
    forall b | b in live
      ensures Overlap(b.offset, b.size, o, h + h) <==>
              Overlap(b.offset, b.size, o, h) || Overlap(b.offset, b.size, o + h, h)
    {
    }
  }

  lemma LargestOfHalves(live: set<Block>, o: int, s: int, h: int, l: int, r: int)
    requires Dyadic(o, s) && s > 1 && h == s / 2 && !Free(live, o, s)
    requires IsLargest(live, o, h, l) && IsLargest(live, o + h, h, r)
    ensures LargestFree(live, o, s) == Max(l, r)
  {
    var v := Max(l, r);
    DyadicHalves(o, s);
    forall t | FreeWithin(live, o, s, t) ensures t <= v {
      var a :| Dyadic(a, t) && Within(a, t, o, s) && Free(live, a, t);
      assert t < s;
      WithinHalf(a, t, o, s);
      assert FreeWithin(live, o, h, t) || FreeWithin(live, o + h, h, t);
    }
    if v > 0 {
      var half := if v == l then o else o + h;
      var a :| Dyadic(a, v) && Within(a, v, half, h) && Free(live, a, v);
      assert Within(a, v, o, s);
    }
    LargestIsUnique(live, o, s, v);
  }

  lemma NotInsideHalf(live: set<Block>, size: int, o: int, s: int, half: int)
    requires WellPlaced(live, size) && Dyadic(o, s) && s > 1
    requires half == o || half == o + s / 2
    requires !Inside(live, o, s) && Block(o, s) !in live
    ensures !Inside(live, half, s / 2)
  {
    var h := s / 2;
    forall b | b in live && b.size > h ensures !Within(half, h, b.offset, b.size) {
      if Within(half, h, b.offset, b.size) {
        if b.size < s {
          Pow2Divides(b.size, s);
        } else {
          DyadicNested(o, s, b.offset, b.size);
        }
      }
    }
  }

  /** Outside the live blocks, a node holds its full size only when it is wholly free. */
  lemma FullIsFree(live: set<Block>, o: int, s: int)
    requires Dyadic(o, s) && !Inside(live, o, s)
    ensures 0 <= Value(live, o, s) <= s
    ensures Value(live, o, s) == s <==> Free(live, o, s)
  {
    if Free(live, o, s) { FreeValue(live, o, s); }
    if LargestFree(live, o, s) > 0 {
      var a :| Within(a, LargestFree(live, o, s), o, s) && Free(live, a, LargestFree(live, o, s));
    }
  }

  /** A smaller aligned block lies in one half. */
  lemma WithinHalf(a: int, t: int, o: int, s: int)
    requires Dyadic(a, t) && Dyadic(o, s) && t < s && Within(a, t, o, s)
    ensures Within(a, t, o, s / 2) || Within(a, t, o + s / 2, s / 2)
  {
    Pow2Divides(t, s);
    DyadicHalves(o, s);
    if Overlap(a, t, o, s / 2) {
      DyadicNested(a, t, o, s / 2);
    } else {
      DyadicNested(a, t, o + s / 2, s / 2);
    }
  }

  // ----- the operations on live blocks -----

  /** The least power of two that is at least n, by doubling. */
  function FixFrom(res: int, n: int): (r: int)
    requires IsPow2(res)
    ensures IsPow2(r) && r >= n
    decreases n - res
  {
    if res >= n then res else FixFrom(2 * res, n)
  }

  /** The block size that serves a request for s units. */
  function Rounded(s: int): int
  {
    FixFrom(1, s)
  }

  lemma NextPow2(s: int, t: int)
    requires IsPow2(s) && IsPow2(t) && s < t
    ensures 2 * s <= t && IsPow2(2 * s)
  {
    Pow2Divides(s, t);
  }

  lemma {:induction false} FixFromIsLeast(res: int, n: int, p: int)
    requires IsPow2(res) && IsPow2(p) && p >= n && p >= res
    ensures FixFrom(res, n) <= p
    decreases n - res
  {
    if res < n {
      NextPow2(res, p);
      FixFromIsLeast(2 * res, n, p);
    }
  }

  lemma RoundedIsLeast(s: int, p: int)
    requires IsPow2(p) && p >= s
    ensures Rounded(s) <= p
  {
    FixFromIsLeast(1, s, p);
  }

  /** A linear scan over the aligned offsets, from o on. */
  ghost function FirstFit(live: set<Block>, size: int, s: int, o: int): int
    requires s >= 1
    decreases size - o
  {
    if o + s > size then -1
    else if Free(live, o, s) then o
    else FirstFit(live, size, s, o + s)
  }

  /** The scan finds the lowest aligned free block, and fails only if there is none. */
  lemma {:induction false} FirstFitIsLowest(live: set<Block>, size: int, s: int, o: int)
    requires Dyadic(o, s)
    ensures var r := FirstFit(live, size, s, o);
      && (r == -1 || (r >= o && FreeBlock(live, size, r, s)))
      && (forall a :: o <= a && FreeBlock(live, size, a, s) ==> r != -1 && r <= a)
    decreases size - o
  {
    if o + s <= size && !Free(live, o, s) {
      var q :| o == q * s;
      assert o + s == (q + 1) * s;
      FirstFitIsLowest(live, size, s, o + s);
      forall a | o <= a && FreeBlock(live, size, a, s) ensures o + s <= a {
        var q' :| a == q' * s;
        if a < o + s { Steps(q', q + 1, s); Scale(q', q, s); }
      }
    }
  }

  /** Allocation takes the first fit for the rounded size. */
  ghost function AllocOffset(live: set<Block>, size: int, s: int): int
  {
    FirstFit(live, size, Rounded(s), 0)
  }

  ghost function AfterAlloc(live: set<Block>, size: int, s: int): set<Block>
  {
    var o := AllocOffset(live, size, s);
    if o == -1 then live else live + {Block(o, Rounded(s))}
  }

  predicate Covers(b: Block, o: int)
  {
    b.offset <= o < b.offset + b.size
  }

  /** Freeing any offset releases the live block that contains it. */
  ghost function AfterFree(live: set<Block>, o: int): set<Block>
  {
    set b | b in live && !Covers(b, o)
  }

  datatype Op = Alloc(units: int) | Release(offset: int)

  ghost function Run(size: int, ops: seq<Op>): set<Block>
  {
    if ops == [] then {}
    else
      var live := Run(size, ops[..|ops| - 1]);
      match ops[|ops| - 1]
      case Alloc(s) => AfterAlloc(live, size, s)
      case Release(o) => AfterFree(live, o)
  }

  lemma AllocPlaces(live: set<Block>, size: int, s: int)
    requires WellPlaced(live, size)
    ensures WellPlaced(AfterAlloc(live, size, s), size)
  {
    assert Dyadic(0, Rounded(s)) by { assert 0 == 0 * Rounded(s); }
    FirstFitIsLowest(live, size, Rounded(s), 0);
  }

  /** In every run the live blocks are aligned, inside the arena and pairwise disjoint. */
  lemma {:induction false} RunPlaces(size: int, ops: seq<Op>)
    ensures WellPlaced(Run(size, ops), size)
  {
    if ops != [] {
      var live := Run(size, ops[..|ops| - 1]);
      RunPlaces(size, ops[..|ops| - 1]);
      match ops[|ops| - 1]
      case Alloc(s) => AllocPlaces(live, size, s);
      case Release(o) =>
    }
  }

  // ----- the history of a run -----

  /** The i-th operation asked for block b and was answered with its offset. */
  ghost predicate Granted(size: int, ops: seq<Op>, i: nat, b: Block)
    requires i < |ops|
  {
    && ops[i].Alloc? && Rounded(ops[i].units) == b.size
    && AllocOffset(Run(size, ops[..i]), size, ops[i].units) == b.offset != -1
  }

  /** No operation from the i-th up to the j-th releases block b. */
  predicate Kept(ops: seq<Op>, i: nat, j: nat, b: Block)
    requires j <= |ops|
  {
    forall k :: i <= k < j && ops[k].Release? ==> !Covers(b, ops[k].offset)
  }

  /** Block b was handed out and has not been released before the n-th operation. */
  ghost predicate Held(size: int, ops: seq<Op>, n: nat, b: Block)
    requires n <= |ops|
  {
    exists i :: 0 <= i < n && Granted(size, ops, i, b) && Kept(ops, i + 1, n, b)
  }

  lemma HeldNext(size: int, ops: seq<Op>, n: nat, b: Block)
    requires n < |ops|
    ensures Held(size, ops, n + 1, b) <==>
      Granted(size, ops, n, b) || (Held(size, ops, n, b) && (ops[n].Release? ==> !Covers(b, ops[n].offset)))
  {
    hide Granted;
    if Granted(size, ops, n, b) {
      assert Kept(ops, n + 1, n + 1, b);
    } else if Held(size, ops, n, b) && (ops[n].Release? ==> !Covers(b, ops[n].offset)) {
      var i :| 0 <= i < n && Granted(size, ops, i, b) && Kept(ops, i + 1, n, b);
      assert Kept(ops, i + 1, n + 1, b);
    }
    if Held(size, ops, n + 1, b) && !Granted(size, ops, n, b) {
      var i :| 0 <= i < n + 1 && Granted(size, ops, i, b) && Kept(ops, i + 1, n + 1, b);
      assert Kept(ops, i + 1, n, b);
    }
  }

  /** After any run a block is live exactly when some request was answered with it and none of
      its offsets has been freed since. */
  lemma {:induction false} LiveIsHeld(size: int, ops: seq<Op>, n: nat, b: Block)
    requires n <= |ops|
    ensures b in Run(size, ops[..n]) <==> Held(size, ops, n, b)
  {
    if n > 0 {
      LiveIsHeld(size, ops, n - 1, b);
      HeldNext(size, ops, n - 1, b);
      assert ops[..n][..n - 1] == ops[..n - 1];
      hide Held, AllocOffset, Rounded;
    }
  }

  /** Two blocks handed out with no release of the first in between do not overlap. */
  lemma HeldApart(size: int, ops: seq<Op>, i: nat, j: nat, b: Block, c: Block)
    requires i < j < |ops| && Granted(size, ops, i, b) && Granted(size, ops, j, c) && Kept(ops, i + 1, j, b)
    ensures !Overlap(b.offset, b.size, c.offset, c.size)
  {
    LiveIsHeld(size, ops, j, b);
    var live := Run(size, ops[..j]);
    assert Dyadic(0, c.size) by { assert 0 == 0 * c.size; }
    FirstFitIsLowest(live, size, c.size, 0);
  }

  /** At most one live block contains a given offset. */
  lemma ReleasesOne(live: set<Block>, size: int, b: Block, o: int)
    requires WellPlaced(live, size) && b in live && Covers(b, o)
    ensures AfterFree(live, o) == live - {b}
  {
    forall a | a in live && Covers(a, o) ensures a == b {
      assert a == b || !Overlap(a.offset, a.size, b.offset, b.size);
    }
  }

  /** Freeing what has just been allocated, by any of its offsets, undoes the allocation. */
  lemma AllocThenFree(live: set<Block>, size: int, s: int, o: int)
    requires WellPlaced(live, size)
    requires AllocOffset(live, size, s) != -1
    requires Covers(Block(AllocOffset(live, size, s), Rounded(s)), o)
    ensures AfterFree(AfterAlloc(live, size, s), o) == live
  {
    var b := Block(AllocOffset(live, size, s), Rounded(s));
    AllocPlaces(live, size, s);
    assert Dyadic(0, Rounded(s)) by { assert 0 == 0 * Rounded(s); }
    FirstFitIsLowest(live, size, Rounded(s), 0);
    assert b !in live by { if b in live { assert Overlap(b.offset, b.size, b.offset, b.size); } }
    ReleasesOne(live + {b}, size, b, o);
  }

  ghost function FreeAll(live: set<Block>, offsets: seq<int>): set<Block>
  {
    if offsets == [] then live else FreeAll(AfterFree(live, offsets[0]), offsets[1..])
  }

  /** Freeing an offset of every live block, in any order, leaves nothing live. */
  lemma {:induction false} FreeAllEmpties(live: set<Block>, offsets: seq<int>)
    ensures FreeAll(live, offsets) == {} <==>
      forall b :: b in live ==> exists i :: 0 <= i < |offsets| && Covers(b, offsets[i])
  {
    if offsets == [] {
    } else {
      var rest := AfterFree(live, offsets[0]);
      FreeAllEmpties(rest, offsets[1..]);
      forall b | b in rest
        ensures (exists i :: 0 <= i < |offsets| && Covers(b, offsets[i])) <==>
                (exists i :: 0 <= i < |offsets[1..]| && Covers(b, offsets[1..][i]))
      {
        if i :| 0 <= i < |offsets| && Covers(b, offsets[i]) {
          assert Covers(b, offsets[1..][i - 1]);
        }
        if i :| 0 <= i < |offsets[1..]| && Covers(b, offsets[1..][i]) {
          assert Covers(b, offsets[i + 1]);
        }
      }
      forall b | b in live && b !in rest ensures exists i :: 0 <= i < |offsets| && Covers(b, offsets[i]) {
        assert Covers(b, offsets[0]);
      }
    }
  }
}
