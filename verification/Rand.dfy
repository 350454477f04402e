/**
 The linear congruential generator of lab8/libs/rand.c: `next` is an unsigned 64-bit
 static, masked to 48 bits after every step, and the caller sees bits 12..47 of it
 reduced by the macro `do_div`.
 */
module Rand {
  import opened Bits

  const MULTIPLIER: nat := 0x5DEECE66D
  const INCREMENT: nat := 0xB
  const RAND_MAX: nat := 2147483647
  const STATES: nat := 0x1_0000_0000_0000      // 2^48
  const WORD: nat := 0x1_0000_0000_0000_0000   // 2^64

  /** One step of the recurrence modulo m. */
  function Step(a: nat, c: nat, m: nat, x: nat): (y: nat)
    requires m >= 1
    ensures y < m
  {
    (a * x + c) % m
  }

  /** n steps from x. */
  function Iterate(a: nat, c: nat, m: nat, x: nat, n: nat): nat
    requires m >= 1
  {
    if n == 0 then x else Step(a, c, m, Iterate(a, c, m, x, n - 1))
  }

  /** The state after one call of rand. */
  function NextState(x: nat): nat
  {
    Step(MULTIPLIER, INCREMENT, STATES, x)
  }

  /** The state after n calls of rand. */
  function StateAfter(x: nat, n: nat): nat
  {
    Iterate(MULTIPLIER, INCREMENT, STATES, x, n)
  }

  /** What rand returns when it leaves the state y behind. `do_div(result, RAND_MAX + 1)`
      expands to `result % (unsigned)RAND_MAX + 1`, since the macro does not
      parenthesise its argument. */
  function Output(y: nat): int
  {
    (y / 0x1000) % RAND_MAX + 1
  }

  /** The generator's static state. */
  class Generator {
    var next: nat  // unsigned long long

    ghost predicate Valid()
      reads this
    {
      next < WORD
    }

    constructor ()
      ensures Valid() && next == 1
    {
      next := 1;
    }

    /** The arithmetic wraps at 64 bits before the mask is applied. */
    method Rand() returns (r: int)
      requires Valid()
      modifies this
      ensures Valid() && next < STATES
      ensures next == NextState(old(next))
      ensures r == Output(next) && 1 <= r <= RAND_MAX
    {
      var product := next * MULTIPLIER % WORD;
      var sum := (product + INCREMENT) % WORD;
      WrapThenMask48(next, product, sum);
      next := BitAnd(sum, STATES - 1);
      var result := next / 0x1000;
      r := result % RAND_MAX + 1;
    }

    method Srand(seed: nat)
      requires seed < 0x1_0000_0000  // unsigned int
      modifies this
      ensures Valid() && next == seed < STATES
    {
      next := seed;
    }
  }

  lemma PowersOfTwo()
    ensures Pow2(16) == 0x1_0000 && Pow2(48) == STATES && Pow2(64) == WORD
  {
    PowerSum(4, 4, 16, 16);
    PowerSum(8, 8, 256, 256);
    PowerSum(16, 16, 0x1_0000, 0x1_0000);
    PowerSum(16, 32, 0x1_0000, 0x1_0000_0000);
    PowerSum(16, 48, 0x1_0000, STATES);
  }

  lemma PowerSum(j: nat, k: nat, p: nat, q: nat)
    requires Pow2(j) == p && Pow2(k) == q
    ensures Pow2(j + k) == p * q
  {
    Pow2Plus(j, k);
  }

  /** Wrapping at j + k bits and then keeping the low k is the recurrence modulo 2^k. */
  lemma WrapThenMask(a: nat, c: nat, j: nat, k: nat, x: nat)
    ensures BitAnd((x * a % Pow2(j + k) + c) % Pow2(j + k), Pow2(k) - 1) == Step(a, c, Pow2(k), x)
  {
    var product := x * a;
    var m, w := Pow2(k), Pow2(j);
    Pow2Plus(j, k);
    assert Pow2(j + k) == m * w;
    var p1 := product % (m * w);
    MaskIsModulo((p1 + c) % (m * w), k);
    ModOfMod(p1 + c, m, w);
    ModOfMod(product, m, w);
    ModShift(p1, product, c, m);
  }

  /** The same for the word size and the constants of the source. */
  lemma WrapThenMask48(x: nat, product: nat, sum: nat)
    requires product == x * MULTIPLIER % WORD && sum == (product + INCREMENT) % WORD
    ensures BitAnd(sum, STATES - 1) == NextState(x)
  {
    PowersOfTwo();
    WrapThenMask(MULTIPLIER, INCREMENT, 16, 48, x);
  }

  lemma ModOfMod(x: nat, m: nat, w: nat)
    requires m >= 1 && w >= 1 && m * w >= 1
    ensures (x % (m * w)) % m == x % m
  {
    var q, r := x / (m * w), x % (m * w);
    assert x == m * (w * q + r / m) + r % m by {
      assert (m * w) * q == m * (w * q);
      assert m * (w * q + r / m) == m * (w * q) + m * (r / m);
    }
    ModUnique(x, m, w * q + r / m, r % m);
  }

  lemma ModShift(x: nat, y: nat, d: nat, m: nat)
    requires m >= 1 && x % m == y % m
    ensures (x + d) % m == (y + d) % m
  {
    var qx, qy := x / m, y / m;
    var r := (y + d) % m;
    var q := (y + d) / m;
    assert x + d == m * (q + qx - qy) + r by {
      assert m * (q + qx - qy) == m * q + m * qx - m * qy;
    }
    ModUnique(x + d, m, q + qx - qy, r);
  }

  // ----- the full period -----

  /** 1 + a + ... + a^(n-1). */
  function GeometricSum(a: nat, n: nat): nat
  {
    if n == 0 then 0 else a * GeometricSum(a, n - 1) + 1
  }

  function Power(a: nat, n: nat): nat
  {
    if n == 0 then 1 else a * Power(a, n - 1)
  }

  lemma {:induction false} PowerOneModFour(a: nat, n: nat)
    requires a % 4 == 1
    ensures Power(a, n) % 4 == 1
  {
    if n > 0 {
      PowerOneModFour(a, n - 1);
      var p, q := Power(a, n - 1) / 4, a / 4;
      assert Power(a, n) == 4 * (4 * q * p + q + p) + 1 by {
        assert (4 * q + 1) * (4 * p + 1) == 4 * (4 * q * p + q + p) + 1;
      }
    }
  }

  lemma {:induction false} GeometricSumSplit(a: nat, m: nat, n: nat)
    ensures GeometricSum(a, m + n) == GeometricSum(a, m) + Power(a, m) * GeometricSum(a, n)
  {
    if m > 0 {
      GeometricSumSplit(a, m - 1, n);
      SplitStep(a, Power(a, m - 1), GeometricSum(a, n), GeometricSum(a, m - 1));
    }
  }

  lemma SplitStep(a: nat, p: nat, g: nat, h: nat)
    ensures a * (h + p * g) + 1 == (a * h + 1) + (a * p) * g
  {
    assert a * (p * g) == (a * p) * g;
  }

  lemma {:induction false} OddSums(a: nat, n: nat)
    requires a % 4 == 1
    ensures GeometricSum(a, n) % 2 == n % 2
  {
    if n > 0 {
      OddSums(a, n - 1);
      OddTimes(a, GeometricSum(a, n - 1), n);
    }
  }

  lemma OddTimes(a: nat, g: nat, n: nat)
    requires a % 4 == 1 && n >= 1 && g % 2 == (n - 1) % 2
    ensures (a * g + 1) % 2 == n % 2
  {
    var q := a / 4;
    assert a * g == 2 * (2 * q * g) + g by { assert (4 * q + 1) * g == 2 * (2 * q * g) + g; }
  }

  /** x is divisible by 2^k, by repeated halving. */
  predicate Halves(x: nat, k: nat)
  {
    k == 0 || (x % 2 == 0 && Halves(x / 2, k - 1))
  }

  lemma {:induction false} HalvesIsDivisibility(x: nat, k: nat)
    ensures Halves(x, k) <==> x % Pow2(k) == 0
  {
    if k > 0 {
      HalvesIsDivisibility(x / 2, k - 1);
      HalfModulo(x, Pow2(k - 1));
    }
  }

  /** 1 + a + ... + a^(n-1) has exactly the factors of two that n has. */
  lemma {:induction false} SumDivisibility(a: nat, n: nat, k: nat)
    requires a % 4 == 1
    ensures Halves(GeometricSum(a, n), k) <==> Halves(n, k)
    decreases k
  {
    OddSums(a, n);
    if k > 0 && n % 2 == 0 {
      SumDivisibility(a, n / 2, k - 1);
      EvenSums(a, n / 2, k - 1);
    }
  }

  lemma EvenSums(a: nat, h: nat, k: nat)
    requires a % 4 == 1
    ensures Halves(GeometricSum(a, h + h), k + 1) <==> Halves(GeometricSum(a, h), k)
  {
    var t := DoubledSum(a, h);
    var g := GeometricSum(a, h);
    hide GeometricSum, Halves;
    HalvesOfDouble(g * t, k);
    OddFactor(g, t, k);
  }

  lemma HalvesOfDouble(y: nat, k: nat)
    ensures Halves(2 * y, k + 1) <==> Halves(y, k)
  {
  }

  lemma DoubledSum(a: nat, h: nat) returns (t: nat)
    requires a % 4 == 1
    ensures t % 2 == 1 && GeometricSum(a, h + h) == 2 * (GeometricSum(a, h) * t)
  {
    GeometricSumSplit(a, h, h);
    PowerOneModFour(a, h);
    t := 2 * (Power(a, h) / 4) + 1;
    FactorTwo(GeometricSum(a, h), Power(a, h) / 4);
  }

  lemma FactorTwo(s: nat, u: nat)
    ensures s + (4 * u + 1) * s == 2 * (s * (2 * u + 1))
  {
  }

  /** An odd factor does not change divisibility by 2^k. */
  lemma {:induction false} OddFactor(s: nat, t: nat, k: nat)
    requires t % 2 == 1
    ensures Halves(s * t, k) <==> Halves(s, k)
    decreases k
  {
    if k > 0 {
      HalfOfProduct(s, t);
      if s % 2 == 0 { OddFactor(s / 2, t, k - 1); }
    }
  }

  lemma HalfOfProduct(s: nat, t: nat)
    requires t % 2 == 1
    ensures (s * t) % 2 == s % 2
    ensures s % 2 == 0 ==> (s * t) / 2 == (s / 2) * t
  {
    var u, h := t / 2, s / 2;
    assert s * t == 2 * (s * u) + s by { assert s * (2 * u + 1) == 2 * (s * u) + s; }
    if s % 2 == 0 {
      assert (2 * h) * t == 2 * (h * t);
    }
  }

  /** n steps from x, as a closed form, where t is the length of the first step. */
  lemma {:induction false} ClosedForm(a: nat, c: nat, k: nat, x: nat, n: nat, t: nat)
    requires a >= 1 && x < Pow2(k) && t == (a - 1) * x + c
    ensures Iterate(a, c, Pow2(k), x, n) == (x + GeometricSum(a, n) * t) % Pow2(k)
  {
    var m := Pow2(k);
    if n == 0 {
      ModUnique(x, m, 0, x);
    } else {
      ClosedForm(a, c, k, x, n - 1, t);
      var g := GeometricSum(a, n - 1);
      StepOfResidue(a, c, x + g * t, m);
      StepOfSum(a, c, x, g, t);
    }
  }

  lemma StepOfSum(a: nat, c: nat, x: nat, g: nat, t: nat)
    requires a >= 1 && t == (a - 1) * x + c
    ensures a * (x + g * t) + c == x + (a * g + 1) * t
  {
    assert a * (x + g * t) == a * x + a * (g * t);
    assert a * (g * t) == (a * g) * t;
    assert a * x == x + (a - 1) * x;
  }

  /** One step from a residue is the residue of one step. */
  lemma StepOfResidue(a: nat, c: nat, y: nat, m: nat)
    requires m >= 1
    ensures (a * (y % m) + c) % m == (a * y + c) % m
  {
    var q, r := y / m, y % m;
    var q', r' := (a * r + c) / m, (a * r + c) % m;
    assert a * y + c == m * (a * q + q') + r' by {
      assert a * (m * q + r) == a * (m * q) + a * r;
      assert a * (m * q) == m * (a * q);
      assert m * (a * q + q') == m * (a * q) + m * q';
    }
    ModUnique(a * y + c, m, a * q + q', r');
  }

  /** The orbit returns to its start exactly at the multiples of 2^k: the period is full
      for every modulus 2^k, every multiplier that is 1 modulo 4 and every odd increment. */
  lemma ReturnsExactlyAtMultiples(a: nat, c: nat, k: nat, x: nat, n: nat)
    requires a % 4 == 1 && c % 2 == 1 && x < Pow2(k)
    ensures Iterate(a, c, Pow2(k), x, n) == x <==> n % Pow2(k) == 0
  {
    OddTerm(a - 1, x, c);
    ReturnsAfter(a, c, k, x, n, (a - 1) * x + c, GeometricSum(a, n));
    HalvesIsDivisibility(n, k);
  }

  lemma ReturnsAfter(a: nat, c: nat, k: nat, x: nat, n: nat, t: nat, s: nat)
    requires a % 4 == 1 && x < Pow2(k) && t == (a - 1) * x + c && t % 2 == 1
    requires s == GeometricSum(a, n)
    ensures Iterate(a, c, Pow2(k), x, n) == x <==> Halves(n, k)
  {
    hide Iterate, GeometricSum, Halves, Pow2;
    ClosedForm(a, c, k, x, n, t);
    OddFactor(s, t, k);
    SumDivisibility(a, n, k);
    SameResidue(x, s * t, k);
  }

  lemma OddTerm(b: nat, x: nat, c: nat)
    requires b % 4 == 0 && c % 2 == 1
    ensures (b * x + c) % 2 == 1
  {
    assert b * x == 2 * (b / 2 * x) by { assert b == 2 * (b / 2); }
  }

  /** Adding d leaves the residue x unchanged exactly when 2^k divides d. */
  lemma SameResidue(x: nat, d: nat, k: nat)
    requires x < Pow2(k)
    ensures (x + d) % Pow2(k) == x <==> Halves(d, k)
  {
    var m := Pow2(k);
    HalvesIsDivisibility(d, k);
    if d % m == 0 {
      ModUnique(x + d, m, d / m, x);
    }
    if (x + d) % m == x {
      ModUnique(d, m, (x + d) / m, 0);
    }
  }

  lemma IterateBound(a: nat, c: nat, k: nat, x: nat, n: nat)
    requires x < Pow2(k)
    ensures Iterate(a, c, Pow2(k), x, n) < Pow2(k)
  {
  }

  lemma {:induction false} IterateSplit(a: nat, c: nat, k: nat, x: nat, i: nat, n: nat)
    ensures Iterate(a, c, Pow2(k), x, i + n) == Iterate(a, c, Pow2(k), Iterate(a, c, Pow2(k), x, i), n)
  {
    if n > 0 { IterateSplit(a, c, k, x, i, n - 1); }
  }

  /** Any 2^k consecutive states are pairwise different. */
  lemma NoEarlyRepeat(a: nat, c: nat, k: nat, x: nat, i: nat, j: nat)
    requires a % 4 == 1 && c % 2 == 1 && x < Pow2(k)
    requires i < j < i + Pow2(k)
    ensures Iterate(a, c, Pow2(k), x, i) != Iterate(a, c, Pow2(k), x, j)
  {
    var y := Iterate(a, c, Pow2(k), x, i);
    IterateBound(a, c, k, x, i);
    IterateSplit(a, c, k, x, i, j - i);
    ReturnsExactlyAtMultiples(a, c, k, y, j - i);
    ModUnique(j - i, Pow2(k), 0, j - i);
  }

  /** The states seen in the first n steps. */
  ghost function Visited(a: nat, c: nat, k: nat, x: nat, n: nat): set<nat>
  {
    set i: nat | 0 <= i < n :: Iterate(a, c, Pow2(k), x, i)
  }

  lemma {:induction false} VisitedCount(a: nat, c: nat, k: nat, x: nat, n: nat)
    requires a % 4 == 1 && c % 2 == 1 && x < Pow2(k) && n <= Pow2(k)
    ensures |Visited(a, c, k, x, n)| == n
  {
    if n > 0 {
      VisitedCount(a, c, k, x, n - 1);
      var last := Iterate(a, c, Pow2(k), x, n - 1);
      forall i: nat | i < n - 1 ensures Iterate(a, c, Pow2(k), x, i) != last {
        NoEarlyRepeat(a, c, k, x, i, n - 1);
      }
      assert Visited(a, c, k, x, n) == Visited(a, c, k, x, n - 1) + {last};
    }
  }

  ghost function Below(n: nat): (s: set<nat>)
    ensures |s| == n
    ensures forall i :: i in s <==> 0 <= i < n
  {
    if n == 0 then {} else Below(n - 1) + {n - 1}
  }

  lemma SubsetOfSameSize(s: set<nat>, t: set<nat>)
    requires s <= t && |s| == |t|
    ensures s == t
  {
    assert t == s + (t - s);
  }

  /** Every state is visited within 2^k steps, from any start. */
  lemma VisitsEveryState(a: nat, c: nat, k: nat, x: nat, y: nat) returns (i: nat)
    requires a % 4 == 1 && c % 2 == 1 && x < Pow2(k) && y < Pow2(k)
    ensures i < Pow2(k) && Iterate(a, c, Pow2(k), x, i) == y
  {
    var n := Pow2(k);
    VisitedCount(a, c, k, x, n);
    forall j: nat | j < n ensures Iterate(a, c, Pow2(k), x, j) < n { IterateBound(a, c, k, x, j); }
    assert Visited(a, c, k, x, n) <= Below(n);
    SubsetOfSameSize(Visited(a, c, k, x, n), Below(n));
    assert y in Visited(a, c, k, x, n);
    i :| 0 <= i < n && Iterate(a, c, Pow2(k), x, i) == y;
  }

  lemma OrbitIsPeriodic(a: nat, c: nat, k: nat, x: nat, j: nat)
    requires a % 4 == 1 && c % 2 == 1 && x < Pow2(k)
    ensures Iterate(a, c, Pow2(k), x, j) == Iterate(a, c, Pow2(k), x, j % Pow2(k))
  {
    var d := MultipleBelow(j, Pow2(k));
    OrbitShift(a, c, k, x, d, j % Pow2(k));
  }

  lemma OrbitShift(a: nat, c: nat, k: nat, x: nat, d: nat, r: nat)
    requires a % 4 == 1 && c % 2 == 1 && x < Pow2(k) && d % Pow2(k) == 0
    ensures Iterate(a, c, Pow2(k), x, d + r) == Iterate(a, c, Pow2(k), x, r)
  {
    ReturnsExactlyAtMultiples(a, c, k, x, d);
    IterateSplit(a, c, k, x, d, r);
  }

  lemma MultipleBelow(j: nat, m: nat) returns (d: nat)
    requires m >= 1
    ensures d % m == 0 && d + j % m == j
  {
    d := j - j % m;
    ModUnique(d, m, j / m, 0);
  }

  /** The state y comes up exactly once in each stretch of 2^k steps. */
  lemma FullOrbit(a: nat, c: nat, k: nat, x: nat, y: nat) returns (i: nat)
    requires a % 4 == 1 && c % 2 == 1 && x < Pow2(k) && y < Pow2(k)
    ensures i < Pow2(k)
    ensures forall j: nat :: Iterate(a, c, Pow2(k), x, j) == y <==> j % Pow2(k) == i
  {
    i := VisitsEveryState(a, c, k, x, y);
    forall j: nat ensures Iterate(a, c, Pow2(k), x, j) == y <==> j % Pow2(k) == i {
      OrbitIsPeriodic(a, c, k, x, j);
      SameResidueSameState(a, c, k, x, i, j % Pow2(k));
    }
  }

  lemma SameResidueSameState(a: nat, c: nat, k: nat, x: nat, i: nat, r: nat)
    requires a % 4 == 1 && c % 2 == 1 && x < Pow2(k) && i < Pow2(k) && r < Pow2(k)
    ensures Iterate(a, c, Pow2(k), x, i) == Iterate(a, c, Pow2(k), x, r) <==> i == r
  {
    if r < i { NoEarlyRepeat(a, c, k, x, r, i); }
    if i < r { NoEarlyRepeat(a, c, k, x, i, r); }
  }

  // ----- the generator of the source -----

  /** rand's state goes through all 2^48 states, each once, and only then repeats. */
  lemma FullPeriod(x: nat, y: nat) returns (i: nat)
    requires x < STATES && y < STATES
    ensures i < STATES
    ensures forall j: nat :: StateAfter(x, j) == y <==> j % STATES == i
  {
    PowersOfTwo();
    i := FullOrbit(MULTIPLIER, INCREMENT, 48, x, y);
  }

  /** Over a period rand returns exactly the numbers 1 .. RAND_MAX. The source's comment
      promises the range [0, RAND_MAX]; the value 0 never comes out, from any state. */
  lemma OutputRange(x: nat, v: int)
    requires x < STATES
    ensures (exists n: nat :: n >= 1 && Output(StateAfter(x, n)) == v) <==> 1 <= v <= RAND_MAX
  {
    if 1 <= v <= RAND_MAX {
      var y := (v - 1) * 0x1000;
      assert Output(y) == v;
      var i := FullPeriod(x, y);
      assert StateAfter(x, i + STATES) == y;
    }
  }

  /** What is returned depends on bits 12 and up alone and steps with them: two states give the same
      value exactly when these bits differ by a multiple of RAND_MAX. */
  lemma SameOutput(y: nat, z: nat)
    ensures Output(y) == Output(z) <==> (y / 0x1000 - z / 0x1000) % RAND_MAX == 0
  {
    SameRemainder(y / 0x1000, z / 0x1000, RAND_MAX);
  }

  lemma SameRemainder(x: nat, y: nat, m: nat)
    requires m >= 1
    ensures x % m == y % m <==> (x - y) % m == 0
  {
    assert x == m * (x / m) + x % m && y == m * (y / m) + y % m;
    var q, r := x / m - y / m, x % m - y % m;
    assert m * q == m * (x / m) - m * (y / m);
    assert x - y == m * q + r;
    if r >= 0 {
      ModUnique(x - y, m, q, r);
    } else {
      assert m * (q - 1) == m * q - m;
      ModUnique(x - y, m, q - 1, r + m);
    }
  }

  /** The state whose bits 12 and up are v - 1 gives v. */
  lemma OutputOf(v: int)
    requires 1 <= v <= RAND_MAX
    ensures Output((v - 1) * 0x1000) == v
  {
  }

  /** From the states 0 and 1: the first steps, and the first value of an unseeded generator. */
  lemma FirstSteps()
    ensures NextState(0) == 11 && NextState(1) == 25214903928 && Output(NextState(1)) == 6155983
  {
  }

  /** The steps of two states differ by the multiplier times their difference. */
  lemma StepsApart(x: nat, d: nat)
    ensures (NextState(x + d) - NextState(x) - d * (NextState(1) - NextState(0))) % STATES == 0
  {
    var p, q := MULTIPLIER * x + INCREMENT, MULTIPLIER * d;
    assert MULTIPLIER * (x + d) + INCREMENT == p + q;
    FirstSteps();
    assert d * (NextState(1) - NextState(0)) == q;
    SumApart(p, q, STATES);
  }

  lemma SumApart(p: nat, q: nat, m: nat)
    requires m >= 1
    ensures ((p + q) % m - p % m - q) % m == 0
  {
    var a, b := (p + q) / m, p / m;
    assert p + q == m * a + (p + q) % m && p == m * b + p % m;
    assert m * (b - a) == m * b - m * a;
    ModUnique((p + q) % m - p % m - q, m, b - a, 0);
  }
}
