/**
 Powers of two and the bitwise operators of C on unsigned values, written out on
 unbounded naturals so that word sizes and wrap-around stay explicit.
 */
module Bits {

  function Pow2(k: nat): (p: nat)
    ensures p >= 1
    ensures k > 0 ==> p % 2 == 0
  {
    if k == 0 then 1 else 2 * Pow2(k - 1)
  }

  /** True iff n is a power of two, by repeated halving. */
  predicate IsPow2(n: int)
  {
    n == 1 || (n > 1 && n % 2 == 0 && IsPow2(n / 2))
  }

  /** The C operator `&` on unsigned operands. */
  function BitAnd(x: nat, y: nat): nat
  {
    if x == 0 || y == 0 then 0
    else 2 * BitAnd(x / 2, y / 2) + (if x % 2 == 1 && y % 2 == 1 then 1 else 0)
  }

  /** The C operator `|` on unsigned operands. */
  function BitOr(x: nat, y: nat): nat
    decreases x + y
  {
    if x == 0 then y
    else if y == 0 then x
    else 2 * BitOr(x / 2, y / 2) + (if x % 2 == 1 || y % 2 == 1 then 1 else 0)
  }

  /** Bit k of x. */
  predicate TestBit(x: nat, k: nat)
  {
    if k == 0 then x % 2 == 1 else TestBit(x / 2, k - 1)
  }

  /** Masking with 2^k - 1 keeps the residue modulo 2^k. */
  lemma {:induction false} MaskIsModulo(x: nat, k: nat)
    ensures BitAnd(x, Pow2(k) - 1) == x % Pow2(k)
  {
    if k > 0 && x > 0 {
      var m := Pow2(k - 1);
      MaskIsModulo(x / 2, k - 1);
      hide Pow2;
      MaskStep(x, m);
    } else if k > 0 {
      NoRemainder(Pow2(k));
    }
  }

  lemma MaskStep(x: nat, m: nat)
    requires x > 0 && m >= 1 && BitAnd(x / 2, m - 1) == x / 2 % m
    ensures BitAnd(x, 2 * m - 1) == x % (2 * m)
  {
    hide BitAnd;
    HalfModulo(x, m);
    MaskHalf(x, m, x / 2 % m);
  }

  /** 2m - 1 is odd. */
  lemma MaskHalf(x: nat, m: nat, r: nat)
    requires x > 0 && m >= 1 && BitAnd(x / 2, m - 1) == r
    ensures BitAnd(x, 2 * m - 1) == 2 * r + x % 2
  {
    hide BitAnd;
    assert (2 * m - 1) / 2 == m - 1 && (2 * m - 1) % 2 == 1;
    AndStep(x, 2 * m - 1);
  }

  lemma AndStep(x: nat, y: nat)
    requires x > 0 && y > 0
    ensures BitAnd(x, y) == 2 * BitAnd(x / 2, y / 2) + (if x % 2 == 1 && y % 2 == 1 then 1 else 0)
  {
  }

  lemma NoRemainder(m: nat)
    requires m >= 1
    ensures 0 % m == 0
  {
  }

  lemma HalfModulo(x: nat, m: nat)
    requires m >= 1
    ensures x % (2 * m) == 2 * ((x / 2) % m) + x % 2
  {
    var q, r := (x / 2) / m, (x / 2) % m;
    assert x == (2 * m) * q + (2 * r + x % 2);
    ModUnique(x, 2 * m, q, 2 * r + x % 2);
  }

  /** The remainder of x by m is the r below m that differs from x by a multiple of m. */
  lemma ModUnique(x: int, m: nat, q: int, r: nat)
    requires r < m && x == m * q + r
    ensures x % m == r && x / m == q
  {
    var d := x / m - q;
    assert m * d == r - x % m by {
      assert x == m * (x / m) + x % m;
      assert m * d == m * (x / m) - m * q;
    }
    if d >= 1 {
      MulGrows(m, d);
    } else if d <= -1 {
      MulGrows(m, -d);
    }
  }

  lemma MulGrows(m: nat, d: int)
    requires d >= 1
    ensures m * d >= m
  {
    assert m * d == m + m * (d - 1);
  }

  lemma {:induction false} Pow2Grows(j: nat, k: nat)
    requires j <= k
    ensures Pow2(j) <= Pow2(k) && (j < k ==> Pow2(j) < Pow2(k))
  {
    if j < k { Pow2Grows(j, k - 1); }
  }

  lemma {:induction false} Pow2Plus(j: nat, k: nat)
    ensures Pow2(j + k) == Pow2(j) * Pow2(k)
  {
    if j > 0 {
      Pow2Plus(j - 1, k);
      Doubled(Pow2(j - 1), Pow2(k));
    }
  }

  lemma Doubled(p: nat, q: nat)
    ensures 2 * (p * q) == (2 * p) * q
  {
  }

  lemma {:induction false} BitOrTest(x: nat, y: nat, k: nat)
    ensures TestBit(BitOr(x, y), k) <==> TestBit(x, k) || TestBit(y, k)
  {
    hide BitOr, TestBit;
    OrStep(x, y);
    ZeroHasNoBits(k);
    if x > 0 && y > 0 {
      TestStep(x, k);
      TestStep(y, k);
      TestStep(BitOr(x, y), k);
      if k > 0 { BitOrTest(x / 2, y / 2, k - 1); }
    }
  }

  lemma OrStep(x: nat, y: nat)
    ensures x == 0 ==> BitOr(x, y) == y
    ensures y == 0 ==> BitOr(x, y) == x
    ensures x > 0 && y > 0 ==>
      BitOr(x, y) / 2 == BitOr(x / 2, y / 2) && (BitOr(x, y) % 2 == 1 <==> x % 2 == 1 || y % 2 == 1)
  {
  }

  lemma TestStep(x: nat, k: nat)
    ensures TestBit(x, k) == if k == 0 then x % 2 == 1 else TestBit(x / 2, k - 1)
  {
  }

  lemma ZeroHasNoBits(k: nat)
    ensures !TestBit(0, k)
  {
  }

  /** The bits of a number that is put together from its low j bits and the rest. */
  lemma {:induction false} BitsSplit(x: nat, y: nat, j: nat, k: nat)
    requires x < Pow2(j)
    ensures TestBit(x + Pow2(j) * y, k) <==> if k < j then TestBit(x, k) else TestBit(y, k - j)
  {
    if j > 0 {
      var m := Pow2(j - 1);
      Doubled(m, y);
      assert x + Pow2(j) * y == x + 2 * (m * y);
      LowBit(x, m * y);
      if k > 0 { BitsSplit(x / 2, y, j - 1, k - 1); }
    }
  }

  lemma LowBit(x: nat, z: nat)
    ensures (x + 2 * z) / 2 == x / 2 + z && (x + 2 * z) % 2 == x % 2
  {
  }

  /** The single bit j is 2^j. */
  lemma {:induction false} OneBit(j: nat, k: nat)
    ensures TestBit(Pow2(j), k) <==> j == k
  {
    if j == 0 {
      if k > 0 { ZeroHasNoBits(k - 1); }
    } else if k > 0 {
      OneBit(j - 1, k - 1);
    }
  }

  lemma {:induction false} BitOrBound(x: nat, y: nat, k: nat)
    requires x < Pow2(k) && y < Pow2(k)
    ensures BitOr(x, y) < Pow2(k)
  {
    if x != 0 && y != 0 {
      if k > 0 { BitOrBound(x / 2, y / 2, k - 1); }
    }
  }
}
