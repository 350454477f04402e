/**
 String functions of lab8/libs/string.c. A C string is the characters before its NUL.
 */
module StrLib {
  import opened Wrappers

  /** The first occurrence of c. Unlike the standard function this one never finds the
      terminating NUL. */
  method StrChr(s: string, c: char) returns (at: Option<nat>)
    ensures at.Some? <==> c in s
    ensures at.Some? ==> at.value < |s| && s[at.value] == c && c !in s[..at.value]
  {
    var i := 0;
    while i < |s|
      invariant i <= |s| && c !in s[..i]
    {
      if s[i] == c {
        return Some(i);
      }
      i := i + 1;
    }
    return None;
  }

  /** The length of s, but at most len. */
  method StrNLen(s: string, len: nat) returns (cnt: nat)
    ensures cnt == if |s| <= len then |s| else len
  {
    cnt := 0;
    while cnt < len && cnt < |s|
      invariant cnt <= |s| && cnt <= len
    {
      cnt := cnt + 1;
    }
  }

  // ----- strtol -----

  const LONG_MAX: int := 0x7fff_ffff_ffff_ffff
  const TWO_64: int := 0x1_0000_0000_0000_0000

  /** The 64-bit signed value of x. */
  function Wrap64(x: int): (r: int)
    ensures -LONG_MAX - 1 <= r <= LONG_MAX
    ensures -LONG_MAX - 1 <= x <= LONG_MAX ==> r == x
  {
    var m := x % TWO_64;
    if m > LONG_MAX then m - TWO_64 else m
  }

  /** What a character counts as, or nothing. */
  function DigitOf(c: char): (d: int)
    ensures -1 <= d < 36
  {
    if '0' <= c <= '9' then c as int - '0' as int
    else if 'a' <= c <= 'z' then c as int - 'a' as int + 10
    else if 'A' <= c <= 'Z' then c as int - 'A' as int + 10
    else -1
  }

  predicate IsDigit(c: char, base: int)
  {
    0 <= DigitOf(c) < base
  }

  function SpacesEnd(s: string, i: nat): (e: nat)
    requires i <= |s|
    ensures i <= e <= |s| && (e < |s| ==> s[e] != ' ' && s[e] != '\t')
    ensures forall k :: i <= k < e ==> s[k] == ' ' || s[k] == '\t'
    decreases |s| - i
  {
    if i < |s| && (s[i] == ' ' || s[i] == '\t') then SpacesEnd(s, i + 1) else i
  }

  function DigitsEnd(s: string, i: nat, base: int): (e: nat)
    requires i <= |s|
    ensures i <= e <= |s| && (e < |s| ==> !IsDigit(s[e], base))
    ensures forall k :: i <= k < e ==> IsDigit(s[k], base)
    decreases |s| - i
  {
    if i < |s| && IsDigit(s[i], base) then DigitsEnd(s, i + 1, base) else i
  }

  /** The value of the digits from i to e, with the machine's wrap-around. */
  function DigitsValue(s: string, i: nat, e: nat, base: int): (v: int)
    requires i <= e <= |s|
    decreases e
  {
    if e == i then 0 else Wrap64(DigitsValue(s, i, e - 1, base) * base + DigitOf(s[e - 1]))
  }

  function Signed(neg: bool, v: int): int
  {
    if neg then Wrap64(-v) else v
  }

  /** Where the digits start and in which base they are, behind the sign. */
  function Prefix(s: string, i: nat, base: int): (r: (nat, int))
    requires i <= |s|
    ensures i <= r.0 <= |s|
  {
    if (base == 0 || base == 16) && i + 1 < |s| && s[i] == '0' && s[i + 1] == 'x' then (i + 2, 16)
    else if base == 0 && i < |s| && s[i] == '0' then (i + 1, 8)
    else if base == 0 then (i, 10)
    else (i, base)
  }

  /** The value read and the position behind it: blanks, a sign, a prefix, digits. */
  function Parsed(s: string, base: int): (r: (int, nat))
    ensures r.1 <= |s|
  {
    var i := SpacesEnd(s, 0);
    var neg := i < |s| && s[i] == '-';
    var j := if i < |s| && (s[i] == '+' || s[i] == '-') then i + 1 else i;
    var (k, b) := Prefix(s, j, base);
    var e := DigitsEnd(s, k, b);
    (Signed(neg, DigitsValue(s, k, e, b)), e)
  }

  /** The digit loop. */
  method ReadDigits(s: string, k: nat, base: int) returns (val: int, i: nat)
    requires k <= |s|
    ensures i == DigitsEnd(s, k, base) && val == DigitsValue(s, k, i, base)
  {
    hide Wrap64, DigitOf;
    val, i := 0, k;
    while i < |s| && IsDigit(s[i], base)
      invariant k <= i <= |s| && DigitsEnd(s, k, base) == DigitsEnd(s, i, base)
      invariant val == DigitsValue(s, k, i, base)
    {
      val := Wrap64(val * base + DigitOf(s[i]));
      i := i + 1;
    }
  }

  method SkipSpaces(s: string) returns (i: nat)
    ensures i == SpacesEnd(s, 0)
  {
    i := 0;
    while i < |s| && (s[i] == ' ' || s[i] == '\t')
      invariant i <= |s| && SpacesEnd(s, 0) == SpacesEnd(s, i)
    {
      i := i + 1;
    }
  }

  method Strtol(s: string, base: int) returns (value: int, end: nat)
    ensures (value, end) == Parsed(s, base)
  {
    hide DigitsEnd, DigitsValue, Wrap64, SpacesEnd;
    var neg, b := false, base;
    var i := SkipSpaces(s);
    if i < |s| && s[i] == '+' {
      i := i + 1;
    } else if i < |s| && s[i] == '-' {
      i, neg := i + 1, true;
    }
    if (b == 0 || b == 16) && i + 1 < |s| && s[i] == '0' && s[i + 1] == 'x' {
      i, b := i + 2, 16;
    } else if b == 0 && i < |s| && s[i] == '0' {
      i, b := i + 1, 8;
    } else if b == 0 {
      b := 10;
    }
    value, end := ReadDigits(s, i, b);
    if neg {
      value := Wrap64(-value);
    }
  }
}
