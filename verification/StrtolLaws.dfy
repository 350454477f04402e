/**
 What strtol accepts: blanks, signs and prefixes in front of a number, in every base.
 */
module StrtolLaws {
  import opened StrLib
  import opened Printfmt

  // ----- digits -----

  /** Small and capital letters count alike, from 10 to 35; nothing but digits and letters counts. */
  lemma DigitValues(c: char, d: int)
    requires 0 <= d < 36
    ensures DigitOf(c) == d <==>
      c == "0123456789abcdefghijklmnopqrstuvwxyz"[d] || c == "0123456789ABCDEFGHIJKLMNOPQRSTUVWXYZ"[d]
  {
    if d < 10 {
      assert "0123456789"[d] as int == d + '0' as int;
    } else {
      SmallLetter(d - 10);
      CapitalLetter(d - 10);
    }
  }

  lemma SmallLetter(d: int)
    requires 0 <= d < 26
    ensures "0123456789abcdefghijklmnopqrstuvwxyz"[d + 10] as int == d + 'a' as int
  {
  }

  lemma CapitalLetter(d: int)
    requires 0 <= d < 26
    ensures "0123456789ABCDEFGHIJKLMNOPQRSTUVWXYZ"[d + 10] as int == d + 'A' as int
  {
  }

  /** The number that digits denote, without wrap-around. */
  function Denoted(s: string, base: int): int
  {
    if s == "" then 0 else Denoted(s[..|s| - 1], base) * base + DigitOf(s[|s| - 1])
  }

  /** The loop computes the number the digits denote, wrapped around at 64 bits. */
  lemma {:induction false} ValueWraps(s: string, k: nat, e: nat, base: int)
    requires k <= e <= |s|
    ensures DigitsValue(s, k, e, base) == Wrap64(Denoted(s[k..e], base))
    decreases e
  {
    hide DigitOf;
    var t := s[k..e];
    if k < e {
      ValueWraps(s, k, e - 1, base);
      assert t[..|t| - 1] == s[k..e - 1] && t[|t| - 1] == s[e - 1];
      var x, d := Denoted(s[k..e - 1], base), DigitOf(s[e - 1]);
      hide Wrap64, Denoted;
      StepWraps(x, base, d);
    } else {
      assert t == "";
      Wrapped(0);
    }
  }

  lemma StepWraps(x: int, base: int, d: int)
    ensures Wrap64(Wrap64(x) * base + d) == Wrap64(x * base + d)
  {
    var k := WrapsBy(x);
    WrappedTerm(x, k, base, d);
    assert x * base == base * x;
    SameWrapped(x * base + d, k * base);
  }

  // ----- in front of the digits -----

  lemma {:induction false} DigitsEndShift(b: string, t: string, i: nat, base: int)
    requires i <= |t|
    ensures DigitsEnd(b + t, |b| + i, base) == |b| + DigitsEnd(t, i, base)
    decreases |t| - i
  {
    if i < |t| {
      assert (b + t)[|b| + i] == t[i];
      DigitsEndShift(b, t, i + 1, base);
    }
  }

  lemma ValueShift(b: string, t: string, k: nat, e: nat, base: int)
    requires k <= e <= |t|
    ensures DigitsValue(b + t, |b| + k, |b| + e, base) == DigitsValue(t, k, e, base)
  {
    ValueWraps(b + t, |b| + k, |b| + e, base);
    ValueWraps(t, k, e, base);
    assert (b + t)[|b| + k..|b| + e] == t[k..e];
  }

  lemma PrefixShift(b: string, t: string, i: nat, base: int)
    requires i <= |t|
    ensures Prefix(b + t, |b| + i, base) == (|b| + Prefix(t, i, base).0, Prefix(t, i, base).1)
  {
    assert i < |t| ==> (b + t)[|b| + i] == t[i];
    assert i + 1 < |t| ==> (b + t)[|b| + (i + 1)] == t[i + 1];
  }

  lemma {:induction false} SpacesEndShift(b: string, t: string, i: nat)
    requires i <= |t|
    ensures SpacesEnd(b + t, |b| + i) == |b| + SpacesEnd(t, i)
    decreases |t| - i
  {
    if i < |t| {
      assert (b + t)[|b| + i] == t[i];
      SpacesEndShift(b, t, i + 1);
    }
  }

  lemma {:induction false} SpacesPassed(s: string, i: nat, e: nat)
    requires i <= e <= |s| && forall k :: i <= k < e ==> s[k] in " \t"
    ensures SpacesEnd(s, i) == SpacesEnd(s, e)
    decreases e - i
  {
    if i < e { SpacesPassed(s, i + 1, e); }
  }

  /** What is read from position j on, behind blanks and a sign. */
  function Magnitude(s: string, j: nat, base: int): (r: (int, nat))
    requires j <= |s|
  {
    var (k, b) := Prefix(s, j, base);
    var e := DigitsEnd(s, k, b);
    (DigitsValue(s, k, e, b), e)
  }

  lemma MagnitudeShift(b: string, t: string, j: nat, base: int)
    requires j <= |t|
    ensures Magnitude(b + t, |b| + j, base) == (Magnitude(t, j, base).0, |b| + Magnitude(t, j, base).1)
  {
    PrefixShift(b, t, j, base);
    var (k, r) := Prefix(t, j, base);
    DigitsEndShift(b, t, k, r);
    ValueShift(b, t, k, DigitsEnd(t, k, r), r);
  }

  /** What is read from position i on, behind the blanks. */
  function SignedFrom(s: string, i: nat, base: int): (int, nat)
    requires i <= |s|
  {
    if i < |s| && s[i] in "+-" then
      var (v, e) := Magnitude(s, i + 1, base);
      (Signed(s[i] == '-', v), e)
    else
      Magnitude(s, i, base)
  }

  lemma ParsedSigned(s: string, base: int)
    ensures Parsed(s, base) == SignedFrom(s, SpacesEnd(s, 0), base)
  {
    hide SpacesEnd, Prefix, DigitsEnd, DigitsValue, Wrap64;
  }

  lemma SignedShift(b: string, t: string, i: nat, base: int)
    requires i <= |t|
    ensures SignedFrom(b + t, |b| + i, base) == (SignedFrom(t, i, base).0, |b| + SignedFrom(t, i, base).1)
  {
    hide Magnitude, Signed;
    MagnitudeShift(b, t, i, base);
    if i < |t| {
      assert (b + t)[|b| + i] == t[i];
      MagnitudeShift(b, t, i + 1, base);
    }
  }

  /** Blanks and tabs in front change nothing but the position. */
  lemma BlanksPassed(b: string, t: string, base: int)
    requires forall i :: 0 <= i < |b| ==> b[i] in " \t"
    ensures Parsed(b + t, base) == (Parsed(t, base).0, |b| + Parsed(t, base).1)
  {
    hide Parsed, SignedFrom, SpacesEnd;
    SpacesPassed(b + t, 0, |b|);
    SpacesEndShift(b, t, 0);
    SignedShift(b, t, SpacesEnd(t, 0), base);
    ParsedSigned(b + t, base);
    ParsedSigned(t, base);
  }

  /** A plus sign changes nothing, a minus sign negates, before anything that is no blank or sign. */
  lemma SignPassed(sign: char, t: string, base: int)
    requires sign in "+-" && (t == "" || t[0] !in " \t+-")
    ensures Parsed([sign] + t, base) ==
      (if sign == '-' then Wrap64(-Parsed(t, base).0) else Parsed(t, base).0, 1 + Parsed(t, base).1)
  {
    hide Parsed, Magnitude, Wrap64;
    assert SpacesEnd(t, 0) == 0 && SpacesEnd([sign] + t, 0) == 0;
    MagnitudeShift([sign], t, 0, base);
    ParsedSigned([sign] + t, base);
    ParsedSigned(t, base);
  }

  /** The digits behind a prefix that ends at k and means base b. */
  lemma BehindPrefix(p: string, t: string, base: int, b: int)
    requires p != "" && p[0] !in " \t+-" && Prefix(p + t, 0, base) == (|p|, b)
    ensures var e := DigitsEnd(t, 0, b); Parsed(p + t, base) == (Wrap64(Denoted(t[..e], b)), |p| + e)
  {
    hide Parsed, DigitsEnd, DigitsValue, Wrap64, Denoted, Prefix;
    assert SpacesEnd(p + t, 0) == 0 && (p + t)[0] == p[0];
    ParsedSigned(p + t, base);
    DigitsEndShift(p, t, 0, b);
    ValueShift(p, t, 0, DigitsEnd(t, 0, b), b);
    ValueWraps(t, 0, DigitsEnd(t, 0, b), b);
  }

  /** "0x" is passed over in the bases 16 and 0, where it means base 16. */
  lemma HexPassed(t: string, base: int)
    requires base == 0 || base == 16
    ensures var e := DigitsEnd(t, 0, 16); Parsed("0x" + t, base) == (Wrap64(Denoted(t[..e], 16)), 2 + e)
  {
    hide Parsed, DigitsEnd, Wrap64, Denoted;
    assert ("0x" + t)[0] == '0' && ("0x" + t)[1] == 'x';
    BehindPrefix("0x", t, base, 16);
  }

  /** In base 0 a leading zero that is not followed by 'x' means base 8. */
  lemma OctalPassed(t: string)
    requires t == "" || t[0] != 'x'
    ensures var e := DigitsEnd(t, 0, 8); Parsed("0" + t, 0) == (Wrap64(Denoted(t[..e], 8)), 1 + e)
  {
    hide Parsed, DigitsEnd, Wrap64, Denoted;
    assert ("0" + t)[0] == '0' && (t != "" ==> ("0" + t)[1] == t[0]);
    BehindPrefix("0", t, 0, 8);
  }

  /** Unlike its documentation says, a capital 'X' ends the number behind the zero. */
  lemma CapitalPrefixStops(t: string, base: int)
    requires base == 0 || base == 16
    ensures Parsed("0X" + t, base) == (0, 1)
  {
    var s := "0X" + t;
    assert s[0] == '0' && s[1] == 'X';
    var k := if base == 0 then 1 else 0;
    assert SpacesEnd(s, 0) == 0 && Prefix(s, 0, base) == (k, if base == 0 then 8 else 16);
    var b := Prefix(s, 0, base).1;
    ZeroThenStop(s, k, b);
    hide Prefix, SpacesEnd, DigitsEnd, DigitsValue;
    ParsedSigned(s, base);
    hide Parsed;
  }

  lemma ZeroThenStop(s: string, k: nat, b: int)
    requires |s| >= 2 && s[0] == '0' && s[1] == 'X' && k <= 1 && b in {8, 16}
    ensures DigitsEnd(s, k, b) == 1 && DigitsValue(s, k, 1, b) == 0
  {
    assert DigitsEnd(s, 1, b) == 1;
  }

  /** Without a prefix the digits are read in the base given, and base 0 means 10. */
  lemma DigitsPassed(t: string, base: int)
    requires (t == "" || t[0] !in " \t+-") && (base == 0 ==> t == "" || t[0] != '0')
    requires base == 16 ==> |t| < 2 || t[..2] != "0x"
    ensures var b := if base == 0 then 10 else base;
      var e := DigitsEnd(t, 0, b);
      Parsed(t, base) == (Wrap64(Denoted(t[..e], b)), e)
  {
    hide Parsed, DigitsEnd, DigitsValue, Wrap64, Denoted;
    var b := if base == 0 then 10 else base;
    assert |t| >= 2 && t[0] == '0' && t[1] == 'x' ==> t[..2] == "0x";
    assert SpacesEnd(t, 0) == 0 && Prefix(t, 0, base) == (0, b);
    ParsedSigned(t, base);
    ValueWraps(t, 0, DigitsEnd(t, 0, b), b);
  }
}
