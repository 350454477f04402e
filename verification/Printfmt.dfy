/**
 The formatted printer of lab8/libs/printfmt.c: numbers, the format interpreter, and the
 bounded buffer that vsnprintf prints into.
 */
module Printfmt {
  import opened StrLib

  const E_INVAL: int := 3
  const MAXERROR: int := 24
  const ULLONG_MAX: int := 0xffff_ffff_ffff_ffff

  // ----- numbers -----

  /** Letters are small. */
  function Digit(d: int): (c: char)
    requires 0 <= d < 16
    ensures DigitOf(c) == d && !('A' <= c <= 'Z')
  {
    "0123456789abcdef"[d]
  }

  /** The digits of n, most significant first. */
  function Digits(n: nat, base: nat): (s: string)
    requires 2 <= base <= 16
    ensures |s| > 0
    decreases n
  {
    if n < base then [Digit(n)]
    else
      DivLess(n, base);
      Digits(n / base, base) + [Digit(n % base)]
  }

  function Padding(n: int, c: char): (s: string)
    ensures |s| == (if n <= 0 then 0 else n) && forall i :: 0 <= i < |s| ==> s[i] == c
  {
    if n <= 0 then "" else seq(n, _ => c)
  }

  /** A number in a field. */
  function Number(n: nat, base: nat, width: int, padc: char): (s: string)
    requires 2 <= base <= 16
    ensures |s| == if width > |Digits(n, base)| then width else |Digits(n, base)|
  {
    Padding(width - |Digits(n, base)|, padc) + Digits(n, base)
  }

  /** The first `size` places of a buffer after as much of a text as fits, and a NUL, have been
      put there; the rest of it is as before. */
  function Fitted(out: string, before: string, size: nat): (r: string)
    requires 0 < size <= |before|
    ensures |r| == |before| && (if |out| < size then out + ['\0'] <= r else out[..size - 1] + ['\0'] <= r)
    ensures forall i :: |out| < i < |r| || size <= i < |r| ==> r[i] == before[i]
  {
    var n := if |out| < size - 1 then |out| else size - 1;
    out[..n] + ['\0'] + before[n + 1..]
  }

  // ----- the buffer -----

  /** struct sprintbuf: what is printed goes to the buffer as long as it is not full. */
  class SprintBuf {
    const str: array<char>
    var buf: nat             // the next free position
    const ebuf: nat          // the position kept for the final NUL
    var cnt: nat
    ghost var out: string    // all that has been printed
    ghost const before: string

    ghost predicate Valid()
      reads this, str
    {
      && ebuf < str.Length == |before|
      && cnt == |out| && buf == (if |out| < ebuf then |out| else ebuf)
      && str[..] == out[..buf] + before[buf..]
    }

    constructor (str: array<char>, size: nat)
      requires 0 < size <= str.Length
      ensures Valid() && this.str == str && ebuf == size - 1 && out == "" && before == str[..]
    {
      this.str, buf, ebuf, cnt := str, 0, size - 1, 0;
      out, before := "", str[..];
    }

    /** sprintputch */
    method Put(ch: char)
      requires Valid()
      modifies this`buf, this`cnt, this`out, str
      ensures Valid() && out == old(out) + [ch]
    {
      cnt := cnt + 1;
      if buf < ebuf {
        str[buf] := ch;
        buf := buf + 1;
      }
      out := out + [ch];
    }

    method Count() returns (n: nat)
      requires Valid()
      ensures n == |out|
    {
      n := cnt;
    }

    /** *b.buf = 0 */
    method Terminate()
      requires Valid()
      modifies str
      ensures |before| == str.Length > ebuf && str[..] == Fitted(out, before, ebuf + 1)
    {
      str[buf] := '\0';
    }

    /** printnum: the preceding digits first, with the padding before the leading one. */
    method PrintNum(num: nat, base: nat, width: int, padc: char)
      requires Valid() && 2 <= base <= 16
      modifies this`buf, this`cnt, this`out, str
      ensures Valid() && out == old(out) + Number(num, base, width, padc)
      decreases num
    {
      hide Valid, Number, Padding, Digits;
      var result, mod := num / base, num % base;
      if num >= base {
        DivLess(num, base);
        PrintNum(result, base, width - 1, padc);
      } else {
        Pad(width - 1, padc);
      }
      Put(Digit(mod));
      NumberSplits(num, base, width, padc);
    }

    /** while (n > 0) putch(c), n -- */
    method Pad(n: int, c: char)
      requires Valid()
      modifies this`buf, this`cnt, this`out, str
      ensures Valid() && out == old(out) + Padding(n, c)
    {
      var k := n;
      while k > 0
        invariant Valid() && (k > 0 ==> k <= n) && (n > 0 ==> k >= 0)
        invariant out == old(out) + Padding(n - (if k > 0 then k else 0), c)
      {
        Put(c);
        k := k - 1;
      }
    }
  }

  lemma NumberSplits(n: nat, base: nat, width: int, padc: char)
    requires 2 <= base <= 16
    ensures n < base ==> Number(n, base, width, padc) == Padding(width - 1, padc) + [Digit(n % base)]
    ensures n >= base ==> Number(n, base, width, padc) == Number(n / base, base, width - 1, padc) + [Digit(n % base)]
  {
    if n >= base {
      Splits(Digits(n, base), Digits(n / base, base), Digit(n % base), width, padc);
    } else {
      SmallDigit(n, base);
    }
  }

  lemma DivLess(n: nat, base: nat)
    requires 2 <= base <= n
    ensures 0 < n / base < n
  {
  }

  lemma SmallDigit(n: nat, base: nat)
    requires 2 <= base <= 16 && n < base
    ensures Digits(n, base) == [Digit(n % base)]
  {
    SmallQuotient(n, base);
  }

  lemma Splits(s: string, t: string, d: char, width: int, padc: char)
    requires s == t + [d]
    ensures Padding(width - |s|, padc) + s == (Padding(width - 1 - |t|, padc) + t) + [d]
  {
  }

  // ----- printed numbers read back -----

  lemma {:induction false} DigitsAreDigits(n: nat, base: nat)
    requires 2 <= base <= 16
    ensures forall i :: 0 <= i < |Digits(n, base)| ==> IsDigit(Digits(n, base)[i], base)
    decreases n
  {
    if n >= base { DigitsAreDigits(n / base, base); }
  }

  /** One step of reading digits undoes one step of printing them, up to the wrap-around. */
  lemma ReadStep(n: nat, base: nat)
    requires base >= 2
    ensures Wrap64(Wrap64(n / base) * base + n % base) == Wrap64(n)
  {
    var q, r := n / base, n % base;
    assert n == base * q + r;
    var k := WrapsBy(q);
    WrappedTerm(q, k, base, r);
    SameWrapped(n, k * base);
  }

  lemma WrappedTerm(q: int, k: int, base: int, r: int)
    ensures (q - k * TWO_64) * base + r == (base * q + r) - (k * base) * TWO_64
  {
    assert (q - k * TWO_64) * base == q * base - (k * TWO_64) * base;
    assert (k * TWO_64) * base == (k * base) * TWO_64;
  }

  lemma WrapsBy(x: int) returns (k: int)
    ensures Wrap64(x) == x - k * TWO_64
  {
    k := if x % TWO_64 > LONG_MAX then x / TWO_64 + 1 else x / TWO_64;
  }

  lemma SameWrapped(x: int, k: int)
    ensures Wrap64(x - k * TWO_64) == Wrap64(x)
  {
    assert (x - k * TWO_64) % TWO_64 == x % TWO_64;
  }

  /** The digits of n are in the text from i on. */
  ghost predicate DigitsAt(text: string, i: nat, n: nat, base: nat)
    requires 2 <= base <= 16
  {
    i + |Digits(n, base)| <= |text| && forall j :: 0 <= j < |Digits(n, base)| ==> text[i + j] == Digits(n, base)[j]
  }

  lemma DigitsSplit(text: string, i: nat, n: nat, base: nat)
    requires 2 <= base <= 16 && DigitsAt(text, i, n, base)
    ensures DigitOf(text[i + |Digits(n, base)| - 1]) == n % base
    ensures n >= base ==> DigitsAt(text, i, n / base, base) && |Digits(n, base)| == |Digits(n / base, base)| + 1
    ensures n < base ==> |Digits(n, base)| == 1 && n % base == n
  {
    hide DigitOf;
    var d := Digits(n, base);
    assert text[i + (|d| - 1)] == d[|d| - 1];
    if n >= base {
      var front := Digits(n / base, base);
      forall j | 0 <= j < |front| ensures text[i + j] == front[j] {
        assert d[j] == front[j];
      }
    }
  }

  /** Reading digits behind k..i, which counts as nothing. */
  lemma {:induction false} DigitsRead(text: string, k: nat, i: nat, n: nat, base: nat)
    requires 2 <= base <= 16 && k <= i && DigitsAt(text, i, n, base) && i <= |text|
    requires DigitsValue(text, k, i, base) == 0
    ensures i + |Digits(n, base)| <= |text| && DigitsValue(text, k, i + |Digits(n, base)|, base) == Wrap64(n)
    decreases n
  {
    DigitsSplit(text, i, n, base);
    ReadStep(n, base);
    assert i + |Digits(n, base)| <= |text|;
    hide Wrap64, Digit, DigitOf, Digits, DigitsAt;
    if n >= base {
      DivLess(n, base);
      DigitsRead(text, k, i, n / base, base);
    } else {
      SmallQuotient(n, base);
      Wrapped(0);
    }
  }

  lemma SmallQuotient(n: nat, base: nat)
    requires n < base
    ensures n / base == 0 && n % base == n
  {
  }

  lemma Wrapped(n: int)
    requires -LONG_MAX - 1 <= n <= LONG_MAX
    ensures Wrap64(n) == n
  {
  }

  lemma {:induction false} ZerosRead(text: string, k: nat, i: nat, base: nat)
    requires k <= i <= |text| && forall j :: k <= j < i ==> text[j] == '0'
    ensures DigitsValue(text, k, i, base) == 0
    decreases i
  {
    if i > k { ZerosRead(text, k, i - 1, base); }
  }

  lemma {:induction false} DigitsEndAt(text: string, i: nat, base: nat)
    requires i <= |text| && forall j :: i <= j < |text| ==> IsDigit(text[j], base)
    ensures DigitsEnd(text, i, base) == |text|
    decreases |text| - i
  {
    if i < |text| { DigitsEndAt(text, i + 1, base); }
  }

  lemma {:induction false} SpacesEndAt(text: string, i: nat, e: nat)
    requires i <= e < |text| && (forall j :: i <= j < e ==> text[j] == ' ') && text[e] != ' ' && text[e] != '\t'
    ensures SpacesEnd(text, i) == e
    decreases e - i
  {
    if i < e { SpacesEndAt(text, i + 1, e); }
  }

  lemma DigitChars(c: char)
    ensures IsDigit(c, 16) ==> c != ' ' && c != '\t' && c != '-' && c != '+' && c != 'x'
    ensures DigitOf('-') == -1 && DigitOf(' ') == -1
  {
  }

  /** From i on there is a number, possibly behind zeros that start at k. */
  ghost predicate NumberAt(text: string, k: nat, i: nat, n: nat, base: nat)
    requires 2 <= base <= 16
  {
    && k <= i < |text| && (forall j :: k <= j < i ==> text[j] == '0')
    && i + |Digits(n, base)| == |text| && DigitsAt(text, i, n, base)
  }

  lemma NoPrefix(text: string, k: nat, base: nat)
    requires base in {8, 10, 16} && k <= |text| && (k + 1 < |text| ==> text[k + 1] != 'x')
    ensures Prefix(text, k, base) == (k, base)
  {
  }

  lemma NumberAtRead(text: string, k: nat, i: nat, n: nat, base: nat)
    requires base in {8, 10, 16} && NumberAt(text, k, i, n, base)
    ensures Prefix(text, k, base) == (k, base) && DigitsEnd(text, k, base) == |text|
    ensures DigitsValue(text, k, |text|, base) == Wrap64(n)
    ensures text[k] != ' ' && text[k] != '\t' && text[k] != '-' && text[k] != '+'
  {
    NumberAtDigits(text, k, i, n, base);
    DigitChars(text[k]);
    NoPrefix(text, k, base);
    hide IsDigit, Digits, DigitsAt, Prefix;
    DigitsEndAt(text, k, base);
    ZerosRead(text, k, i, base);
    DigitsRead(text, k, i, n, base);
  }

  lemma NumberAtDigits(text: string, k: nat, i: nat, n: nat, base: nat)
    requires base in {8, 10, 16} && NumberAt(text, k, i, n, base)
    ensures forall j :: k <= j < |text| ==> IsDigit(text[j], base) && IsDigit(text[j], 16) && text[j] != 'x'
  {
    DigitsAreDigits(n, base);
    hide Digits;
    forall j | k <= j < |text| ensures IsDigit(text[j], base) && IsDigit(text[j], 16) && text[j] != 'x' {
      if j >= i { assert text[i + (j - i)] == Digits(n, base)[j - i]; }
      DigitChars(text[j]);
    }
  }

  lemma NumberParsed(text: string, k: nat, i: nat, n: nat, base: nat)
    requires base in {8, 10, 16} && NumberAt(text, k, i, n, base)
    requires forall j :: 0 <= j < k ==> text[j] == ' '
    ensures Parsed(text, base) == (Wrap64(n), |text|)
  {
    NumberAtRead(text, k, i, n, base);
    hide NumberAt, DigitsValue, DigitsEnd, Prefix, SpacesEnd;
    SpacesEndAt(text, 0, k);
  }

  /** Where the number is in its field. */
  lemma FieldShape(n: nat, base: nat, width: int, padc: char)
    requires 2 <= base <= 16
    ensures var text := Number(n, base, width, padc);
      var z := |text| - |Digits(n, base)|;
      && z == (if width > |Digits(n, base)| then width - |Digits(n, base)| else 0)
      && (forall j :: 0 <= j < z ==> text[j] == padc) && DigitsAt(text, z, n, base)
  {
    hide Digits;
  }

  /** Printing pads to the width and nothing more, and strtol reads the number back up to the
      terminator, for every width; a number that is too large for a long comes back wrapped around. */
  lemma PrintThenParse(n: nat, base: nat, width: int, padc: char)
    requires base in {8, 10, 16} && padc in {' ', '0'}
    ensures var text := Number(n, base, width, padc);
      && Parsed(text, base) == (Wrap64(n), |text|)
      && |text| == if width > |Digits(n, base)| then width else |Digits(n, base)|
  {
    var text := Number(n, base, width, padc);
    var z := |text| - |Digits(n, base)|;
    FieldShape(n, base, width, padc);
    hide Digits, Number, DigitsAt, Parsed;
    NumberParsed(text, if padc == '0' then 0 else z, z, n, base);
  }

  /** %d */
  function Decimal(n: int, width: int, padc: char): string
  {
    if n < 0 then "-" + Number(-n, 10, width, padc) else Number(n, 10, width, padc)
  }

  /** A sign, then a character that is no digit in any base: nothing is read. */
  lemma SignOnly(text: string, base: nat)
    requires base == 10 && |text| >= 2 && text[0] == '-' && (text[1] == ' ' || text[1] == '-')
    ensures Parsed(text, base) == (0, 1)
  {
  }

  /** A sign and a number. */
  lemma SignedParsed(text: string, i: nat, m: nat)
    requires m <= LONG_MAX + 1 && 1 <= i && NumberAt(text, 1, i, m, 10) && text[0] == '-'
    ensures Parsed(text, 10) == (-(m as int), |text|)
  {
    NumberAtRead(text, 1, i, m, 10);
    Negated(m);
    hide NumberAt, DigitsValue, DigitsEnd, Prefix, Wrap64;
  }

  lemma Negated(m: nat)
    requires m <= LONG_MAX + 1
    ensures Wrap64(-Wrap64(m)) == -(m as int)
  {
  }

  lemma BehindSign(field: string, z: nat, m: nat)
    requires DigitsAt(field, z, m, 10) && z + |Digits(m, 10)| == |field| && forall j :: 0 <= j < z ==> field[j] == '0'
    ensures NumberAt("-" + field, 1, 1 + z, m, 10)
  {
    hide Digits;
    var text := "-" + field;
    assert forall j :: 0 <= j < |field| ==> text[j + 1] == field[j];
    forall j | 0 <= j < |Digits(m, 10)| ensures text[1 + z + j] == Digits(m, 10)[j] {
      assert text[z + j + 1] == field[z + j];
    }
    forall j | 1 <= j < 1 + z ensures text[j] == '0' {
      assert text[j - 1 + 1] == field[j - 1];
    }
  }

  /** When nothing but the sign precedes the digits and zeros, a negative number reads back. */
  lemma NegativeReads(m: nat, width: int, padc: char)
    requires 0 < m <= LONG_MAX + 1 && (padc == '0' || width <= |Digits(m, 10)|)
    ensures var text := "-" + Number(m, 10, width, padc);
      Parsed(text, 10) == (-(m as int), |text|)
  {
    hide Digits, Number, Parsed, DigitsAt, NumberAt;
    var field := Number(m, 10, width, padc);
    FieldShape(m, 10, width, padc);
    var z := |field| - |Digits(m, 10)|;
    BehindSign(field, z, m);
    SignedParsed("-" + field, 1 + z, m);
  }

  /** Padding between the sign and the digits stops strtol at once. */
  lemma PaddedSign(m: nat, width: int, padc: char)
    requires padc in {' ', '-'} && width > |Digits(m, 10)|
    ensures Parsed("-" + Number(m, 10, width, padc), 10) == (0, 1)
  {
    FieldShape(m, 10, width, padc);
    hide Digits, Number, Parsed;
    SignOnly("-" + Number(m, 10, width, padc), 10);
  }

  /** The flag '-' pads a number with minus signs on the left: one of them reads as the sign of
      the number, more stop strtol. */
  lemma DashPadded(n: nat, width: int)
    requires n <= LONG_MAX && width > |Digits(n, 10)|
    ensures var text := Number(n, 10, width, '-');
      Parsed(text, 10) == if width == |Digits(n, 10)| + 1 then (-(n as int), |text|) else (0, 1)
  {
    var text := Number(n, 10, width, '-');
    FieldShape(n, 10, width, '-');
    var z := |text| - |Digits(n, 10)|;
    assert text[0] == '-';
    hide Digits, Number, Parsed;
    if z == 1 {
      SignedParsed(text, 1, n);
    } else {
      SignOnly(text, 10);
    }
  }

  lemma OneDigit()
    ensures |Digits(0, 10)| == 1
  {
  }

  /** %d reads back unless blanks or dashes come between the sign and the digits or before a
      number; a field of width two with the flag '-' makes a zero read as minus zero. */
  lemma DecimalRoundTrip(n: int, width: int, padc: char)
    requires -LONG_MAX - 1 <= n <= LONG_MAX && padc in {' ', '0', '-'}
    ensures var text, d := Decimal(n, width, padc), |Digits(if n < 0 then -n else n, 10)|;
      Parsed(text, 10) == (n, |text|) <==>
        padc == '0' || width <= d || (n >= 0 && padc == ' ') || (n == 0 && width == 2)
  {
    OneDigit();
    hide Digits, Parsed;
    if n < 0 {
      if padc == '0' || width <= |Digits(-n, 10)| {
        NegativeReads(-n, width, padc);
      } else {
        PaddedSign(-n, width, padc);
      }
    } else if padc != '-' {
      PrintThenParse(n, 10, width, padc);
    } else if width > |Digits(n, 10)| {
      DashPadded(n, width);
    } else {
      SameUnpadded(n, width);
      PrintThenParse(n, 10, width, ' ');
    }
  }

  lemma SameUnpadded(n: nat, width: int)
    requires width <= |Digits(n, 10)|
    ensures Number(n, 10, width, '-') == Number(n, 10, width, ' ')
  {
  }
}
