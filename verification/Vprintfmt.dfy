/**
 The format interpreter of lab8/libs/printfmt.c and vsnprintf on top of it.
 */
module Vprintfmt {
  import opened Wrappers
  import opened StrLib
  import opened Printfmt

  /** An argument: a number (also a character or a pointer) or a string, which may be null. */
  datatype Arg = Num(v: int) | Str(s: string) | Null

  /** The state between '%' and the conversion. */
  datatype Flags = Flags(padc: char, width: int, precision: int, lflag: nat, alt: bool)

  const NO_FLAGS: Flags := Flags(' ', -1, -1, 0, false)

  type ErrorTable = int -> Option<string>

  // ----- conversions -----

  function Wrap32(x: int): (r: int)
    ensures -0x8000_0000 <= r < 0x8000_0000
  {
    var m := x % 0x1_0000_0000;
    if m >= 0x8000_0000 then m - 0x1_0000_0000 else m
  }

  /** getint and getuint: the argument in the size that the flags say. */
  function SignedArg(v: int, lflag: nat): int
  {
    if lflag > 0 then Wrap64(v) else Wrap32(v)
  }

  function UnsignedArg(v: int, lflag: nat): nat
  {
    if lflag > 0 then v % TWO_64 else v % 0x1_0000_0000
  }

  /** A pointer as a number. */
  function PointerArg(v: int): nat
  {
    v % TWO_64
  }

  function CharOf(v: int): char
  {
    (v % 256) as char
  }

  /** With '#' what is not printable becomes a question mark. */
  function Shown(c: char, alt: bool): char
  {
    if alt && !(' ' <= c <= '~') then '?' else c
  }

  /** The characters of a string that %s prints. */
  function Text(s: string, precision: int, alt: bool): (t: string)
    ensures |t| == if 0 <= precision < |s| then precision else |s|
    ensures forall i :: 0 <= i < |t| ==> t[i] == Shown(s[i], alt)
  {
    seq(if 0 <= precision < |s| then precision else |s|, i requires 0 <= i < |s| => Shown(s[i], alt))
  }

  /** %s: padded to the width on the left, or with '-' on the right by spaces. */
  function StringField(s: string, fl: Flags): (r: string)
    ensures var t := Text(s, fl.precision, fl.alt);
      |r| == if fl.width > |t| then fl.width else |t|
  {
    var t := Text(s, fl.precision, fl.alt);
    if fl.width > 0 && fl.padc != '-' then Padding(fl.width - |t|, fl.padc) + t
    else t + Padding(fl.width - |t|, ' ')
  }

  /** %e: the message for an error code of either sign. The most negative code has no absolute
      value, so nothing is said about it. */
  function ErrorText(v: int, errors: ErrorTable): Option<string>
  {
    var e := Wrap32(v);
    if e == -0x8000_0000 then None
    else
      var code := if e < 0 then -e else e;
      if code > MAXERROR || errors(code).None? then Some("error " + Decimal(code, -1, ' '))
      else Some(errors(code).value)
  }

  /** What a conversion prints, and the arguments after it; nothing if the argument is missing
      or of the wrong kind. */
  function Converted(c: char, fl: Flags, args: seq<Arg>, errors: ErrorTable): Option<(string, seq<Arg>)>
    requires c in "cesduopx%"
  {
    if c == '%' then Some(("%", args))
    else if args == [] then None
    else
      match args[0]
      case Null => if c == 's' then Some((StringField("(null)", fl), args[1..])) else None
      case Str(s) => if c == 's' then Some((StringField(s, fl), args[1..])) else None
      case Num(v) =>
        if c == 'e' then
          var text :- ErrorText(v, errors);
          Some((text, args[1..]))
        else if c == 's' then None
        else Some((NumberText(c, v, fl), args[1..]))
  }

  function NumberText(c: char, v: int, fl: Flags): string
    requires c in "cduopx"
  {
    match c
    case 'c' => [CharOf(v)]
    case 'd' => Decimal(SignedArg(v, fl.lflag), fl.width, fl.padc)
    case 'u' => Number(UnsignedArg(v, fl.lflag), 10, fl.width, fl.padc)
    case 'o' => Number(UnsignedArg(v, fl.lflag), 8, fl.width, fl.padc)
    case 'p' => "0x" + Number(PointerArg(v), 16, fl.width, fl.padc)
    case 'x' => Number(UnsignedArg(v, fl.lflag), 16, fl.width, fl.padc)
  }

  // ----- the format -----

  function At(fmt: string, i: nat): char
  {
    if i < |fmt| then fmt[i] else '\0'
  }

  /** The first number sets the width, the next the precision. */
  function WithNumber(fl: Flags, v: int): Flags
  {
    if fl.width < 0 then fl.(width := v, precision := -1) else fl.(precision := v)
  }

  /** The decimal number in the format from i to e. */
  function FieldValue(fmt: string, i: nat, e: nat): nat
    requires i <= e <= |fmt| && forall k :: i <= k < e ==> IsDigit(fmt[k], 10)
    decreases e
  {
    if e == i then 0
    else
      assert IsDigit(fmt[e - 1], 10);
      FieldValue(fmt, i, e - 1) * 10 + DigitOf(fmt[e - 1])
  }

  /** The flag characters that take no argument and no digits. */
  function Flagged(c: char, fl: Flags): Flags
    requires c in "-0.#l"
  {
    match c
    case '-' => fl.(padc := '-')
    case '0' => fl.(padc := '0')
    case '.' => if fl.width < 0 then fl.(width := 0) else fl
    case '#' => fl.(alt := true)
    case 'l' => fl.(lflag := fl.lflag + 1)
  }

  /** The output for the format from position i on. */
  function Output(fmt: string, i: nat, args: seq<Arg>, errors: ErrorTable): Option<string>
    requires i <= |fmt|
    decreases |fmt| - i, 0, 0
  {
    if i == |fmt| then Some("")
    else if fmt[i] == '%' then Escape(fmt, i + 1, i + 1, NO_FLAGS, args, errors)
    else
      var rest :- Output(fmt, i + 1, args, errors);
      Some([fmt[i]] + rest)
  }

  /** The output from position i on, inside the escape whose '%' is before `start`. An unknown
      character prints the '%' and goes back to start. */
  function Escape(fmt: string, start: nat, i: nat, fl: Flags, args: seq<Arg>, errors: ErrorTable): Option<string>
    requires start <= i <= |fmt|
    decreases |fmt| - start, 1, |fmt| - i
  {
    var c := At(fmt, i);
    if i < |fmt| && c in "-0.#l" then Escape(fmt, start, i + 1, Flagged(c, fl), args, errors)
    else if i < |fmt| && IsDigit(c, 10) then
      var e := DigitsEnd(fmt, i, 10);
      Escape(fmt, start, e, WithNumber(fl, FieldValue(fmt, i, e)), args, errors)
    else if i < |fmt| && c == '*' then
      if args == [] || !args[0].Num? then None
      else Escape(fmt, start, i + 1, WithNumber(fl, Wrap32(args[0].v)), args[1..], errors)
    else if i < |fmt| && c in "cesduopx%" then
      var (text, left) :- Converted(c, fl, args, errors);
      var rest :- Output(fmt, i + 1, left, errors);
      Some(text + rest)
    else
      var rest :- Output(fmt, start, args, errors);
      Some("%" + rest)
  }

  // ----- the arguments a format asks for -----

  datatype Want = WantNumber | WantString | WantError

  predicate Fits(want: Want, arg: Arg)
  {
    match want
    case WantNumber => arg.Num?
    case WantString => !arg.Num?
    case WantError => arg.Num? && Wrap32(arg.v) != -0x8000_0000
  }

  predicate AllFit(wants: seq<Want>, args: seq<Arg>)
  {
    |wants| <= |args| && forall k :: 0 <= k < |wants| ==> Fits(wants[k], args[k])
  }

  /** A character that can stand between '%' and the conversion without taking an argument. */
  predicate IsFlag(c: char)
  {
    c in "-0.#l" || IsDigit(c, 10)
  }

  /** What the format asks for from position i on, in one pass over it: every '*' and every
      conversion but '%' takes one argument, and an unknown character ends its escape. */
  function Wants(fmt: string, i: nat, inside: bool): seq<Want>
    requires i <= |fmt|
    decreases |fmt| - i
  {
    if i == |fmt| then []
    else if !inside then Wants(fmt, i + 1, fmt[i] == '%')
    else
      match fmt[i]
      case '*' => [WantNumber] + Wants(fmt, i + 1, true)
      case 's' => [WantString] + Wants(fmt, i + 1, false)
      case 'e' => [WantError] + Wants(fmt, i + 1, false)
      case c =>
        if c in "cduopx" then [WantNumber] + Wants(fmt, i + 1, false)
        else Wants(fmt, i + 1, IsFlag(c))
  }

  lemma FlagIsNoPercent(c: char)
    ensures IsFlag(c) ==> c != '%'
  {
  }

  lemma AllFitFront(want: Want, wants: seq<Want>, args: seq<Arg>)
    ensures AllFit([want] + wants, args) <==> args != [] && Fits(want, args[0]) && AllFit(wants, args[1..])
  {
    hide Fits;
    if args != [] && AllFit([want] + wants, args) {
      forall k | 0 <= k < |wants| ensures Fits(wants[k], args[1..][k]) {
        assert ([want] + wants)[k + 1] == wants[k];
      }
      assert ([want] + wants)[0] == want;
    }
  }

  lemma {:induction false} WantsLiteral(fmt: string, i: nat, e: nat)
    requires i <= e <= |fmt| && forall k :: i <= k < e ==> fmt[k] != '%'
    ensures Wants(fmt, i, false) == Wants(fmt, e, false)
    decreases e - i
  {
    if i < e { WantsLiteral(fmt, i + 1, e); }
  }

  lemma {:induction false} WantsDigits(fmt: string, i: nat)
    requires i <= |fmt|
    ensures Wants(fmt, i, true) == Wants(fmt, DigitsEnd(fmt, i, 10), true)
    decreases |fmt| - i
  {
    if i < |fmt| && IsDigit(fmt[i], 10) { WantsDigits(fmt, i + 1); }
  }

  lemma ConvertedWants(c: char, fl: Flags, args: seq<Arg>, errors: ErrorTable, want: Want)
    requires c in "cesduopx"
    requires want == if c == 's' then WantString else if c == 'e' then WantError else WantNumber
    ensures Converted(c, fl, args, errors).Some? <==> args != [] && Fits(want, args[0])
    ensures Converted(c, fl, args, errors).Some? ==> Converted(c, fl, args, errors).value.1 == args[1..]
  {
    hide NumberText, StringField, Decimal;
  }

  /** A format prints exactly when it gets the arguments it asks for. */
  lemma {:induction false} OutputWants(fmt: string, i: nat, args: seq<Arg>, errors: ErrorTable)
    requires i <= |fmt|
    ensures Output(fmt, i, args, errors).Some? <==> AllFit(Wants(fmt, i, false), args)
    decreases |fmt| - i, 0, 0
  {
    hide AllFit;
    if i == |fmt| {
      NothingWanted(args);
    } else if fmt[i] == '%' {
      EscapeWants(fmt, i + 1, i + 1, NO_FLAGS, args, errors);
    } else {
      OutputWants(fmt, i + 1, args, errors);
    }
  }

  lemma NothingWanted(args: seq<Arg>)
    ensures AllFit([], args)
  {
  }

  /** A conversion: the argument it takes, then the rest. */
  lemma ConversionWants(fmt: string, start: nat, i: nat, fl: Flags, args: seq<Arg>, errors: ErrorTable)
    requires start <= i < |fmt| && fmt[i] in "cesduopx%"
    ensures fmt[i] == '%' ==>
      && Wants(fmt, i, true) == Wants(fmt, i + 1, false)
      && (Escape(fmt, start, i, fl, args, errors).Some? <==> Output(fmt, i + 1, args, errors).Some?)
    ensures fmt[i] != '%' ==>
      && Converted(fmt[i], fl, args, errors).Some? ==>
        && args != []
        && (AllFit(Wants(fmt, i, true), args) <==> AllFit(Wants(fmt, i + 1, false), args[1..]))
        && (Escape(fmt, start, i, fl, args, errors).Some? <==> Output(fmt, i + 1, args[1..], errors).Some?)
    ensures fmt[i] != '%' && Converted(fmt[i], fl, args, errors).None? ==>
      !AllFit(Wants(fmt, i, true), args) && Escape(fmt, start, i, fl, args, errors).None?
  {
    var c := fmt[i];
    hide AllFit, Output, Fits;
    if c != '%' {
      var want := if c == 's' then WantString else if c == 'e' then WantError else WantNumber;
      ConvertedWants(c, fl, args, errors, want);
      hide Converted;
      AllFitFront(want, Wants(fmt, i + 1, false), args);
    }
  }

  lemma {:induction false} EscapeWants(fmt: string, start: nat, i: nat, fl: Flags, args: seq<Arg>, errors: ErrorTable)
    requires start <= i <= |fmt| && forall k :: start <= k < i ==> fmt[k] != '%'
    ensures Escape(fmt, start, i, fl, args, errors).Some? <==> AllFit(Wants(fmt, i, true), args)
    decreases |fmt| - start, 1, |fmt| - i
  {
    hide AllFit, Converted, Flagged, WithNumber, Output;
    if i == |fmt| {
      WantsLiteral(fmt, start, i);
      OutputWants(fmt, start, args, errors);
    } else if fmt[i] in "-0.#l" {
      EscapeWants(fmt, start, i + 1, Flagged(fmt[i], fl), args, errors);
    } else if IsDigit(fmt[i], 10) {
      var e := DigitsEnd(fmt, i, 10);
      WantsDigits(fmt, i);
      forall k | start <= k < e ensures fmt[k] != '%' { FlagIsNoPercent(fmt[k]); }
      EscapeWants(fmt, start, e, WithNumber(fl, FieldValue(fmt, i, e)), args, errors);
    } else if fmt[i] == '*' {
      AllFitFront(WantNumber, Wants(fmt, i + 1, true), args);
      if args != [] && args[0].Num? {
        EscapeWants(fmt, start, i + 1, WithNumber(fl, Wrap32(args[0].v)), args[1..], errors);
      }
    } else if fmt[i] in "cesduopx%" {
      ConversionWants(fmt, start, i, fl, args, errors);
      if fmt[i] == '%' {
        OutputWants(fmt, i + 1, args, errors);
      } else if Converted(fmt[i], fl, args, errors).Some? {
        OutputWants(fmt, i + 1, args[1..], errors);
      }
    } else {
      WantsLiteral(fmt, start, i + 1);
      OutputWants(fmt, start, args, errors);
    }
  }

  // ----- the interpreter -----

  /** What has been printed and what is still to come make up the whole. */
  ghost predicate Joins(whole: Option<string>, done: string, rest: Option<string>)
  {
    whole == if rest.Some? then Some(done + rest.value) else None
  }

  /** Puts all characters of a text. */
  method PutAll(b: SprintBuf, text: string)
    requires b.Valid()
    modifies b`buf, b`cnt, b`out, b.str
    ensures b.Valid() && b.out == old(b.out) + text
  {
    var i := 0;
    while i < |text|
      invariant i <= |text| && b.Valid() && b.out == old(b.out) + text[..i]
    {
      b.Put(text[i]);
      i := i + 1;
    }
    assert text[..|text|] == text;
  }

  /** The characters of case 's'; each takes one from the width. */
  method PrintText(b: SprintBuf, s: string, precision: int, alt: bool, width: int) returns (width': int)
    requires b.Valid()
    modifies b`buf, b`cnt, b`out, b.str
    ensures b.Valid() && b.out == old(b.out) + Text(s, precision, alt)
    ensures width' == width - |Text(s, precision, alt)|
  {
    ghost var t := Text(s, precision, alt);
    width' := width;
    var left, i := precision, 0;
    while i < |s| && (left < 0 || left > 0)
      invariant i <= |t| && b.Valid() && b.out == old(b.out) + t[..i]
      invariant left == if precision < 0 then precision else precision - i
      invariant width' == width - i
    {
      b.Put(Shown(s[i], alt));
      i, width' := i + 1, width' - 1;
      if left >= 0 {
        left := left - 1;
      }
    }
    assert t[..|t|] == t;
  }

  /** The padding before a string; what is left of the width. */
  method PadLeft(b: SprintBuf, s: string, fl: Flags) returns (width: int)
    requires b.Valid()
    modifies b`buf, b`cnt, b`out, b.str
    ensures b.Valid() && b.out == old(b.out) + LeftPadding(|Text(s, fl.precision, fl.alt)|, fl)
    ensures fl.width > 0 && fl.padc != '-' ==> width <= 0
    ensures fl.width <= 0 || fl.padc == '-' ==> width == fl.width
  {
    width := fl.width;
    if width > 0 && fl.padc != '-' {
      var n := StrNLen(s, if fl.precision < 0 then |s| else fl.precision);
      width := width - n;
      b.Pad(width, fl.padc);
      width := if width > 0 then 0 else width;
    }
  }

  function LeftPadding(n: nat, fl: Flags): string
  {
    if fl.width > 0 && fl.padc != '-' then Padding(fl.width - n, fl.padc) else ""
  }

  lemma FieldParts(o: string, s: string, fl: Flags, width: int)
    requires fl.width > 0 && fl.padc != '-' ==> width <= 0
    requires fl.width <= 0 || fl.padc == '-' ==> width == fl.width
    ensures var t := Text(s, fl.precision, fl.alt);
      o + LeftPadding(|t|, fl) + t + Padding(width - |t|, ' ') == o + StringField(s, fl)
  {
    hide Text;
  }

  /** The loops of case 's'. */
  method PrintString(b: SprintBuf, s: string, fl: Flags)
    requires b.Valid()
    modifies b`buf, b`cnt, b`out, b.str
    ensures b.Valid() && b.out == old(b.out) + StringField(s, fl)
  {
    hide Text, Padding, StringField, LeftPadding;
    var width := PadLeft(b, s, fl);
    FieldParts(old(b.out), s, fl, width);
    width := PrintText(b, s, fl.precision, fl.alt, width);
    b.Pad(width, ' ');
  }

  /** The numeric conversions. */
  method PrintNumeric(b: SprintBuf, c: char, v: int, fl: Flags)
    requires b.Valid() && c in "cduopx"
    modifies b`buf, b`cnt, b`out, b.str
    ensures b.Valid() && b.out == old(b.out) + NumberText(c, v, fl)
  {
    hide SprintBuf.Valid, Number, UnsignedArg, SignedArg, PointerArg, CharOf;
    var num, base := 0, 10;
    match c {
      case 'c' =>
        b.Put(CharOf(v));
        return;
      case 'd' =>
        var n := SignedArg(v, fl.lflag);
        if n < 0 {
          b.Put('-');
          num := -n;
        } else {
          num := n;
        }
      case 'u' => num := UnsignedArg(v, fl.lflag);
      case 'o' => num, base := UnsignedArg(v, fl.lflag), 8;
      case 'p' =>
        b.Put('0');
        b.Put('x');
        num, base := PointerArg(v), 16;
      case 'x' => num, base := UnsignedArg(v, fl.lflag), 16;
    }
    b.PrintNum(num, base, fl.width, fl.padc);
  }

  /** The conversion character c. */
  method Convert(b: SprintBuf, c: char, fl: Flags, args: seq<Arg>, errors: ErrorTable)
    returns (ok: bool, left: seq<Arg>)
    requires b.Valid() && c in "cesduopx%"
    modifies b`buf, b`cnt, b`out, b.str
    ensures b.Valid() && (ok <==> Converted(c, fl, args, errors).Some?)
    ensures ok ==>
          Converted(c, fl, args, errors).value.1 == left && b.out == old(b.out) + Converted(c, fl, args, errors).value.0
  {
    hide SprintBuf.Valid, NumberText, StringField, ErrorText;
    ok, left := true, args;
    if c == '%' {
      b.Put(c);
    } else if args == [] {
      ok := false;
    } else {
      left := args[1..];
      match args[0] {
        case Null =>
          ok := c == 's';
          if ok { PrintString(b, "(null)", fl); }
        case Str(s) =>
          ok := c == 's';
          if ok { PrintString(b, s, fl); }
        case Num(v) =>
          if c == 'e' {
            var text := ErrorText(v, errors);
            ok := text.Some?;
            if ok { PutAll(b, text.value); }
          } else if c == 's' {
            ok := false;
          } else {
            PrintNumeric(b, c, v, fl);
          }
      }
    }
  }

  /** The width or precision digits. */
  method ReadNumber(fmt: string, i: nat) returns (value: nat, e: nat)
    requires i < |fmt| && IsDigit(fmt[i], 10)
    ensures e == DigitsEnd(fmt, i, 10) > i && value == FieldValue(fmt, i, e)
  {
    hide DigitOf;
    value, e := 0, i;
    while e < |fmt| && IsDigit(fmt[e], 10)
      invariant i <= e <= |fmt| && DigitsEnd(fmt, i, 10) == DigitsEnd(fmt, e, 10)
      invariant forall k :: i <= k < e ==> IsDigit(fmt[k], 10)
      invariant value == FieldValue(fmt, i, e)
    {
      value := value * 10 + DigitOf(fmt[e]);
      e := e + 1;
    }
  }

  /** An escape from behind its '%': i is the position at which the format goes on. That is behind
      the conversion, or for an unknown character `start` itself; so it is always behind the '%'. */
  method PrintEscape(b: SprintBuf, fmt: string, start: nat, args: seq<Arg>, errors: ErrorTable)
    returns (ok: bool, i: nat, left: seq<Arg>)
    requires b.Valid() && start <= |fmt|
    modifies b`buf, b`cnt, b`out, b.str
    ensures b.Valid() && start <= i <= |fmt|
    ensures if ok then old(b.out) <= b.out && Joins(Escape(fmt, start, start, NO_FLAGS, args, errors),
                                                    b.out[|old(b.out)|..], Output(fmt, i, left, errors))
            else Escape(fmt, start, start, NO_FLAGS, args, errors).None?
  {
    hide SprintBuf.Valid, Output, Converted, Flagged, WithNumber, DigitOf;
    ok, i, left := true, start, args;
    var fl, more := NO_FLAGS, true;
    ghost var whole := Escape(fmt, start, start, NO_FLAGS, args, errors);
    while ok && more
      invariant start <= i <= |fmt|
      invariant b.Valid() && b.out == old(b.out)
      invariant if ok then whole == Escape(fmt, start, i, fl, left, errors) else whole.None?
      invariant !more ==> i == |fmt| || !(fmt[i] in "-0.#l" || IsDigit(fmt[i], 10) || fmt[i] == '*')
      decreases ok, more, |fmt| - i
    {
      if i < |fmt| && fmt[i] in "-0.#l" {
        fl, i := Flagged(fmt[i], fl), i + 1;
      } else if i < |fmt| && IsDigit(fmt[i], 10) {
        var value;
        value, i := ReadNumber(fmt, i);
        fl := WithNumber(fl, value);
      } else if i < |fmt| && fmt[i] == '*' {
        if left == [] || !left[0].Num? {
          ok := false;
        } else {
          fl, left, i := WithNumber(fl, Wrap32(left[0].v)), left[1..], i + 1;
        }
      } else {
        more := false;
      }
    }
    if ok {
      if i < |fmt| && fmt[i] in "cesduopx%" {
        ok, left := Convert(b, fmt[i], fl, left, errors);
        i := i + 1;
      } else {
        b.Put('%');
        i := start;
      }
    }
  }

  lemma JoinsTransitive(whole: Option<string>, done: string, middle: Option<string>, more: string, rest: Option<string>)
    requires Joins(whole, done, middle) && Joins(middle, more, rest)
    ensures Joins(whole, done + more, rest)
  {
    if rest.Some? { assert (done + more) + rest.value == done + (more + rest.value); }
  }

  lemma JoinsNothing(whole: Option<string>)
    ensures Joins(whole, "", whole)
  {
    if whole.Some? { assert "" + whole.value == whole.value; }
  }

  /** vprintfmt ends on every format, although an unknown escape sets the format back: what it
      prints is the output of the format. It fails only where an argument is missing or of the
      wrong kind. */
  method VPrintfmt(b: SprintBuf, fmt: string, args: seq<Arg>, errors: ErrorTable) returns (ok: bool)
    requires b.Valid()
    modifies b`buf, b`cnt, b`out, b.str
    ensures b.Valid() && (ok <==> AllFit(Wants(fmt, 0, false), args)) && (ok <==> Output(fmt, 0, args, errors).Some?)
    ensures ok ==> b.out == old(b.out) + Output(fmt, 0, args, errors).value
  {
    OutputWants(fmt, 0, args, errors);
    hide SprintBuf.Valid, Escape, AllFit, Wants;
    ghost var whole, out := Output(fmt, 0, args, errors), b.out;
    ghost var done := "";
    var i, left := 0, args;
    ok := true;
    JoinsNothing(whole);
    while ok && i < |fmt|
      invariant i <= |fmt| && b.Valid()
      invariant if ok then b.out == out + done && Joins(whole, done, Output(fmt, i, left, errors)) else whole.None?
      decreases ok, |fmt| - i
    {
      ghost var was, middle := b.out, Output(fmt, i, left, errors);
      if fmt[i] != '%' {
        b.Put(fmt[i]);
        i := i + 1;
        assert Joins(middle, [fmt[i - 1]], Output(fmt, i, left, errors));
        JoinsTransitive(whole, done, middle, [fmt[i - 1]], Output(fmt, i, left, errors));
        done := done + [fmt[i - 1]];
      } else {
        ok, i, left := PrintEscape(b, fmt, i + 1, left, errors);
        if ok {
          ghost var more := b.out[|was|..];
          JoinsTransitive(whole, done, middle, more, Output(fmt, i, left, errors));
          assert b.out == was + more == out + (done + more);
          done := done + more;
        }
      }
    }
    if ok { assert done + "" == done; }
  }

  /** With room in the buffer. */
  method PrintInto(str: array<char>, size: nat, fmt: string, args: seq<Arg>, errors: ErrorTable)
    returns (ok: bool, r: int)
    requires 0 < size <= str.Length
    modifies str
    ensures (ok <==> AllFit(Wants(fmt, 0, false), args)) && (ok <==> Output(fmt, 0, args, errors).Some?)
    ensures ok ==> r == |Output(fmt, 0, args, errors).value|
                   && str[..] == Fitted(Output(fmt, 0, args, errors).value, old(str[..]), size)
  {
    hide Output, Fitted, AllFit, Wants;
    var b := new SprintBuf(str, size);
    ok := VPrintfmt(b, fmt, args, errors);
    r := b.Count();
    if ok {
      assert b.out == "" + Output(fmt, 0, args, errors).value == Output(fmt, 0, args, errors).value;
      hide SprintBuf.Valid;
      b.Terminate();
    }
  }

  /** vsnprintf: without room it fails and touches nothing; otherwise it returns the length of the
      whole output, and the buffer holds as much of it as fits, then a NUL, and is otherwise
      unchanged. */
  method VSNPrintf(str: array?<char>, size: nat, fmt: string, args: seq<Arg>, errors: ErrorTable)
    returns (ok: bool, r: int)
    requires str != null ==> size <= str.Length
    modifies if str == null then {} else {str}
    ensures str == null || size == 0 ==> ok && r == -E_INVAL && (str != null ==> str[..] == old(str[..]))
    ensures str != null && size > 0 ==>
      (ok <==> AllFit(Wants(fmt, 0, false), args)) && (ok <==> Output(fmt, 0, args, errors).Some?)
    ensures str != null && size > 0 && ok ==>
      var out := Output(fmt, 0, args, errors).value;
      r == |out| && str[..] == Fitted(out, old(str[..]), size)
  {
    if str == null || size == 0 {
      return true, -E_INVAL;
    }
    ok, r := PrintInto(str, size, fmt, args, errors);
  }

  // ----- unknown escapes -----

  lemma {:induction false} LiteralRun(fmt: string, i: nat, e: nat, args: seq<Arg>, errors: ErrorTable)
    requires i <= e <= |fmt| && forall k :: i <= k < e ==> fmt[k] != '%'
    ensures Joins(Output(fmt, i, args, errors), fmt[i..e], Output(fmt, e, args, errors))
    decreases e - i
  {
    if i < e {
      LiteralRun(fmt, i + 1, e, args, errors);
      hide Escape;
      assert Joins(Output(fmt, i, args, errors), [fmt[i]], Output(fmt, i + 1, args, errors));
      JoinsTransitive(Output(fmt, i, args, errors), [fmt[i]], Output(fmt, i + 1, args, errors), fmt[i + 1..e],
                      Output(fmt, e, args, errors));
      assert fmt[i..e] == [fmt[i]] + fmt[i + 1..e];
    } else {
      assert fmt[i..e] == "";
      JoinsNothing(Output(fmt, i, args, errors));
    }
  }

  lemma {:induction false} FlagsPassed(fmt: string, start: nat, i: nat, e: nat, fl: Flags, args: seq<Arg>,
      errors: ErrorTable)
    requires start <= i <= e <= |fmt| && forall k :: i <= k < e ==> IsFlag(fmt[k])
    requires e < |fmt| ==> !IsFlag(fmt[e]) && fmt[e] != '*' && fmt[e] !in "cesduopx%"
    ensures Joins(Escape(fmt, start, i, fl, args, errors), "%", Output(fmt, start, args, errors))
    decreases e - i
  {
    if i < e {
      if fmt[i] in "-0.#l" {
        FlagsPassed(fmt, start, i + 1, e, Flagged(fmt[i], fl), args, errors);
      } else {
        var d := DigitsEnd(fmt, i, 10);
        DigitsWithin(fmt, i, e);
        FlagsPassed(fmt, start, d, e, WithNumber(fl, FieldValue(fmt, i, d)), args, errors);
      }
    }
  }

  lemma DigitsWithin(fmt: string, i: nat, e: nat)
    requires i < e <= |fmt| && IsDigit(fmt[i], 10) && (e < |fmt| ==> !IsFlag(fmt[e]))
    ensures i < DigitsEnd(fmt, i, 10) <= e
  {
  }

  /** An escape with an unknown character is printed literally, up to where that character is; if
      the format ends inside an escape, the whole escape is printed. */
  lemma UnknownIsLiteral(fmt: string, i: nat, e: nat, args: seq<Arg>, errors: ErrorTable)
    requires i < e <= |fmt| && fmt[i] == '%' && forall k :: i < k < e ==> IsFlag(fmt[k])
    requires e < |fmt| ==> !IsFlag(fmt[e]) && fmt[e] != '*' && fmt[e] !in "cesduopx%"
    ensures Joins(Output(fmt, i, args, errors), fmt[i..e], Output(fmt, e, args, errors))
  {
    forall k | i < k < e ensures fmt[k] != '%' { FlagIsNoPercent(fmt[k]); }
    hide Escape, IsFlag;
    FlagsPassed(fmt, i + 1, i + 1, e, NO_FLAGS, args, errors);
    LiteralRun(fmt, i + 1, e, args, errors);
    JoinsTransitive(Output(fmt, i, args, errors), "%", Output(fmt, i + 1, args, errors), fmt[i + 1..e],
        Output(fmt, e, args, errors));
    assert "%" + fmt[i + 1..e] == fmt[i..e];
  }
}
