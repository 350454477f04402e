/**
 What the conversions of the format language mean: a directive is written out as text, the
 interpreter takes it apart again, and what it prints is said without the interpreter's help.
 */
module FormatLaws {
  import opened Wrappers
  import opened StrLib
  import opened Printfmt
  import opened Vprintfmt

  // ----- directives as text -----

  datatype Field = Absent | Literal(n: nat) | Star

  datatype Directive = Directive(alt: bool, pad: char, width: Field, precision: Field, longs: nat, conv: char)

  /** A literal number does not start with '0', which would be taken as a flag. */
  predicate Proper(d: Directive)
  {
    && d.pad in " 0-" && d.conv in "cesduopx%"
    && d.width != Literal(0) && d.precision != Literal(0)
  }

  function FieldText(f: Field): string
  {
    match f
    case Absent => ""
    case Literal(n) => Digits(n, 10)
    case Star => "*"
  }

  function Longs(n: nat): string
  {
    seq(n, _ => 'l')
  }

  function FlagText(d: Directive): string
  {
    (if d.alt then "#" else "") + (if d.pad == ' ' then "" else [d.pad])
  }

  function PrecisionText(d: Directive): string
  {
    if d.precision.Absent? then "" else "." + FieldText(d.precision)
  }

  /** The directive as it is written in a format. */
  function Written(d: Directive): string
  {
    "%" + (FlagText(d) + (FieldText(d.width) + (PrecisionText(d) + (Longs(d.longs) + [d.conv]))))
  }

  function StarsOf(f: Field): nat
  {
    if f.Star? then 1 else 0
  }

  /** The number of arguments that are taken for '*'. */
  function Stars(d: Directive): nat
  {
    StarsOf(d.width) + StarsOf(d.precision)
  }

  predicate Supplied(args: seq<Arg>, n: nat)
  {
    n <= |args| && forall k :: 0 <= k < n ==> args[k].Num?
  }

  function FieldNumber(f: Field, args: seq<Arg>): int
    requires Supplied(args, StarsOf(f))
  {
    match f
    case Absent => -1
    case Literal(n) => n
    case Star => Wrap32(args[0].v)
  }

  /** The flags that the directive stands for. A precision without a width makes the width 0. */
  function Meant(d: Directive, args: seq<Arg>): Flags
    requires Supplied(args, Stars(d))
  {
    var w := FieldNumber(d.width, args);
    var p := FieldNumber(d.precision, args[StarsOf(d.width)..]);
    Flags(d.pad, if w < 0 && !d.precision.Absent? then 0 else w, p, d.longs, d.alt)
  }

  /** For example. */
  lemma WrittenExamples()
    ensures Written(Directive(false, ' ', Absent, Absent, 0, 'd')) == "%d"
    ensures Written(Directive(false, ' ', Absent, Absent, 1, 'd')) == "%ld"
    ensures Written(Directive(false, '0', Literal(8), Absent, 0, 'x')) == "%08x"
  {
  }

  // ----- taking a directive apart -----

  /** The text t stands in the format at position i. */
  ghost predicate Here(fmt: string, i: nat, t: string)
  {
    i + |t| <= |fmt| && forall j :: 0 <= j < |t| ==> fmt[i + j] == t[j]
  }

  lemma HereParts(fmt: string, i: nat, s: string, t: string)
    requires Here(fmt, i, s + t)
    ensures Here(fmt, i, s) && Here(fmt, i + |s|, t)
  {
    forall j | 0 <= j < |s| ensures fmt[i + j] == s[j] {
      assert (s + t)[j] == s[j];
    }
    forall j | 0 <= j < |t| ensures fmt[i + |s| + j] == t[j] {
      assert fmt[i + (|s| + j)] == (s + t)[|s| + j];
    }
  }

  lemma {:induction false} DigitsEndHere(fmt: string, i: nat, e: nat)
    requires i <= e < |fmt| && (forall j :: i <= j < e ==> IsDigit(fmt[j], 10)) && !IsDigit(fmt[e], 10)
    ensures DigitsEnd(fmt, i, 10) == e
    decreases e - i
  {
    if i < e { DigitsEndHere(fmt, i + 1, e); }
  }

  lemma {:induction false} FieldValueHere(fmt: string, i: nat, n: nat)
    requires Here(fmt, i, Digits(n, 10))
    ensures forall k :: i <= k < i + |Digits(n, 10)| ==> IsDigit(fmt[k], 10)
    ensures FieldValue(fmt, i, i + |Digits(n, 10)|) == n
    decreases n
  {
    DigitsAreDigits(n, 10);
    var d := Digits(n, 10);
    forall k | i <= k < i + |d| ensures IsDigit(fmt[k], 10) {
      assert fmt[i + (k - i)] == d[k - i];
    }
    if n >= 10 {
      var front := Digits(n / 10, 10);
      HereParts(fmt, i, front, [Digit(n % 10)]);
      FieldValueHere(fmt, i, n / 10);
    }
    assert fmt[i + (|d| - 1)] == d[|d| - 1] == Digit(n % 10);
  }

  /** A positive number does not start with '0'. */
  lemma {:induction false} LeadingDigit(n: nat, base: nat)
    requires 2 <= base <= 16 && n > 0
    ensures Digits(n, base)[0] != '0'
    decreases n
  {
    if n >= base {
      DivLess(n, base);
      LeadingDigit(n / base, base);
    }
  }

  /** A literal number in the format. */
  lemma NumberRead(fmt: string, start: nat, i: nat, n: nat, fl: Flags, args: seq<Arg>, errors: ErrorTable)
    requires start <= i && n > 0 && Here(fmt, i, Digits(n, 10))
    requires var e := i + |Digits(n, 10)|; e < |fmt| && !IsDigit(fmt[e], 10)
    ensures Escape(fmt, start, i, fl, args, errors)
         == Escape(fmt, start, i + |Digits(n, 10)|, WithNumber(fl, n), args, errors)
  {
    var e := i + |Digits(n, 10)|;
    FieldValueHere(fmt, i, n);
    LeadingDigit(n, 10);
    assert fmt[i + 0] == Digits(n, 10)[0];
    assert IsDigit(fmt[i], 10);
    DigitsEndHere(fmt, i, e);
    NumberStep(fmt, start, i, e, fl, args, errors);
  }

  lemma NumberStep(fmt: string, start: nat, i: nat, e: nat, fl: Flags, args: seq<Arg>, errors: ErrorTable)
    requires start <= i < |fmt| && IsDigit(fmt[i], 10) && fmt[i] != '0' && e == DigitsEnd(fmt, i, 10)
    ensures Escape(fmt, start, i, fl, args, errors)
         == Escape(fmt, start, e, WithNumber(fl, FieldValue(fmt, i, e)), args, errors)
  {
    hide Converted, Output, FieldValue, WithNumber;
  }

  lemma FlagStep(fmt: string, start: nat, i: nat, fl: Flags, args: seq<Arg>, errors: ErrorTable)
    requires start <= i < |fmt| && fmt[i] in "-0.#l"
    ensures Escape(fmt, start, i, fl, args, errors)
         == Escape(fmt, start, i + 1, Flagged(fmt[i], fl), args, errors)
  {
    hide Converted, Output, WithNumber, Flagged;
  }

  lemma StarStep(fmt: string, start: nat, i: nat, fl: Flags, args: seq<Arg>, errors: ErrorTable)
    requires start <= i < |fmt| && fmt[i] == '*' && Supplied(args, 1)
    ensures Escape(fmt, start, i, fl, args, errors)
         == Escape(fmt, start, i + 1, WithNumber(fl, Wrap32(args[0].v)), args[1..], errors)
  {
    hide Converted, Output, WithNumber, Wrap32;
  }

  /** A width or a precision. */
  lemma FieldRead(fmt: string, start: nat, i: nat, f: Field, fl: Flags, args: seq<Arg>, errors: ErrorTable)
    requires start <= i && f != Literal(0) && Here(fmt, i, FieldText(f)) && Supplied(args, StarsOf(f))
    requires var e := i + |FieldText(f)|; e < |fmt| && !IsDigit(fmt[e], 10)
    ensures Escape(fmt, start, i, fl, args, errors)
         == Escape(fmt, start, i + |FieldText(f)|, if f.Absent? then fl else WithNumber(fl, FieldNumber(f, args)),
                   args[StarsOf(f)..], errors)
  {
    hide WithNumber, Escape, Wrap32;
    match f
    case Absent =>
    case Literal(n) => NumberRead(fmt, start, i, n, fl, args, errors);
    case Star =>
      assert fmt[i + 0] == FieldText(f)[0];
      StarStep(fmt, start, i, fl, args, errors);
  }

  lemma {:induction false} LongsRead(fmt: string, start: nat, i: nat, n: nat, fl: Flags, args: seq<Arg>,
      errors: ErrorTable)
    requires start <= i && i + n < |fmt| && forall j :: i <= j < i + n ==> fmt[j] == 'l'
    ensures Escape(fmt, start, i, fl, args, errors)
         == Escape(fmt, start, i + n, fl.(lflag := fl.lflag + n), args, errors)
    decreases n
  {
    hide Escape;
    if n > 0 {
      FlagStep(fmt, start, i, fl, args, errors);
      LongsRead(fmt, start, i + 1, n - 1, Flagged('l', fl), args, errors);
    }
  }

  lemma HereAt(fmt: string, i: nat, t: string)
    requires Here(fmt, i, t) && t != ""
    ensures i < |fmt| && fmt[i] == t[0]
  {
    assert fmt[i + 0] == t[0];
  }

  lemma NoDigit(c: char)
    requires c in ".l*cesduopx%"
    ensures !IsDigit(c, 10)
  {
  }

  /** '#' and the flag for padding. */
  lemma FlagsRead(fmt: string, start: nat, i: nat, d: Directive, args: seq<Arg>, errors: ErrorTable)
    requires start <= i && Proper(d) && Here(fmt, i, FlagText(d))
    ensures Escape(fmt, start, i, NO_FLAGS, args, errors)
         == Escape(fmt, start, i + |FlagText(d)|, Flags(d.pad, -1, -1, 0, d.alt), args, errors)
  {
    hide Escape;
    var a, b := if d.alt then "#" else "", if d.pad == ' ' then "" else [d.pad];
    HereParts(fmt, i, a, b);
    if d.alt {
      HereAt(fmt, i, a);
      FlagStep(fmt, start, i, NO_FLAGS, args, errors);
    }
    if d.pad != ' ' {
      HereAt(fmt, i + |a|, b);
      FlagStep(fmt, start, i + |a|, Flags(' ', -1, -1, 0, d.alt), args, errors);
    }
  }

  /** The precision with its '.'. */
  lemma PrecisionRead(fmt: string, start: nat, i: nat, d: Directive, w: int, args: seq<Arg>, errors: ErrorTable)
    requires start <= i && Proper(d) && Here(fmt, i, PrecisionText(d)) && Supplied(args, StarsOf(d.precision))
    requires var e := i + |PrecisionText(d)|; e < |fmt| && !IsDigit(fmt[e], 10)
    ensures Escape(fmt, start, i, Flags(d.pad, w, -1, 0, d.alt), args, errors)
         == (var w' := if w < 0 && !d.precision.Absent? then 0 else w;
             Escape(fmt, start, i + |PrecisionText(d)|, Flags(d.pad, w', FieldNumber(d.precision, args), 0, d.alt),
                    args[StarsOf(d.precision)..], errors))
  {
    hide Escape, Wrap32;
    if !d.precision.Absent? {
      HereParts(fmt, i, ".", FieldText(d.precision));
      HereAt(fmt, i, ".");
      var fl := Flags(d.pad, w, -1, 0, d.alt);
      FlagStep(fmt, start, i, fl, args, errors);
      FieldRead(fmt, start, i + 1, d.precision, Flagged('.', fl), args, errors);
    }
  }

  /** Where the parts of a written directive are. */
  lemma PartsHere(fmt: string, i: nat, d: Directive)
    requires Here(fmt, i, Written(d))
    ensures var j := i + 1 + |FlagText(d)|; var k := j + |FieldText(d.width)|; var m := k + |PrecisionText(d)|;
      && Here(fmt, i, "%") && Here(fmt, i + 1, FlagText(d)) && Here(fmt, j, FieldText(d.width))
      && Here(fmt, k, PrecisionText(d)) && Here(fmt, m, Longs(d.longs)) && Here(fmt, m + d.longs, [d.conv])
      && m + d.longs + 1 == i + |Written(d)|
  {
    hide Here, FlagText, FieldText, PrecisionText;
    var t4 := Longs(d.longs) + [d.conv];
    var t3 := PrecisionText(d) + t4;
    var t2 := FieldText(d.width) + t3;
    var t1 := FlagText(d) + t2;
    var j := i + 1 + |FlagText(d)|;
    var k := j + |FieldText(d.width)|;
    HereParts(fmt, i, "%", t1);
    HereParts(fmt, i + 1, FlagText(d), t2);
    HereParts(fmt, j, FieldText(d.width), t3);
    HereParts(fmt, k, PrecisionText(d), t4);
    HereParts(fmt, k + |PrecisionText(d)|, Longs(d.longs), [d.conv]);
  }

  /** Taking a written directive apart gives the flags that it stands for and the conversion. */
  lemma DirectiveRead(fmt: string, i: nat, d: Directive, args: seq<Arg>, errors: ErrorTable)
    requires Proper(d) && Here(fmt, i, Written(d)) && Supplied(args, Stars(d))
    ensures var e := i + |Written(d)| - 1;
      && i + 1 <= e < |fmt| && fmt[i] == '%' && fmt[e] == d.conv
      && Escape(fmt, i + 1, i + 1, NO_FLAGS, args, errors)
         == Escape(fmt, i + 1, e, Meant(d, args), args[Stars(d)..], errors)
  {
    hide Escape, FlagText, FieldText, PrecisionText, Here, Wrap32, IsDigit;
    PartsHere(fmt, i, d);
    var j := i + 1 + |FlagText(d)|;
    var k := j + |FieldText(d.width)|;
    var m := k + |PrecisionText(d)|;
    HereAt(fmt, i, "%");
    HereAt(fmt, m + d.longs, [d.conv]);
    AfterPrecision(fmt, m, d);
    AfterWidth(fmt, k, d);
    FlagsRead(fmt, i + 1, i + 1, d, args, errors);
    FieldRead(fmt, i + 1, j, d.width, Flags(d.pad, -1, -1, 0, d.alt), args, errors);
    var w, left := FieldNumber(d.width, args), args[StarsOf(d.width)..];
    PrecisionRead(fmt, i + 1, k, d, w, left, errors);
    assert left[StarsOf(d.precision)..] == args[Stars(d)..];
    LongsRead(fmt, i + 1, m, d.longs, Meant(d, args).(lflag := 0), args[Stars(d)..], errors);
  }

  lemma AfterPrecision(fmt: string, m: nat, d: Directive)
    requires Proper(d) && Here(fmt, m, Longs(d.longs)) && Here(fmt, m + d.longs, [d.conv])
    ensures m + d.longs < |fmt| && !IsDigit(fmt[m], 10) && forall j :: m <= j < m + d.longs ==> fmt[j] == 'l'
  {
    HereAt(fmt, m + d.longs, [d.conv]);
    forall j | m <= j < m + d.longs ensures fmt[j] == 'l' {
      assert fmt[m + (j - m)] == Longs(d.longs)[j - m];
    }
    NoDigit(fmt[m]);
  }

  lemma AfterWidth(fmt: string, k: nat, d: Directive)
    requires Proper(d) && Here(fmt, k, PrecisionText(d))
    requires var m := k + |PrecisionText(d)|; m < |fmt| && !IsDigit(fmt[m], 10)
    ensures k < |fmt| && !IsDigit(fmt[k], 10)
  {
    if !d.precision.Absent? {
      HereAt(fmt, k, PrecisionText(d));
      NoDigit('.');
    }
  }

  /** What a conversion prints and the output from position j on for the arguments it leaves. */
  function Followed(c: Option<(string, seq<Arg>)>, fmt: string, j: nat, errors: ErrorTable): Option<string>
    requires j <= |fmt|
  {
    var (text, left) :- c;
    var rest :- Output(fmt, j, left, errors);
    Some(text + rest)
  }

  /** The output of a format that goes on with a directive: what the conversion prints, then the
      output of the rest for the remaining arguments. */
  lemma DirectivePrints(fmt: string, i: nat, d: Directive, args: seq<Arg>, errors: ErrorTable)
    requires Proper(d) && Here(fmt, i, Written(d)) && Supplied(args, Stars(d))
    ensures i + |Written(d)| <= |fmt|
    ensures Output(fmt, i, args, errors)
         == Followed(Converted(d.conv, Meant(d, args), args[Stars(d)..], errors), fmt, i + |Written(d)|, errors)
  {
    hide Converted, Written, Meant, Here, Escape, Followed;
    DirectiveRead(fmt, i, d, args, errors);
    ConversionStep(fmt, i + 1, i + |Written(d)| - 1, Meant(d, args), args[Stars(d)..], errors);
  }

  lemma ConversionStep(fmt: string, start: nat, e: nat, fl: Flags, args: seq<Arg>, errors: ErrorTable)
    requires start <= e < |fmt| && fmt[e] in "cesduopx%"
    ensures Escape(fmt, start, e, fl, args, errors) == Followed(Converted(fmt[e], fl, args, errors), fmt, e + 1, errors)
  {
    hide Converted, Output, WithNumber, Flagged;
  }
  // ----- what the conversions print -----

  /** A format that is one directive for one argument. */
  lemma OneDirective(d: Directive, arg: Arg, errors: ErrorTable)
    requires Proper(d) && Stars(d) == 0
    ensures Output(Written(d), 0, [arg], errors) ==
      var c := Converted(d.conv, Meant(d, [arg]), [arg], errors);
      if c.Some? then Some(c.value.0) else None
  {
    var fmt := Written(d);
    assert Here(fmt, 0, Written(d));
    DirectivePrints(fmt, 0, d, [arg], errors);
    assert [arg][0..] == [arg];
    var c := Converted(d.conv, Meant(d, [arg]), [arg], errors);
    if c.Some? { assert c.value.0 + "" == c.value.0; }
    hide Converted, Written, Meant, Escape;
  }

  /** The widths that make up to the digits and no more. */
  function WidthOf(d: Directive): int
  {
    if d.width.Literal? then d.width.n else 0
  }

  /** The range of an int or, with 'l', of a long. */
  predicate InRange(v: int, longs: nat)
  {
    if longs == 0 then -0x8000_0000 <= v < 0x8000_0000 else -LONG_MAX - 1 <= v <= LONG_MAX
  }

  function Abs(v: int): nat
  {
    if v < 0 then -v else v
  }

  lemma SignedInRange(v: int, longs: nat)
    requires InRange(v, longs)
    ensures SignedArg(v, longs) == v && -LONG_MAX - 1 <= v <= LONG_MAX
  {
  }

  /** %d and %ld print text that strtol reads back as the argument, unless blanks or dashes come
      between sign and digits or before a number. */
  lemma SignedReadsBack(d: Directive, v: int, errors: ErrorTable)
    requires Proper(d) && d.conv == 'd' && Stars(d) == 0 && InRange(v, d.longs)
    ensures var text, n, w := Output(Written(d), 0, [Num(v)], errors), |Digits(Abs(v), 10)|, WidthOf(d);
      text.Some? && (Parsed(text.value, 10) == (v, |text.value|) <==>
        d.pad == '0' || w <= n || (v >= 0 && d.pad == ' ') || (v == 0 && w == 2))
  {
    hide Written, Parsed, Digits, Number, Wrap32, Wrap64;
    OneDirective(d, Num(v), errors);
    hide Output;
    SignedInRange(v, d.longs);
    DecimalRoundTrip(v, Meant(d, [Num(v)]).width, d.pad);
  }

  function BaseOf(c: char): nat
    requires c in "uox"
  {
    if c == 'u' then 10 else if c == 'o' then 8 else 16
  }

  /** %u, %o and %x print text that strtol reads back as the unsigned value of the argument. */
  lemma UnsignedReadsBack(d: Directive, v: int, errors: ErrorTable)
    requires Proper(d) && d.conv in "uox" && Stars(d) == 0 && d.pad != '-'
    ensures var text := Output(Written(d), 0, [Num(v)], errors);
      text.Some? && Parsed(text.value, BaseOf(d.conv)) ==
        (if d.longs == 0 then v % 0x1_0000_0000 else Wrap64(v), |text.value|)
  {
    hide Written, Parsed, Digits, Number, Wrap64;
    OneDirective(d, Num(v), errors);
    hide Output;
    var u := UnsignedArg(v, d.longs);
    PrintThenParse(u, BaseOf(d.conv), Meant(d, [Num(v)]).width, d.pad);
    UnsignedWraps(v, d.longs);
  }

  lemma UnsignedWraps(v: int, longs: nat)
    ensures Wrap64(UnsignedArg(v, longs)) == if longs == 0 then v % 0x1_0000_0000 else Wrap64(v)
  {
    if longs > 0 { assert v % TWO_64 % TWO_64 == v % TWO_64; }
  }

  /** How much of a number's text stands before its padding. */
  function Lead(d: Directive, text: string): nat
    requires text != ""
  {
    if d.conv == 'p' then 2 else if text[0] == '-' then 1 else 0
  }

  /** The text is the bare one with the padding put in behind what leads it. */
  ghost predicate PaddedBehindLead(d: Directive, bare: string, text: string)
  {
    && bare != "" && Lead(d, bare) <= |bare|
    && (var k := Lead(d, bare);
        text == bare[..k] + Padding(WidthOf(d) - (|bare| - k), d.pad) + bare[k..])
  }

  /** The directive without width and precision. */
  function Bare(d: Directive): Directive
  {
    d.(width := Absent, precision := Absent)
  }

  /** A width pads the text of a number between its sign or "0x" and its digits, up to that many
      characters behind the sign; without a width there is no padding. */
  lemma WidthPads(d: Directive, v: int, errors: ErrorTable)
    requires Proper(d) && d.conv in "duoxp" && Stars(d) == 0
    ensures var bare, text := Output(Written(Bare(d)), 0, [Num(v)], errors), Output(Written(d), 0, [Num(v)], errors);
      bare.Some? && text.Some? && PaddedBehindLead(d, bare.value, text.value)
  {
    hide Output, Written, NumberText, Meant, Digits, HeadOf, NumberOf, Padding, WidthOf, PaddedBehindLead;
    OneNumber(d, v, errors);
    OneNumber(Bare(d), v, errors);
    var head, body := HeadOf(d.conv, v, d.longs), Digits(NumberOf(d.conv, v, d.longs), RadixOf(d.conv));
    TextParts(d.conv, v, Meant(d, [Num(v)]));
    TextParts(d.conv, v, Meant(Bare(d), [Num(v)]));
    MeantWidth(d, v, |body|);
    NotSigned(d.conv, v, d.longs);
    assert "" + body == body;
    PartsOf(d, head, body);
  }

  lemma OneNumber(d: Directive, v: int, errors: ErrorTable)
    requires Proper(d) && d.conv in "duoxp" && Stars(d) == 0
    ensures Output(Written(d), 0, [Num(v)], errors) == Some(NumberText(d.conv, v, Meant(d, [Num(v)])))
  {
    hide Output, Written, NumberText, Meant;
    OneDirective(d, Num(v), errors);
  }

  lemma MeantWidth(d: Directive, v: int, n: nat)
    requires Proper(d) && Stars(d) == 0
    ensures var fl, fl0 := Meant(d, [Num(v)]), Meant(Bare(d), [Num(v)]);
      && fl.padc == fl0.padc == d.pad && fl.lflag == fl0.lflag == d.longs
      && Padding(fl0.width - n, d.pad) == "" && Padding(fl.width - n, d.pad) == Padding(WidthOf(d) - n, d.pad)
  {
  }

  lemma PartsOf(d: Directive, head: string, body: string)
    requires body != "" && body[0] != '-' && IsHead(d.conv, head)
    ensures PaddedBehindLead(d, head + body, head + (Padding(WidthOf(d) - |body|, d.pad) + body))
  {
    hide Padding, WidthOf;
    var bare := head + body;
    assert Lead(d, bare) == |head| && bare[..|head|] == head && bare[|head|..] == body;
  }

  /** What stands before the padding of a number. */
  function HeadOf(c: char, v: int, longs: nat): string
  {
    if c == 'p' then "0x" else if c == 'd' && SignedArg(v, longs) < 0 then "-" else ""
  }

  function NumberOf(c: char, v: int, longs: nat): nat
  {
    if c == 'd' then Abs(SignedArg(v, longs)) else if c == 'p' then PointerArg(v) else UnsignedArg(v, longs)
  }

  function RadixOf(c: char): nat
  {
    if c == 'd' || c == 'u' then 10 else if c == 'o' then 8 else 16
  }

  lemma TextParts(c: char, v: int, fl: Flags)
    requires c in "duoxp"
    ensures var body := Digits(NumberOf(c, v, fl.lflag), RadixOf(c));
      NumberText(c, v, fl) == HeadOf(c, v, fl.lflag) + (Padding(fl.width - |body|, fl.padc) + body)
  {
    hide Padding, Digits, SignedArg, UnsignedArg, PointerArg;
    var body := Digits(NumberOf(c, v, fl.lflag), RadixOf(c));
    var field := Padding(fl.width - |body|, fl.padc) + body;
    assert "" + field == field;
  }

  predicate IsHead(c: char, head: string)
  {
    if c == 'p' then |head| == 2 else head == "" || head == "-"
  }

  lemma NotSigned(c: char, v: int, longs: nat)
    ensures IsHead(c, HeadOf(c, v, longs))
    ensures var body := Digits(NumberOf(c, v, longs), RadixOf(c)); body != "" && body[0] != '-'
  {
    DigitsAreDigits(NumberOf(c, v, longs), RadixOf(c));
    DigitChars('-');
    hide NumberOf, Digits;
  }

  /** %p prints text that strtol in base 16 reads back through the "0x", unless blanks or dashes come
      between it and the digits. */
  lemma PointerReadsBack(d: Directive, v: int, errors: ErrorTable)
    requires Proper(d) && d.conv == 'p' && Stars(d) == 0
    ensures var text, w := Output(Written(d), 0, [Num(v)], errors), WidthOf(d);
      text.Some? && Parsed(text.value, 16) ==
        if d.pad == '0' || w <= |Digits(PointerArg(v), 16)| then (Wrap64(v), |text.value|) else (0, 2)
  {
    hide Output, Written, NumberText, Meant, Digits, Wrap64, Parsed, Padding, PointerArg;
    OneNumber(d, v, errors);
    MeantWidth(d, v, |Digits(PointerArg(v), 16)|);
    TextParts('p', v, Meant(d, [Num(v)]));
    PointerParsed(PointerArg(v), WidthOf(d), d.pad);
    PointerWraps(v);
  }

  lemma PointerWraps(v: int)
    ensures Wrap64(PointerArg(v)) == Wrap64(v)
  {
    assert v % TWO_64 % TWO_64 == v % TWO_64;
  }

  lemma PointerParsed(n: nat, w: int, padc: char)
    requires padc in " 0-"
    ensures var text := "0x" + (Padding(w - |Digits(n, 16)|, padc) + Digits(n, 16));
      Parsed(text, 16) == if padc == '0' || w <= |Digits(n, 16)| then (Wrap64(n), |text|) else (0, 2)
  {
    hide Parsed, Digits, Padding, NumberAt;
    var pads, body := Padding(w - |Digits(n, 16)|, padc), Digits(n, 16);
    var text := "0x" + (pads + body);
    BehindPrefix(text);
    if padc == '0' || pads == "" {
      HexHere(n, pads);
      NumberAtRead(text, 2, 2 + |pads|, n, 16);
    } else {
      DigitChars(padc);
      assert text[2] == pads[0] == padc;
      NoDigits(text, 2);
    }
  }

  lemma NoDigits(text: string, k: nat)
    requires k < |text| && DigitOf(text[k]) == -1
    ensures DigitsEnd(text, k, 16) == k && DigitsValue(text, k, k, 16) == 0
  {
  }

  /** Reading in base 16 goes on behind a "0x". */
  lemma BehindPrefix(text: string)
    requires |text| >= 2 && text[0] == '0' && text[1] == 'x'
    ensures var e := DigitsEnd(text, 2, 16); Parsed(text, 16) == (DigitsValue(text, 2, e, 16), e)
  {
    assert SpacesEnd(text, 0) == 0 && Prefix(text, 0, 16) == (2, 16);
    hide DigitsEnd, DigitsValue, Prefix, SpacesEnd;
  }

  lemma HexHere(n: nat, pads: string)
    requires forall j :: 0 <= j < |pads| ==> pads[j] == '0'
    ensures var text := "0x" + (pads + Digits(n, 16)); NumberAt(text, 2, 2 + |pads|, n, 16)
  {
    hide Digits;
    var body := Digits(n, 16);
    var text := "0x" + (pads + body);
    forall j | 0 <= j < |body| ensures text[2 + |pads| + j] == body[j] {
    }
    forall j | 2 <= j < 2 + |pads| ensures text[j] == '0' {
      assert text[j] == pads[j - 2];
    }
  }

  /** %c prints the character with the argument's code. */
  lemma CharacterPrinted(d: Directive, c: char, errors: ErrorTable)
    requires Proper(d) && d.conv == 'c' && Stars(d) == 0 && c as int < 256
    ensures Output(Written(d), 0, [Num(c as int)], errors) == Some([c])
  {
    hide Output, Written;
    OneDirective(d, Num(c as int), errors);
  }

  /** %% prints a percent sign and takes no argument. */
  lemma PercentPrinted(d: Directive, errors: ErrorTable)
    requires Proper(d) && d.conv == '%' && Stars(d) == 0
    ensures Output(Written(d), 0, [], errors) == Some("%")
  {
    var fmt := Written(d);
    assert Here(fmt, 0, Written(d));
    DirectivePrints(fmt, 0, d, [], errors);
    hide Written, Meant, Escape;
    var none: seq<Arg> := [];
    assert none[0..] == none && "%" + "" == "%";
  }

  /** How many characters of s are printed. */
  function Cut(s: string, d: Directive): nat
  {
    if d.precision.Literal? && d.precision.n < |s| then d.precision.n else |s|
  }

  ghost predicate Filled(t: string, n: int, c: char)
  {
    |t| == (if n > 0 then n else 0) && forall i :: 0 <= i < |t| ==> t[i] == c
  }

  /** The first n characters of s, with question marks for what is not printable if asked for. */
  ghost predicate Legible(t: string, s: string, n: nat, alt: bool)
  {
    && |t| == n <= |s|
    && forall i :: 0 <= i < n ==> t[i] == if alt && (s[i] < ' ' || s[i] > '~') then '?' else s[i]
  }

  /** %s prints the string up to the precision, with '#' a question mark for every character that is
      not printable; a width puts it on the right, or with '-' on the left of a field with blanks. */
  lemma StringPrinted(d: Directive, s: string, errors: ErrorTable) returns (text: string, pads: string)
    requires Proper(d) && d.conv == 's' && Stars(d) == 0
    ensures Output(Written(d), 0, [Str(s)], errors) == Some(if d.pad == '-' then text + pads else pads + text)
    ensures Legible(text, s, Cut(s, d), d.alt)
    ensures Filled(pads, WidthOf(d) - |text|, if d.pad == '-' then ' ' else d.pad)
  {
    hide Output, Written, Text, Filled, Padding;
    var fl := Meant(d, [Str(s)]);
    OneDirective(d, Str(s), errors);
    text, pads := Text(s, fl.precision, fl.alt), Padding(WidthOf(d) - |Text(s, fl.precision, fl.alt)|, FillOf(d));
    StringInField(s, fl, WidthOf(d));
    PaddingFills(WidthOf(d) - |text|, FillOf(d));
  }

  function FillOf(d: Directive): char
  {
    if d.pad == '-' then ' ' else d.pad
  }

  lemma PaddingFills(n: int, c: char)
    ensures Filled(Padding(n, c), n, c)
  {
  }

  lemma StringInField(s: string, fl: Flags, w: int)
    requires fl.padc in " 0-" && (w == fl.width || (w <= 0 && fl.width <= 0))
    ensures var t := Text(s, fl.precision, fl.alt);
      StringField(s, fl) ==
        if fl.padc == '-' then t + Padding(w - |t|, ' ') else Padding(w - |t|, fl.padc) + t
  {
    hide Text;
    var t := Text(s, fl.precision, fl.alt);
    assert t + "" == t == "" + t;
  }

  /** A null pointer prints as "(null)". */
  lemma NullPrinted(d: Directive, errors: ErrorTable)
    requires Proper(d) && d.conv == 's' && Stars(d) == 0
    ensures Output(Written(d), 0, [Null], errors) == Output(Written(d), 0, [Str("(null)")], errors) != None
  {
    hide Output, Written, StringField;
    OneDirective(d, Null, errors);
    OneDirective(d, Str("(null)"), errors);
  }

  /** %e prints the message of the code's absolute value, and for a code without one "error " and a
      number that reads back as the absolute value. */
  lemma ErrorPrinted(d: Directive, v: int, errors: ErrorTable)
    requires Proper(d) && d.conv == 'e' && Stars(d) == 0 && -0x8000_0000 < v < 0x8000_0000
    ensures var out := Output(Written(d), 0, [Num(v)], errors);
      if Abs(v) <= 24 && errors(Abs(v)).Some? then out == errors(Abs(v))
      else
        && out.Some? && "error " <= out.value
        && Parsed(out.value[6..], 10) == (Abs(v), |out.value| - 6)
  {
    hide Output, Written, Digits, Parsed;
    OneDirective(d, Num(v), errors);
    assert Wrap32(v) == v;
    DecimalRoundTrip(Abs(v), -1, ' ');
    var text := Decimal(Abs(v), -1, ' ');
    assert ("error " + text)[6..] == text;
  }

  /** A format without '%' is printed as it is. */
  lemma LiteralPrinted(fmt: string, args: seq<Arg>, errors: ErrorTable)
    requires '%' !in fmt
    ensures Output(fmt, 0, args, errors) == Some(fmt)
  {
    LiteralRun(fmt, 0, |fmt|, args, errors);
    assert fmt[0..|fmt|] == fmt && fmt + "" == fmt;
  }

  /** A '*' stands for the number that is taken from the arguments. */
  lemma StarIsNumber(d: Directive, w: nat, arg: Arg, errors: ErrorTable)
    requires Proper(d) && d.width.Star? && !d.precision.Star? && 0 < w < 0x8000_0000
    ensures Output(Written(d), 0, [Num(w), arg], errors) == Output(Written(d.(width := Literal(w))), 0, [arg], errors)
  {
    hide Converted, Written, Followed, Wrap32;
    var fixed := d.(width := Literal(w));
    SmallWraps(w);
    assert [Num(w), arg][Stars(d)..] == [arg] == [arg][Stars(fixed)..];
    assert Meant(d, [Num(w), arg]) == Meant(fixed, [arg]);
    hide Meant;
    DirectivePrints(Written(d), 0, d, [Num(w), arg], errors);
    DirectivePrints(Written(fixed), 0, fixed, [arg], errors);
    assert Here(Written(d), 0, Written(d)) && Here(Written(fixed), 0, Written(fixed));
    AtEnd(Converted(d.conv, Meant(fixed, [arg]), [arg], errors), Written(d), Written(fixed), errors);
  }

  lemma SmallWraps(w: nat)
    requires w < 0x8000_0000
    ensures Wrap32(w) == w
  {
  }

  lemma AtEnd(c: Option<(string, seq<Arg>)>, fmt: string, fmt': string, errors: ErrorTable)
    ensures Followed(c, fmt, |fmt|, errors) == Followed(c, fmt', |fmt'|, errors)
  {
  }
}
