/**
 What the reference lexer makes of a command that is put together from its parts, with the blanks,
 the symbols and the quotation mark named one by one.
 */
module LexLaws {
  import opened Shell

  /** A part of a word: characters as they are, or anything between quotation marks. */
  datatype Segment = Bare(text: string) | Quoted(text: string)

  datatype Piece = Blank(c: char) | Sign(c: char) | Segments(parts: seq<Segment>)

  predicate Legal(s: Segment)
  {
    match s
    case Bare(text) => text != "" && forall i :: 0 <= i < |text| ==> text[i] !in " \t\r\n<|>&;\""
    case Quoted(text) => '"' !in text
  }

  predicate LegalPiece(p: Piece)
  {
    match p
    case Blank(c) => c in " \t\r\n"
    case Sign(c) => c in "<|>&;"
    case Segments(parts) => parts != [] && forall i :: 0 <= i < |parts| ==> Legal(parts[i])
  }

  /** Words do not touch. */
  predicate LegalCommand(ps: seq<Piece>)
  {
    && (forall i :: 0 <= i < |ps| ==> LegalPiece(ps[i]))
    && (forall i :: 0 <= i < |ps| - 1 ==> !ps[i].Segments? || !ps[i + 1].Segments?)
  }

  function SegmentText(s: Segment): string
  {
    if s.Bare? then s.text else "\"" + (s.text + "\"")
  }

  /** In the word a space stands for every quotation mark. */
  function SegmentWord(s: Segment): string
  {
    if s.Bare? then s.text else " " + (s.text + " ")
  }

  function PartsText(parts: seq<Segment>): string
  {
    if parts == [] then "" else SegmentText(parts[0]) + PartsText(parts[1..])
  }

  function PartsWord(parts: seq<Segment>): string
  {
    if parts == [] then "" else SegmentWord(parts[0]) + PartsWord(parts[1..])
  }

  function PieceText(p: Piece): string
  {
    match p
    case Blank(c) => [c]
    case Sign(c) => [c]
    case Segments(parts) => PartsText(parts)
  }

  function CommandText(ps: seq<Piece>): string
  {
    if ps == [] then "" else PieceText(ps[0]) + CommandText(ps[1..])
  }

  /** The words and symbols of a command. */
  function Tokens(ps: seq<Piece>): seq<Lexeme>
  {
    if ps == [] then []
    else
      match ps[0]
      case Blank(_) => Tokens(ps[1..])
      case Sign(c) => [Symbol(c)] + Tokens(ps[1..])
      case Segments(parts) => [Word(PartsWord(parts))] + Tokens(ps[1..])
  }

  lemma Classes(c: char)
    ensures IsBlank(c) <==> c in " \t\r\n"
    ensures IsSymbol(c) <==> c in "<|>&;"
  {
  }

  /** Inside a word, a character that does not end it is taken up. */
  lemma CharTaken(c: char, rest: string, word: string, quoted: bool)
    requires c != '"' && (quoted || c !in " \t\r\n<|>&;")
    ensures Scan([c] + rest, Inside(word, quoted)) == Scan(rest, Inside(word + [c], quoted))
  {
    Classes(c);
    assert ([c] + rest)[1..] == rest;
  }

  lemma QuoteTaken(rest: string, word: string, quoted: bool)
    ensures Scan("\"" + rest, Inside(word, quoted)) == Scan(rest, Inside(word + " ", !quoted))
  {
    assert ("\"" + rest)[1..] == rest;
  }

  lemma {:induction false} CharsTaken(t: string, rest: string, word: string, quoted: bool)
    requires forall i :: 0 <= i < |t| ==> t[i] != '"' && (quoted || t[i] !in " \t\r\n<|>&;")
    ensures Scan(t + rest, Inside(word, quoted)) == Scan(rest, Inside(word + t, quoted))
  {
    hide Scan;
    if t == "" {
      assert t + rest == rest && word + t == word;
    } else {
      assert t + rest == [t[0]] + (t[1..] + rest);
      CharTaken(t[0], t[1..] + rest, word, quoted);
      CharsTaken(t[1..], rest, word + [t[0]], quoted);
      assert (word + [t[0]]) + t[1..] == word + t;
    }
  }

  lemma SegmentTaken(s: Segment, rest: string, word: string)
    requires Legal(s)
    ensures Scan(SegmentText(s) + rest, Inside(word, false)) == Scan(rest, Inside(word + SegmentWord(s), false))
  {
    hide Scan;
    if s.Bare? {
      CharsTaken(s.text, rest, word, false);
    } else {
      var t := s.text;
      assert SegmentText(s) + rest == "\"" + (t + ("\"" + rest));
      QuoteTaken(t + ("\"" + rest), word, false);
      CharsTaken(t, "\"" + rest, word + " ", true);
      QuoteTaken(rest, (word + " ") + t, true);
      assert ((word + " ") + t) + " " == word + SegmentWord(s);
    }
  }

  lemma {:induction false} PartsTaken(parts: seq<Segment>, rest: string, word: string)
    requires forall i :: 0 <= i < |parts| ==> Legal(parts[i])
    ensures Scan(PartsText(parts) + rest, Inside(word, false)) == Scan(rest, Inside(word + PartsWord(parts), false))
  {
    hide Scan, Legal, SegmentText, SegmentWord;
    if parts == [] {
      assert PartsText(parts) + rest == rest && word + PartsWord(parts) == word;
    } else {
      var s, tail := parts[0], parts[1..];
      assert PartsText(parts) + rest == SegmentText(s) + (PartsText(tail) + rest);
      SegmentTaken(s, PartsText(tail) + rest, word);
      PartsTaken(tail, rest, word + SegmentWord(s));
      assert (word + SegmentWord(s)) + PartsWord(tail) == word + PartsWord(parts);
    }
  }

  /** Between words, the first character of a word starts it. */
  lemma WordStarts(text: string)
    requires text != "" && text[0] !in " \t\r\n<|>&;"
    ensures Lex(text) == Scan(text, Inside("", false))
  {
    Classes(text[0]);
    assert "" + [text[0]] == [text[0]] && "" + " " == " ";
  }

  /** The end of the command, a blank or a symbol ends a word. */
  lemma WordEnds(rest: string, word: string)
    requires rest == "" || rest[0] in " \t\r\n<|>&;"
    ensures Scan(rest, Inside(word, false)) == [Word(word)] + Lex(rest)
  {
    if rest != "" { Classes(rest[0]); }
  }

  lemma PartsStart(parts: seq<Segment>, rest: string)
    requires forall i :: 0 <= i < |parts| ==> Legal(parts[i])
    requires parts != [] || (rest != "" && rest[0] == '"')
    ensures var text := PartsText(parts) + rest; text != "" && text[0] !in " \t\r\n<|>&;"
  {
    hide Legal, SegmentText;
    if parts == [] {
      assert PartsText(parts) + rest == rest;
    } else {
      SegmentStart(parts[0]);
      assert (PartsText(parts) + rest)[0] == SegmentText(parts[0])[0];
    }
  }

  lemma SegmentStart(s: Segment)
    requires Legal(s)
    ensures SegmentText(s) != "" && SegmentText(s)[0] !in " \t\r\n<|>&;"
  {
    if s.Quoted? { QuoteStarts(s.text + "\""); }
  }

  lemma QuoteStarts(t: string)
    ensures ("\"" + t)[0] !in " \t\r\n<|>&;"
  {
  }

  lemma WordLexed(parts: seq<Segment>, rest: string)
    requires LegalPiece(Segments(parts)) && (rest == "" || rest[0] in " \t\r\n<|>&;")
    ensures Lex(PartsText(parts) + rest) == [Word(PartsWord(parts))] + Lex(rest)
  {
    hide Scan, Lex, PartsWord, PartsText;
    PartsStart(parts, rest);
    WordStarts(PartsText(parts) + rest);
    PartsTaken(parts, rest, "");
    WordEnds(rest, "" + PartsWord(parts));
    assert "" + PartsWord(parts) == PartsWord(parts);
  }

  /** An unclosed quotation mark takes the rest of the command into the word. */
  lemma OpenQuoteLexed(parts: seq<Segment>, t: string)
    requires (forall i :: 0 <= i < |parts| ==> Legal(parts[i])) && '"' !in t
    ensures Lex(PartsText(parts) + ("\"" + t)) == [Word((PartsWord(parts) + " ") + t)]
  {
    hide Scan, Lex, PartsWord, PartsText;
    var rest := "\"" + t;
    PartsStart(parts, rest);
    WordStarts(PartsText(parts) + rest);
    PartsTaken(parts, rest, "");
    assert "" + PartsWord(parts) == PartsWord(parts);
    QuoteTaken(t, PartsWord(parts), false);
    assert t + "" == t;
    CharsTaken(t, "", PartsWord(parts) + " ", true);
    CommandEnds((PartsWord(parts) + " ") + t);
  }

  lemma CommandEnds(word: string)
    ensures Scan("", Inside(word, true)) == [Word(word)]
  {
  }

  lemma BlankLexed(c: char, rest: string)
    requires c in " \t\r\n"
    ensures Lex([c] + rest) == Lex(rest)
  {
    Classes(c);
    assert ([c] + rest)[1..] == rest;
  }

  lemma SignLexed(c: char, rest: string)
    requires c in "<|>&;"
    ensures Lex([c] + rest) == [Symbol(c)] + Lex(rest)
  {
    Classes(c);
    assert ([c] + rest)[1..] == rest;
  }

  lemma PieceStarts(ps: seq<Piece>)
    requires LegalCommand(ps) && ps != [] && !ps[0].Segments?
    ensures CommandText(ps) != "" && CommandText(ps)[0] in " \t\r\n<|>&;"
  {
    assert LegalPiece(ps[0]);
  }

  /** A command put together from words, blanks and symbols is taken apart into its words and symbols,
      with a space for every quotation mark. */
  lemma {:induction false} CommandLexed(ps: seq<Piece>)
    requires LegalCommand(ps)
    ensures Lex(CommandText(ps)) == Tokens(ps)
  {
    if ps != [] {
      var p, tail := ps[0], ps[1..];
      var rest := CommandText(tail);
      assert LegalPiece(p) && LegalCommand(tail);
      CommandLexed(tail);
      if tail != [] && !tail[0].Segments? { PieceStarts(tail); }
      hide Lex, PartsText, PartsWord, LegalPiece;
      match p
      case Blank(c) => BlankLexed(c, rest);
      case Sign(c) => SignLexed(c, rest);
      case Segments(parts) => WordLexed(parts, rest);
    }
  }

  // ----- what runcmd makes of the tokens -----

  function Words(ws: seq<string>): seq<Lexeme>
  {
    if ws == [] then [] else [Word(ws[0])] + Words(ws[1..])
  }

  lemma WordsFront(ws: seq<string>, ls: seq<Lexeme>)
    ensures Words(ws) + ls == if ws == [] then ls else [Word(ws[0])] + (Words(ws[1..]) + ls)
  {
  }

  lemma FrontJoined(ws: seq<string>, args: seq<string>)
    requires ws != []
    ensures [ws[0]] + (ws[1..] + args) == ws + args
  {
  }

  lemma FrontWord(w: string, ls: seq<Lexeme>, argc: nat, results: seq<int>)
    ensures ArgsOf([Word(w)] + ls) == [w] + ArgsOf(ls)
    ensures Verdict([Word(w)] + ls, argc, results) == if argc == 32 then TooMany else Verdict(ls, argc + 1, results)
  {
    assert ([Word(w)] + ls)[1..] == ls;
  }

  /** Words become arguments, and there is room for 32. */
  lemma {:induction false} WordsCollected(ws: seq<string>, ls: seq<Lexeme>, argc: nat, results: seq<int>)
    requires argc <= 32
    ensures ArgsOf(Words(ws) + ls) == ws + ArgsOf(ls)
    ensures Verdict(Words(ws) + ls, argc, results) ==
      if argc + |ws| > 32 then TooMany else Verdict(ls, argc + |ws|, results)
  {
    hide ArgsOf, Verdict, Words;
    WordsFront(ws, ls);
    if ws == [] {
      assert ws + ArgsOf(ls) == ArgsOf(ls);
    } else {
      var rest := Words(ws[1..]) + ls;
      FrontWord(ws[0], rest, argc, results);
      WordsCollected(ws[1..], ls, if argc < 32 then argc + 1 else argc, results);
      FrontJoined(ws, ArgsOf(ls));
    }
  }

  /** A redirection takes the next word and goes on if the file could be opened; without a word it is
      an error. */
  lemma RedirectionCollected(c: char, w: string, ls: seq<Lexeme>, argc: nat, code: int, results: seq<int>)
    requires c in "<>"
    ensures ArgsOf([Symbol(c), Word(w)] + ls) == ArgsOf(ls)
    ensures Verdict([Symbol(c), Word(w)] + ls, argc, [code] + results) ==
      if code == 0 then Verdict(ls, argc, results) else OpenFailed(code)
    ensures ls == [] || ls[0].Symbol? ==> Verdict([Symbol(c)] + ls, argc, results) == NoTarget(c)
  {
    assert ([Symbol(c), Word(w)] + ls)[2..] == ls && ([code] + results)[1..] == results;
    assert ls != [] ==> ([Symbol(c)] + ls)[1] == ls[0];
  }

  /** A pipe, a semicolon and the end of the command run it; '&' is an error. */
  lemma CommandStops(ls: seq<Lexeme>, argc: nat, results: seq<int>)
    ensures Verdict([], argc, results) == Run(NUL) && ArgsOf([]) == []
    ensures Verdict([Symbol('|')] + ls, argc, results) == Run('|') && ArgsOf([Symbol('|')] + ls) == []
    ensures Verdict([Symbol(';')] + ls, argc, results) == Run(';') && ArgsOf([Symbol(';')] + ls) == []
    ensures Verdict([Symbol('&')] + ls, argc, results) == BadToken('&')
  {
  }

  lemma {:induction false} OrdinaryWord(b: string, p: nat, n: nat)
    requires p <= n <= |b| && forall i :: p <= i < n ==> b[i] !in " \t\r\n<|>&;\""
    ensures WordEnd(b, p, n, false) == n
    decreases n - p
  {
    if p < n {
      Classes(b[p]);
      OrdinaryWord(b, p + 1, n);
    }
  }

  /** '<' opens its target as descriptor 0 and '>' as descriptor 1. */
  lemma DescriptorOpened(c: char, w: string, opens: (nat, string) -> int)
    requires c in "<>" && w != "" && forall i :: 0 <= i < |w| ==> w[i] !in " \t\r\n<|>&;\""
    ensures var code := opens(if c == '<' then 0 else 1, w);
      Collected([c] + w, 0, 1 + |w|, [], opens).stop == if code == 0 then Run(NUL) else OpenFailed(code)
  {
    hide Start, End, TokenAt, IsBlank, IsSymbol, OpenedName, Collected;
    var b, n := [c] + w, 1 + |w|;
    TargetAt(c, w);
    CollectedStep(b, 0, n, [], opens);
    CollectedStep(b, n, n, [], opens);
  }

  lemma TargetAt(c: char, w: string)
    requires c in "<>" && w != "" && forall i :: 0 <= i < |w| ==> w[i] !in " \t\r\n<|>&;\""
    ensures var b, n := [c] + w, 1 + |w|;
      && Start(b, 0, n) == 0 && !IsBlank(b[0]) && TokenAt(b, 0, n) == Symbol(c) && End(b, 0, n) == 1
      && Start(b, 1, n) == 1 && !IsBlank(b[1]) && TokenAt(b, 1, n).Word? && End(b, 1, n) == n
      && OpenedName(b, 1, n) == w && Start(b, n, n) == n
  {
    var b, n := [c] + w, 1 + |w|;
    Classes(c);
    Classes(w[0]);
    forall i | 1 <= i < n ensures b[i] == w[i - 1] && b[i] !in " \t\r\n<|>&;\"" {
    }
    OrdinaryWord(b, 1, n);
    hide WordEnd, IsBlank, IsSymbol;
    assert Unquoted(b[1..n]) == w && b[n..n] == "";
  }
}
