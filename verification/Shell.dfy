/**
 The tokenizer of lab8/user/sh.c, which cuts a command into words in place, and the part of
 runcmd that collects words and redirections.
 */
module Shell {
  import opened Wrappers
  import opened StrLib

  const NUL: char := '\0'
  const WHITESPACE: string := " \t\r\n"
  const SYMBOLS: string := "<|>&;"
  const MAX_ARGS: nat := 32

  predicate IsBlank(c: char)
  {
    c == ' ' || c == '\t' || c == '\r' || c == '\n'
  }

  predicate IsSymbol(c: char)
  {
    c == '<' || c == '|' || c == '>' || c == '&' || c == ';'
  }

  // ----- a reference lexer, one character at a time -----

  datatype Lexeme = Word(text: string) | Symbol(c: char)

  datatype Mode = Between | Inside(word: string, quoted: bool)

  /** A quotation mark turns into a space and switches quoting; inside quotes blanks and symbols
      belong to the word; a word goes on across its quotes. */
  function Scan(text: string, mode: Mode): seq<Lexeme>
    decreases |text|, if mode.Inside? then 1 else 0
  {
    match mode
    case Between =>
      if text == "" then []
      else if IsBlank(text[0]) then Scan(text[1..], Between)
      else if IsSymbol(text[0]) then [Symbol(text[0])] + Scan(text[1..], Between)
      else if text[0] == '"' then Scan(text[1..], Inside(" ", true))
      else Scan(text[1..], Inside([text[0]], false))
    case Inside(word, quoted) =>
      if text == "" then [Word(word)]
      else if text[0] == '"' then Scan(text[1..], Inside(word + " ", !quoted))
      else if !quoted && (IsBlank(text[0]) || IsSymbol(text[0])) then [Word(word)] + Scan(text, Between)
      else Scan(text[1..], Inside(word + [text[0]], quoted))
  }

  function Lex(command: string): seq<Lexeme>
  {
    Scan(command, Between)
  }

  lemma NoConfusion(c: char)
    ensures IsSymbol(c) ==> c != 'w' && c != NUL && !IsBlank(c)
    ensures !IsBlank(NUL) && !IsBlank('"') && !IsSymbol('"')
  {
  }

  // ----- where the program cuts -----

  /** Where the next token of a command that ends at n starts. */
  function Start(b: string, p: nat, n: nat): (q: nat)
    requires p <= n <= |b|
    ensures p <= q <= n && (q < n ==> !IsBlank(b[q]))
    decreases n - p
  {
    if p < n && IsBlank(b[p]) then Start(b, p + 1, n) else p
  }

  function WordEnd(b: string, p: nat, n: nat, quoted: bool): (e: nat)
    requires p <= n <= |b|
    ensures p <= e <= n && (e < n ==> IsBlank(b[e]) || IsSymbol(b[e]))
    decreases n - p
  {
    if p == n || (!quoted && (IsBlank(b[p]) || IsSymbol(b[p]))) then p
    else WordEnd(b, p + 1, n, if b[p] == '"' then !quoted else quoted)
  }

  /** Where the token at q ends. */
  function End(b: string, q: nat, n: nat): (e: nat)
    requires q < n <= |b| && !IsBlank(b[q])
    ensures q < e <= n
  {
    if IsSymbol(b[q]) then q + 1 else WordEnd(b, q, n, false)
  }

  function Plain(c: char): char
  {
    if c == '"' then ' ' else c
  }

  function Unquoted(text: string): (r: string)
    ensures |r| == |text| && forall i :: 0 <= i < |text| ==> r[i] == Plain(text[i])
  {
    seq(|text|, i requires 0 <= i < |text| => Plain(text[i]))
  }

  function TokenAt(b: string, q: nat, n: nat): Lexeme
    requires q < n <= |b| && !IsBlank(b[q])
  {
    if IsSymbol(b[q]) then Symbol(b[q]) else Word(Unquoted(b[q..End(b, q, n)]))
  }

  lemma UnquotedFront(b: string, q: nat, e: nat)
    requires q < e <= |b|
    ensures [Plain(b[q])] + Unquoted(b[q + 1..e]) == Unquoted(b[q..e])
  {
  }

  lemma {:induction false} BlanksSkipped(b: string, p: nat, n: nat)
    requires p <= n <= |b|
    ensures Lex(b[p..n]) == Lex(b[Start(b, p, n)..n])
    decreases n - p
  {
    hide IsBlank;
    if p < n && IsBlank(b[p]) {
      BlanksSkipped(b, p + 1, n);
      assert b[p..n][1..] == b[p + 1..n];
    }
  }

  lemma {:induction false} WordScanned(b: string, p: nat, n: nat, word: string, quoted: bool)
    requires p <= n <= |b|
    ensures var e := WordEnd(b, p, n, quoted);
      Scan(b[p..n], Inside(word, quoted)) == [Word(word + Unquoted(b[p..e]))] + Lex(b[e..n])
    decreases n - p
  {
    NoConfusion('"');
    hide IsBlank, IsSymbol, Unquoted;
    var e := WordEnd(b, p, n, quoted);
    if e == p {
      assert word + Unquoted(b[p..p]) == word;
      if p == n { assert Lex(b[n..n]) == []; }
    } else {
      hide Lex;
      WordScanned(b, p + 1, n, word + [Plain(b[p])], if b[p] == '"' then !quoted else quoted);
      assert b[p..n][1..] == b[p + 1..n];
      UnquotedFront(b, p, e);
      assert (word + [Plain(b[p])]) + Unquoted(b[p + 1..e]) == word + ([Plain(b[p])] + Unquoted(b[p + 1..e]));
    }
  }

  /** Cutting at Start and End agrees with the reference lexer. */
  lemma LexAt(b: string, p: nat, n: nat)
    requires p <= n <= |b|
    ensures var q := Start(b, p, n);
      && (q == n ==> Lex(b[p..n]) == [])
      && (q < n ==> Lex(b[p..n]) == [TokenAt(b, q, n)] + Lex(b[End(b, q, n)..n]))
  {
    var q := Start(b, p, n);
    BlanksSkipped(b, p, n);
    hide Start, IsBlank, Unquoted;
    if q < n {
      assert b[q..n][1..] == b[q + 1..n];
      if !IsSymbol(b[q]) {
        WordScanned(b, q + 1, n, [Plain(b[q])], b[q] == '"');
        hide Lex, IsSymbol;
        var e := End(b, q, n);
        UnquotedFront(b, q, e);
        assert Scan(b[q..n], Between) == Scan(b[q + 1..n], Inside([Plain(b[q])], b[q] == '"'));
      }
    }
  }

  // ----- the tokenizer -----

  /** The command is in the buffer up to position n, and from p on nothing has been cut. */
  predicate Unread(b: string, p: nat, n: nat)
  {
    p <= n < |b| && b[n] == NUL && forall i :: p <= i < n ==> b[i] != NUL
  }

  function Kind(l: Lexeme): char
  {
    match l
    case Word(_) => 'w'
    case Symbol(c) => c
  }

  /** The blanks from p to q have become NULs, and so has the token from q to e if it is a symbol;
      in a word the quotation marks have become spaces. Nothing else has changed. */
  ghost predicate Cut(b: string, b': string, p: nat, q: nat, e: nat, token: char)
  {
    && |b'| == |b|
    && forall i :: 0 <= i < |b| ==>
         b'[i] == if p <= i < q || (q <= i < e && token != 'w') then NUL
                  else if q <= i < e then Plain(b[i])
                  else b[i]
  }

  /** The tests that the program makes with strchr. */
  method Blank(c: char) returns (b: bool)
    ensures b == IsBlank(c)
  {
    var at := StrChr(WHITESPACE, c);
    b := at.Some?;
  }

  method Symbolic(c: char) returns (b: bool)
    ensures b == IsSymbol(c)
  {
    var at := StrChr(SYMBOLS, c);
    b := at.Some?;
  }

  method Separates(c: char) returns (b: bool)
    ensures b == (IsBlank(c) || IsSymbol(c))
  {
    var at := StrChr(WHITESPACE + SYMBOLS, c);
    b := at.Some?;
  }

  /** Overwrites leading blanks. */
  method SkipBlanks(buf: array<char>, ghost n: nat, p: nat) returns (s: nat)
    requires Unread(buf[..], p, n)
    modifies buf
    ensures s == Start(old(buf[..]), p, n)
    ensures forall i :: 0 <= i < buf.Length ==> buf[i] == if p <= i < s then NUL else old(buf[i])
  {
    s := p;
    ghost var was := buf[..];
    var blank := Blank(buf[s]);
    NoConfusion(NUL);
    hide IsBlank;
    while blank
      invariant p <= s <= n && |was| == buf.Length
      invariant blank == IsBlank(was[s])
      invariant forall i :: 0 <= i < buf.Length ==> buf[i] == if p <= i < s then NUL else was[i]
      invariant Start(was, p, n) == Start(was, s, n)
      decreases n - s
    {
      buf[s] := NUL;
      s := s + 1;
      blank := Blank(buf[s]);
    }
  }

  /** Passes over a word and turns its quotation marks into spaces. */
  method CutWord(buf: array<char>, ghost n: nat, p: nat) returns (s: nat)
    requires Unread(buf[..], p, n)
    modifies buf
    ensures s == WordEnd(old(buf[..]), p, n, false)
    ensures Cut(old(buf[..]), buf[..], p, p, s, 'w')
  {
    s := p;
    ghost var was := buf[..];
    var flag := false;
    var stop := Separates(buf[s]);
    hide IsBlank, IsSymbol;
    while buf[s] != NUL && (flag || !stop)
      invariant p <= s <= n && |was| == buf.Length
      invariant stop == (IsBlank(was[s]) || IsSymbol(was[s]))
      invariant forall i :: 0 <= i < buf.Length ==> buf[i] == if p <= i < s then Plain(was[i]) else was[i]
      invariant WordEnd(was, p, n, false) == WordEnd(was, s, n, flag)
      decreases n - s
    {
      if buf[s] == '"' {
        buf[s] := ' ';
        flag := !flag;
      }
      s := s + 1;
      stop := Separates(buf[s]);
    }
  }

  /** Cuts the token at q, which is not blank. */
  method CutToken(buf: array<char>, ghost n: nat, q: nat) returns (token: char, s: nat)
    requires Unread(buf[..], q, n) && q < n && !IsBlank(buf[q])
    modifies buf
    ensures s == End(old(buf[..]), q, n) && token == Kind(TokenAt(old(buf[..]), q, n)) != NUL
    ensures Cut(old(buf[..]), buf[..], q, q, s, token)
  {
    hide IsBlank, IsSymbol;
    token, s := 'w', q;
    var symbol := Symbolic(buf[s]);
    NoConfusion(buf[s]);
    if symbol {
      token := buf[s];
      buf[s] := NUL;
      s := s + 1;
    } else {
      s := CutWord(buf, n, s);
    }
  }

  /** What a call of gettoken with p1 = p has done. */
  ghost predicate Called(b: string, b': string, p: nat, n: nat, token: char, p1': Option<nat>, p2: nat)
    requires p <= n <= |b|
  {
    var q := Start(b, p, n);
    if q == n then
      token == NUL && p1' == Some(p) && Cut(b, b', p, n, n, NUL)
    else
      var e := End(b, q, n);
      && token == Kind(TokenAt(b, q, n)) != NUL && p2 == q && p1' == (if e < n then Some(e) else None)
      && Cut(b, b', p, q, e, token)
  }

  /** Reads from pointer p1 the next token: NUL at the end, 'w' for a word, or the symbol. The
      pointer p1 moves behind it, or is null at the end of the command; p2 is its start. */
  method GetToken(buf: array<char>, ghost n: nat, p1: Option<nat>) returns (token: char, p1': Option<nat>, p2: nat)
    requires p1.Some? ==> Unread(buf[..], p1.value, n)
    modifies buf
    ensures p1.None? ==> token == NUL && p1'.None? && buf[..] == old(buf[..])
    ensures p1.Some? ==> Called(old(buf[..]), buf[..], p1.value, n, token, p1', p2)
  {
    token, p1', p2 := NUL, p1, 0;
    if p1.None? {
      return;
    }
    ghost var was := buf[..];
    var s := SkipBlanks(buf, n, p1.value);
    if buf[s] != NUL {
      ghost var middle := buf[..];
      p2 := s;
      SameToken(was, middle, p1.value, s, n);
      hide Start, End, TokenAt, IsBlank;
      token, s := CutToken(buf, n, s);
      p1' := if buf[s] != NUL then Some(s) else None;
    }
  }

  /** The token does not depend on what is before it. */
  lemma SameToken(b: string, b': string, p: nat, q: nat, n: nat)
    requires p <= q < n < |b| == |b'| && !IsBlank(b[q]) && forall i :: q <= i < |b| ==> b'[i] == b[i]
    ensures End(b', q, n) == End(b, q, n) && TokenAt(b', q, n) == TokenAt(b, q, n)
  {
    SameWordEnd(b, b', q, n, false);
    assert b'[q..End(b, q, n)] == b[q..End(b, q, n)];
  }

  lemma {:induction false} SameWordEnd(b: string, b': string, p: nat, n: nat, quoted: bool)
    requires p <= n < |b| == |b'| && forall i :: p <= i < |b| ==> b'[i] == b[i]
    ensures WordEnd(b', p, n, quoted) == WordEnd(b, p, n, quoted)
    decreases n - p
  {
    if p < n { SameWordEnd(b, b', p + 1, n, if b[p] == '"' then !quoted else quoted); }
  }

  // ----- what a call leaves behind -----

  /** The pointer reads as this word. */
  ghost predicate ReadsAs(b: string, p: nat, word: string)
  {
    p + |word| < |b| && b[p..p + |word|] == word && b[p + |word|] == NUL
  }

  /** A word that has been cut before pos: it is closed by a NUL, or will be by the call at pos. */
  ghost predicate Begun(b: string, p: nat, word: string, pos: nat)
  {
    && p + |word| <= pos < |b| && b[p..p + |word|] == word
    && (b[p + |word|] == NUL || (p + |word| == pos && (IsBlank(b[pos]) || IsSymbol(b[pos]))))
  }

  function Position(p1: Option<nat>, n: nat): nat
  {
    if p1.Some? then p1.value else n
  }

  /** Behind the token read, the command is still unread. */
  lemma CallAdvances(b: string, b': string, p: nat, n: nat, token: char, p1': Option<nat>, p2: nat)
    requires Unread(b, p, n) && Called(b, b', p, n, token, p1', p2) && token != NUL
    ensures p2 == Start(b, p, n) < n && |b'| == |b| && p < End(b, p2, n) == Position(p1', n) <= n && b'[n] == NUL
    ensures forall i :: Position(p1', n) <= i < |b| ==> b'[i] == b[i]
    ensures p1'.Some? ==> Unread(b', p1'.value, n)
  {
    hide TokenAt, End, Start, Kind;
  }

  /** If the token is a word, its pointer is at it. */
  lemma CallBegins(b: string, b': string, p: nat, n: nat, p1': Option<nat>, p2: nat)
    requires Unread(b, p, n) && Called(b, b', p, n, 'w', p1', p2)
    ensures p2 == Start(b, p, n) < n && TokenAt(b, p2, n).Word?
    ensures Begun(b', p2, TokenAt(b, p2, n).text, Position(p1', n))
  {
    NoConfusion(b[p2]);
    hide IsBlank, IsSymbol, Start;
    var e := End(b, p2, n);
    assert b'[p2..e] == Unquoted(b[p2..e]);
  }

  /** Words cut before are closed by the call, and none of their characters is overwritten. */
  lemma CallCloses(b: string, b': string, p: nat, n: nat, token: char, p1': Option<nat>, p2: nat, at: nat, word: string)
    requires Unread(b, p, n) && Called(b, b', p, n, token, p1', p2) && Begun(b, at, word, p)
    ensures ReadsAs(b', at, word) && (token != NUL ==> Begun(b', at, word, Position(p1', n)))
  {
    assert b'[at..at + |word|] == b[at..at + |word|];
    NoConfusion(b[p]);
    hide IsBlank, IsSymbol, WordEnd, Unquoted;
    if token != NUL { CallAdvances(b, b', p, n, token, p1', p2); }
  }

  // ----- the whole command -----

  /** The result of a call stands for this token. */
  ghost predicate Stands(b: string, token: char, at: nat, l: Lexeme)
  {
    match l
    case Word(w) => token == 'w' && ReadsAs(b, at, w)
    case Symbol(c) => token == c && c != 'w'
  }

  /** Likewise, except that the latest word is not closed yet. */
  ghost predicate Pending(b: string, token: char, at: nat, l: Lexeme, pos: nat)
  {
    match l
    case Word(w) => token == 'w' && Begun(b, at, w, pos)
    case Symbol(c) => token == c && c != 'w'
  }

  ghost predicate AllPending(b: string, tokens: seq<char>, starts: seq<nat>, ls: seq<Lexeme>, pos: nat)
  {
    && |tokens| == |starts| == |ls|
    && (forall k :: 0 <= k < |ls| ==> Pending(b, tokens[k], starts[k], ls[k], pos))
  }

  ghost predicate AllStand(b: string, tokens: seq<char>, starts: seq<nat>, ls: seq<Lexeme>)
  {
    && |tokens| == |starts| == |ls|
    && (forall k :: 0 <= k < |ls| ==> Stands(b, tokens[k], starts[k], ls[k]))
  }

  lemma PendingClosed(b: string, b': string, p: nat, n: nat, token: char, p1': Option<nat>, p2: nat,
                      tokens: seq<char>, starts: seq<nat>, ls: seq<Lexeme>)
    requires Unread(b, p, n) && Called(b, b', p, n, token, p1', p2) && AllPending(b, tokens, starts, ls, p)
    ensures AllStand(b', tokens, starts, ls)
    ensures token != NUL ==> AllPending(b', tokens, starts, ls, Position(p1', n))
  {
    hide Called, Begun, ReadsAs, Unread;
    forall k | 0 <= k < |ls|
      ensures Stands(b', tokens[k], starts[k], ls[k])
      ensures token != NUL ==> Pending(b', tokens[k], starts[k], ls[k], Position(p1', n))
    {
      assert Pending(b, tokens[k], starts[k], ls[k], p);
      if ls[k].Word? { CallCloses(b, b', p, n, token, p1', p2, starts[k], ls[k].text); }
    }
  }

  lemma AtEndStand(b: string, n: nat, tokens: seq<char>, starts: seq<nat>, ls: seq<Lexeme>)
    requires n < |b| && b[n] == NUL && AllPending(b, tokens, starts, ls, n)
    ensures AllStand(b, tokens, starts, ls)
  {
    NoConfusion(NUL);
    forall k | 0 <= k < |ls| ensures Stands(b, tokens[k], starts[k], ls[k]) {
      assert Pending(b, tokens[k], starts[k], ls[k], n);
    }
  }

  /** The token just read joins the others. */
  lemma TokenJoins(b: string, b': string, p: nat, n: nat, token: char, p1': Option<nat>, p2: nat,
                   tokens: seq<char>, starts: seq<nat>, ls: seq<Lexeme>)
    requires Unread(b, p, n) && Called(b, b', p, n, token, p1', p2) && token != NUL
    requires AllPending(b', tokens, starts, ls, Position(p1', n))
    ensures p2 < n && !IsBlank(b[p2])
    ensures AllPending(b', tokens + [token], starts + [p2], ls + [TokenAt(b, p2, n)], Position(p1', n))
  {
    NoConfusion(b[p2]);
    hide Begun, Unread, End, IsBlank, IsSymbol;
    CallAdvances(b, b', p, n, token, p1', p2);
    if token == 'w' { CallBegins(b, b', p, n, p1', p2); }
    var l := TokenAt(b, p2, n);
    assert Pending(b', token, p2, l, Position(p1', n));
  }

  lemma LexStep(b: string, b': string, p: nat, n: nat, token: char, p1': Option<nat>, p2: nat)
    requires Unread(b, p, n) && Called(b, b', p, n, token, p1', p2)
    ensures |b'| == |b| && b'[n] == NUL && (token == NUL ==> Lex(b[p..n]) == [])
    ensures token != NUL ==>
      && p2 < n && !IsBlank(b[p2]) && p < Position(p1', n) <= n
      && Lex(b[p..n]) == [TokenAt(b, p2, n)] + Lex(b'[Position(p1', n)..n])
  {
    LexAt(b, p, n);
    hide Lex, IsBlank, TokenAt, End;
    if token != NUL {
      CallAdvances(b, b', p, n, token, p1', p2);
      assert b'[Position(p1', n)..n] == b[Position(p1', n)..n];
    }
  }

  /** Calling gettoken until it returns 0 yields exactly the tokens of the reference lexer on the
      original command, and in the end every word reads as that word. */
  method Tokenize(buf: array<char>, ghost n: nat) returns (tokens: seq<char>, starts: seq<nat>)
    requires Unread(buf[..], 0, n)
    modifies buf
    ensures AllStand(buf[..], tokens, starts, Lex(old(buf[..])[..n]))
  {
    hide Lex, Called, AllPending, AllStand;
    tokens, starts := [], [];
    ghost var ls: seq<Lexeme> := [];
    var p1, done := Some(0), false;
    assert buf[..][0..n] == buf[..][..n];
    assert AllPending(buf[..], [], [], [], 0) by { NonePending(buf[..]); }
    while !done
      invariant Position(p1, n) <= n < buf.Length && buf[n] == NUL
      invariant !done && p1.Some? ==> Unread(buf[..], p1.value, n)
      invariant !done ==> AllPending(buf[..], tokens, starts, ls, Position(p1, n))
      invariant !done ==> ls + Lex(buf[..][Position(p1, n)..n]) == Lex(old(buf[..])[..n])
      invariant done ==> AllStand(buf[..], tokens, starts, Lex(old(buf[..])[..n]))
      decreases !done, n - Position(p1, n)
    {
      ghost var was := buf[..];
      var token, p1', p2 := GetToken(buf, n, p1);
      if p1.None? {
        AtEndStand(buf[..], n, tokens, starts, ls);
        assert Lex(buf[..][n..n]) == [] by { EmptyLex(buf[..], n); }
        assert ls + [] == ls;
        done := true;
      } else {
        PendingClosed(was, buf[..], p1.value, n, token, p1', p2, tokens, starts, ls);
        LexStep(was, buf[..], p1.value, n, token, p1', p2);
        if token == NUL {
          assert ls + [] == ls;
          done := true;
        } else {
          TokenJoins(was, buf[..], p1.value, n, token, p1', p2, tokens, starts, ls);
          CallAdvances(was, buf[..], p1.value, n, token, p1', p2);
          ghost var l := TokenAt(was, p2, n);
          assert (ls + [l]) + Lex(buf[..][Position(p1', n)..n]) == ls + ([l] + Lex(buf[..][Position(p1', n)..n]));
          tokens, starts, ls, p1 := tokens + [token], starts + [p2], ls + [l], p1';
        }
      }
    }
  }

  lemma NonePending(b: string)
    ensures AllPending(b, [], [], [], 0)
  {
  }

  lemma EmptyLex(b: string, n: nat)
    requires n <= |b|
    ensures Lex(b[n..n]) == []
  {
  }

  // ----- collecting the words of a command -----

  /** Why runcmd stops collecting: it runs the words at the end of the command, a pipe or a
      semicolon; everything else is an error. */
  datatype Stop = Run(c: char) | TooMany | NoTarget(c: char) | BadToken(c: char) | OpenFailed(code: int)

  datatype Outcome = Outcome(stop: Stop, args: seq<string>, at: nat)

  /** What runcmd makes of the command from p to n. `opens` is the result of reopening a file
      descriptor on a name. The name handed over is the target word together with all that is
      still unread, because the word has not been closed yet. */
  function Collected(b: string, p: nat, n: nat, args: seq<string>, opens: (nat, string) -> int): Outcome
    requires p <= n <= |b|
    decreases n - p
  {
    var q := Start(b, p, n);
    if q == n then Outcome(Run(NUL), args, n)
    else
      var e := End(b, q, n);
      match TokenAt(b, q, n)
      case Word(w) => if |args| == MAX_ARGS then Outcome(TooMany, args, e) else Collected(b, e, n, args + [w], opens)
      case Symbol(c) =>
        if c == '<' || c == '>' then
          var t := Start(b, e, n);
          if t == n || TokenAt(b, t, n).Symbol? then Outcome(NoTarget(c), args, e)
          else
            var code := opens(if c == '<' then 0 else 1, OpenedName(b, t, n));
            if code != 0 then Outcome(OpenFailed(code), args, e) else Collected(b, End(b, t, n), n, args, opens)
        else if c == '|' || c == ';' then Outcome(Run(c), args, e)
        else Outcome(BadToken(c), args, e)
  }

  function OpenedName(b: string, t: nat, n: nat): string
    requires t < n <= |b| && !IsBlank(b[t])
  {
    Unquoted(b[t..End(b, t, n)]) + b[End(b, t, n)..n]
  }

  /** A redirection opens the file that is named exactly when nothing follows its name. */
  lemma RedirectionTarget(b: string, t: nat, n: nat)
    requires t < n <= |b| && !IsBlank(b[t]) && !IsSymbol(b[t])
    ensures OpenedName(b, t, n) == TokenAt(b, t, n).text <==> End(b, t, n) == n
  {
    var e := End(b, t, n);
    assert |OpenedName(b, t, n)| == |TokenAt(b, t, n).text| + (n - e);
    if e == n { assert b[n..n] == ""; }
  }

  /** For example, the name opened for input here includes the output redirection. */
  lemma RedirectionRunsOn()
    ensures var b := "<a >b";
      Start(b, 1, 5) == 1 && TokenAt(b, 1, 5) == Word("a") && OpenedName(b, 1, 5) == "a >b"
  {
    var b := "<a >b";
    assert b[1] == 'a' && b[2] == ' ';
    assert WordEnd(b, 2, 5, false) == 2;
    assert End(b, 1, 5) == 2;
    assert Unquoted(b[1..2]) == "a" && b[2..5] == " >b";
  }

  lemma {:induction false} SameStart(b: string, b': string, p: nat, n: nat)
    requires p <= n < |b| == |b'| && forall i :: p <= i < |b| ==> b'[i] == b[i]
    ensures Start(b', p, n) == Start(b, p, n)
    decreases n - p
  {
    if p < n { SameStart(b, b', p + 1, n); }
  }

  lemma {:induction false} SameCollected(b: string, b': string, p: nat, n: nat, args: seq<string>,
      opens: (nat, string) -> int)
    requires p <= n < |b| == |b'| && forall i :: p <= i < |b| ==> b'[i] == b[i]
    ensures Collected(b', p, n, args, opens) == Collected(b, p, n, args, opens)
    decreases n - p
  {
    SameStart(b, b', p, n);
    var q := Start(b, p, n);
    if q < n {
      SameToken(b, b', p, q, n);
      var e := End(b, q, n);
      SameStart(b, b', e, n);
      var t := Start(b, e, n);
      if t < n {
        SameToken(b, b', e, t, n);
        assert b'[t..End(b, t, n)] == b[t..End(b, t, n)] && b'[End(b, t, n)..n] == b[End(b, t, n)..n];
      }
      hide Start, End, TokenAt, IsBlank, IsSymbol, Unquoted;
      match TokenAt(b, q, n)
      case Word(w) => if |args| != MAX_ARGS { SameCollected(b, b', e, n, args + [w], opens); }
      case Symbol(c) =>
        if (c == '<' || c == '>') && t < n && TokenAt(b, t, n).Word? {
          SameCollected(b, b', End(b, t, n), n, args, opens);
        }
    }
  }

  /** One step of collecting, by the token that comes next. */
  lemma CollectedStep(b: string, p: nat, n: nat, args: seq<string>, opens: (nat, string) -> int)
    requires p <= n <= |b|
    ensures var o, q := Collected(b, p, n, args, opens), Start(b, p, n);
      if q == n then o == Outcome(Run(NUL), args, n)
      else
        var l, e := TokenAt(b, q, n), End(b, q, n);
        var t := Start(b, e, n);
        && (l.Word? ==>
              o == if |args| == MAX_ARGS then Outcome(TooMany, args, e) else Collected(b, e, n, args + [l.text], opens))
        && (l == Symbol('<') || l == Symbol('>') ==>
              if t == n || TokenAt(b, t, n).Symbol? then o.stop == NoTarget(l.c)
              else
                var code := opens(if l.c == '<' then 0 else 1, OpenedName(b, t, n));
                if code != 0 then o.stop == OpenFailed(code) else o == Collected(b, End(b, t, n), n, args, opens))
        && (l == Symbol('|') || l == Symbol(';') ==> o == Outcome(Run(l.c), args, e))
        && (l.Symbol? && l.c !in "<>|;" ==> o.stop == BadToken(l.c))
  {
    hide Start, End, TokenAt, IsBlank, IsSymbol, OpenedName;
  }

  /** The arguments among the tokens of a command: its words up to a pipe or semicolon, without
      the targets of redirections. */
  function ArgsOf(ls: seq<Lexeme>): seq<string>
  {
    if ls == [] then []
    else
      match ls[0]
      case Word(w) => [w] + ArgsOf(ls[1..])
      case Symbol(c) => if (c == '<' || c == '>') && |ls| > 1 then ArgsOf(ls[2..]) else []
  }

  lemma ArgsOfFront(l: Lexeme, ls: seq<Lexeme>)
    ensures l.Word? ==> ArgsOf([l] + ls) == [l.text] + ArgsOf(ls)
    ensures l.Symbol? && (!(l.c == '<' || l.c == '>') || ls == []) ==> ArgsOf([l] + ls) == []
    ensures l.Symbol? && (l.c == '<' || l.c == '>') && ls != [] ==> ArgsOf([l] + ls) == ArgsOf(ls[1..])
  {
    assert ([l] + ls)[1..] == ls && (ls != [] ==> ([l] + ls)[2..] == ls[1..]);
  }

  /** What runcmd collects, in terms of the reference lexer. */
  lemma {:induction false} CollectedArgs(b: string, p: nat, n: nat, args: seq<string>, opens: (nat, string) -> int)
    requires p <= n <= |b| && |args| <= MAX_ARGS
    ensures var o := Collected(b, p, n, args, opens);
      o.stop.Run? ==> o.args == args + ArgsOf(Lex(b[p..n])) && |o.args| <= MAX_ARGS
    decreases n - p
  {
    hide Lex, Start, End, TokenAt, IsBlank, IsSymbol, ArgsOf, OpenedName, Collected;
    LexAt(b, p, n);
    CollectedStep(b, p, n, args, opens);
    var q := Start(b, p, n);
    if q == n {
      assert args + ArgsOf([]) == args by { NoArgs(); }
    } else {
      var l, e := TokenAt(b, q, n), End(b, q, n);
      var ls := Lex(b[e..n]);
      ArgsOfFront(l, ls);
      if l.Word? {
        if |args| != MAX_ARGS {
          CollectedArgs(b, e, n, args + [l.text], opens);
          assert (args + [l.text]) + ArgsOf(ls) == args + ([l.text] + ArgsOf(ls));
        }
      } else if l.c == '<' || l.c == '>' {
        LexAt(b, e, n);
        var t := Start(b, e, n);
        if t < n && TokenAt(b, t, n).Word? {
          CollectedArgs(b, End(b, t, n), n, args, opens);
          assert ls[1..] == Lex(b[End(b, t, n)..n]);
        }
      } else {
        assert args + [] == args;
      }
    }
  }

  /** Why the command with these tokens stops, if reopening gives these results in turn: by the
      first token that decides it. */
  function Verdict(ls: seq<Lexeme>, argc: nat, results: seq<int>): Stop
  {
    if ls == [] then Run(NUL)
    else
      match ls[0]
      case Word(_) => if argc == MAX_ARGS then TooMany else Verdict(ls[1..], argc + 1, results)
      case Symbol(c) =>
        if c == '|' || c == ';' then Run(c)
        else if c != '<' && c != '>' then BadToken(c)
        else if |ls| < 2 || ls[1].Symbol? || results == [] then NoTarget(c)
        else if results[0] != 0 then OpenFailed(results[0])
        else Verdict(ls[2..], argc, results[1..])
  }

  /** The results of reopening for the redirections of a command, in turn. */
  function Results(b: string, p: nat, n: nat, opens: (nat, string) -> int): seq<int>
    requires p <= n <= |b|
    decreases n - p
  {
    var q := Start(b, p, n);
    if q == n then []
    else
      var l, e := TokenAt(b, q, n), End(b, q, n);
      if l != Symbol('<') && l != Symbol('>') then Results(b, e, n, opens)
      else
        var t := Start(b, e, n);
        if t == n || TokenAt(b, t, n).Symbol? then []
        else [opens(if l.c == '<' then 0 else 1, OpenedName(b, t, n))] + Results(b, End(b, t, n), n, opens)
  }

  /** How the collecting ends is decided by the tokens of the reference lexer and the results of
      reopening alone. */
  lemma {:induction false} CollectedStop(b: string, p: nat, n: nat, args: seq<string>, opens: (nat, string) -> int)
    requires p <= n <= |b| && |args| <= MAX_ARGS
    ensures Collected(b, p, n, args, opens).stop == Verdict(Lex(b[p..n]), |args|, Results(b, p, n, opens))
    decreases n - p
  {
    hide Lex, Start, End, TokenAt, IsBlank, IsSymbol, OpenedName, Collected;
    LexAt(b, p, n);
    CollectedStep(b, p, n, args, opens);
    var q := Start(b, p, n);
    if q < n {
      var l, e := TokenAt(b, q, n), End(b, q, n);
      var ls := Lex(b[e..n]);
      assert ([l] + ls)[1..] == ls;
      if l.Word? {
        if |args| != MAX_ARGS { CollectedStop(b, e, n, args + [l.text], opens); }
      } else if l.c == '<' || l.c == '>' {
        LexAt(b, e, n);
        var t := Start(b, e, n);
        if t < n && TokenAt(b, t, n).Word? {
          CollectedStop(b, End(b, t, n), n, args, opens);
          assert ([l] + ls)[2..] == ls[1..] == Lex(b[End(b, t, n)..n]);
        }
      }
    }
  }

  lemma NoArgs()
    ensures ArgsOf([]) == []
  {
  }

  /** The name that a callee reads through a pointer. */
  method ReadName(buf: array<char>, ghost n: nat, p: nat) returns (name: string)
    requires Unread(buf[..], p, n)
    ensures name == buf[..][p..n]
  {
    name := "";
    var i := p;
    while buf[i] != NUL
      invariant p <= i <= n && name == buf[..][p..i]
      decreases n - i
    {
      name := name + [buf[i]];
      i := i + 1;
    }
  }

  /** The words collected so far. */
  ghost predicate Words(b: string, argv: seq<nat>, args: seq<string>, pos: nat)
  {
    |argv| == |args| && forall k :: 0 <= k < |args| ==> Begun(b, argv[k], args[k], pos)
  }

  ghost predicate AllRead(b: string, argv: seq<nat>, args: seq<string>)
  {
    |argv| == |args| && forall k :: 0 <= k < |args| ==> ReadsAs(b, argv[k], args[k])
  }

  lemma WordsClosed(b: string, b': string, p: nat, n: nat, token: char, p1': Option<nat>, p2: nat,
                    argv: seq<nat>, args: seq<string>)
    requires Unread(b, p, n) && Called(b, b', p, n, token, p1', p2) && Words(b, argv, args, p)
    ensures AllRead(b', argv, args) && (token != NUL ==> Words(b', argv, args, Position(p1', n)))
  {
    hide Called, Unread, Begun, ReadsAs;
    forall k | 0 <= k < |args|
      ensures ReadsAs(b', argv[k], args[k]) && (token != NUL ==> Begun(b', argv[k], args[k], Position(p1', n)))
    {
      CallCloses(b, b', p, n, token, p1', p2, argv[k], args[k]);
    }
  }

  lemma WordsAtEnd(b: string, n: nat, argv: seq<nat>, args: seq<string>)
    requires n < |b| && b[n] == NUL && Words(b, argv, args, n)
    ensures AllRead(b, argv, args)
  {
    NoConfusion(NUL);
    hide IsBlank, IsSymbol;
    forall k | 0 <= k < |args| ensures ReadsAs(b, argv[k], args[k]) {
      assert Begun(b, argv[k], args[k], n);
    }
  }

  /** Behind a redirection symbol: reads the target and reopens the descriptor on it. */
  method Redirect(buf: array<char>, ghost n: nat, p1: Option<nat>, fd: nat, opens: (nat, string) -> int)
    returns (word: bool, code: int, p1': Option<nat>)
    requires Position(p1, n) <= n < buf.Length && buf[n] == NUL && (p1.Some? ==> Unread(buf[..], p1.value, n))
    modifies buf
    ensures var b, p := old(buf[..]), Position(p1, n);
      var t := Start(b, p, n);
      && (word <==> t < n && TokenAt(b, t, n).Word?)
      && (word ==>
            && code == opens(fd, OpenedName(b, t, n)) && Position(p1', n) == End(b, t, n) > p
            && (p1'.Some? ==> Unread(buf[..], p1'.value, n)) && buf[n] == NUL
            && (forall i :: End(b, t, n) <= i < buf.Length ==> buf[i] == b[i]))
    ensures word ==> p1.Some? && exists p2 :: Called(old(buf[..]), buf[..], p1.value, n, 'w', p1', p2)
  {
    ghost var was := buf[..];
    var token, p2;
    token, p1', p2 := GetToken(buf, n, p1);
    word, code := token == 'w', 0;
    if p1.Some? && token != NUL {
      CallAdvances(was, buf[..], p1.value, n, token, p1', p2);
      NoConfusion(was[p2]);
    }
    if word {
      CallBegins(was, buf[..], p1.value, n, p1', p2);
      NameRead(was, buf[..], p1.value, n, p1', p2);
      var name := ReadName(buf, n, p2);
      code := opens(fd, name);
    }
  }

  /** At that moment the pointer reads as the word and all that is still unread. */
  lemma NameRead(b: string, b': string, p: nat, n: nat, p1': Option<nat>, p2: nat)
    requires Unread(b, p, n) && Called(b, b', p, n, 'w', p1', p2)
    ensures p2 < n && !IsBlank(b[p2]) && Unread(b', p2, n) && b'[p2..n] == OpenedName(b, p2, n)
  {
    hide IsBlank, IsSymbol, Start;
    var e := End(b, p2, n);
    assert b'[p2..e] == Unquoted(b[p2..e]) && b'[e..n] == b[e..n];
  }

  /** The state at the top of runcmd's loop. */
  ghost predicate Collecting(b0: string, b: string, p1: Option<nat>, n: nat, argv: seq<nat>, args: seq<string>,
                             opens: (nat, string) -> int, goal: Outcome)
  {
    && Position(p1, n) <= n < |b| && |b0| == |b| && b[n] == NUL && (p1.Some? ==> Unread(b, p1.value, n))
    && Words(b, argv, args, Position(p1, n))
    && Collected(b, Position(p1, n), n, args, opens) == goal
  }

  lemma WordJoins(b: string, b': string, argv: seq<nat>, args: seq<string>, n: nat, p2: nat, pos: nat)
    requires Words(b', argv, args, pos) && p2 < n <= |b| && !IsBlank(b[p2]) && TokenAt(b, p2, n).Word?
    requires Begun(b', p2, TokenAt(b, p2, n).text, pos)
    ensures Words(b', argv + [p2], args + [TokenAt(b, p2, n).text], pos)
  {
    hide Begun, TokenAt, IsBlank;
  }

  lemma TargetSame(b: string, b': string, p: nat, n: nat)
    requires p <= n < |b| == |b'| && forall i :: p <= i < |b| ==> b'[i] == b[i]
    ensures Start(b', p, n) == Start(b, p, n)
    ensures var t := Start(b, p, n);
      t < n ==>
        && TokenAt(b', t, n) == TokenAt(b, t, n) && End(b', t, n) == End(b, t, n)
        && OpenedName(b', t, n) == OpenedName(b, t, n)
  {
    SameStart(b, b', p, n);
    var t := Start(b, p, n);
    if t < n {
      SameToken(b, b', p, t, n);
      assert b'[t..End(b, t, n)] == b[t..End(b, t, n)] && b'[End(b, t, n)..n] == b[End(b, t, n)..n];
    }
  }

  /** The rest of the command starts at `at` and is still unread. */
  ghost predicate Stopped(b: string, p1: Option<nat>, n: nat, at: nat)
  {
    Position(p1, n) == at && (p1.Some? ==> Unread(b, p1.value, n))
  }

  /** A redirection inside runcmd's loop: an error, or the words collected so far stay collected. */
  method TakeTarget(buf: array<char>, ghost n: nat, p1: Option<nat>, c: char, opens: (nat, string) -> int,
                    ghost argv: seq<nat>, ghost args: seq<string>)
    returns (failed: Option<Stop>, p1': Option<nat>)
    requires Position(p1, n) <= n < buf.Length && buf[n] == NUL && (p1.Some? ==> Unread(buf[..], p1.value, n))
    requires Words(buf[..], argv, args, Position(p1, n)) && (c == '<' || c == '>')
    modifies buf
    ensures var b, p := old(buf[..]), Position(p1, n);
      var t := Start(b, p, n);
      if t == n || TokenAt(b, t, n).Symbol? then failed == Some(NoTarget(c))
      else
        var code := opens(if c == '<' then 0 else 1, OpenedName(b, t, n));
        if code != 0 then failed == Some(OpenFailed(code))
        else
          && failed == None && p < End(b, t, n) == Position(p1', n) <= n && Words(buf[..], argv, args, Position(p1', n))
          && buf[n] == NUL && (p1'.Some? ==> Unread(buf[..], p1'.value, n))
          && Collected(buf[..], Position(p1', n), n, args, opens) == Collected(b, End(b, t, n), n, args, opens)
  {
    hide Words, AllRead, IsBlank, IsSymbol, Begun, Called, Collected, OpenedName;
    ghost var was := buf[..];
    var word, code;
    word, code, p1' := Redirect(buf, n, p1, if c == '<' then 0 else 1, opens);
    failed := None;
    if !word {
      failed := Some(NoTarget(c));
    } else if code != 0 {
      failed := Some(OpenFailed(code));
    } else {
      ghost var at :| Called(was, buf[..], p1.value, n, 'w', p1', at);
      WordsClosed(was, buf[..], p1.value, n, 'w', p1', at, argv, args);
      SameCollected(was, buf[..], Position(p1', n), n, args, opens);
    }
  }

  /** runcmd up to the point where it runs the command: the arguments are the words up to the
      first pipe, semicolon or end, each readable through its pointer; otherwise the first error
      decides. */
  method CollectWords(buf: array<char>, ghost n: nat, cmd: Option<nat>, opens: (nat, string) -> int)
    returns (stop: Stop, argv: seq<nat>, p1: Option<nat>)
    requires Position(cmd, n) <= n < buf.Length && buf[n] == NUL && (cmd.Some? ==> Unread(buf[..], cmd.value, n))
    modifies buf
    ensures var goal := Collected(old(buf[..]), Position(cmd, n), n, [], opens);
      && stop == goal.stop
      && (stop.Run? ==> AllRead(buf[..], argv, goal.args) && |argv| <= MAX_ARGS
                        && (stop != Run(NUL) ==> Stopped(buf[..], p1, n, goal.at)))
  {
    ghost var goal := Collected(buf[..], Position(cmd, n), n, [], opens);
    ghost var args: seq<string> := [];
    argv, p1, stop := [], cmd, Run(NUL);
    var done := false;
    while !done
      invariant Position(p1, n) <= n < buf.Length
      invariant !done ==>
            Collecting(old(buf[..]), buf[..], p1, n, argv, args, opens, goal) && |args| <= MAX_ARGS && stop == Run(NUL)
      invariant done ==> stop == goal.stop
      invariant done && stop.Run? ==> AllRead(buf[..], argv, goal.args) && |argv| <= MAX_ARGS
      invariant done && stop.Run? && stop != Run(NUL) ==> Stopped(buf[..], p1, n, goal.at)
      decreases !done, n - Position(p1, n)
    {
      ghost var was := buf[..];
      CollectedStep(was, Position(p1, n), n, args, opens);
      hide Collected, OpenedName, AllRead, IsBlank, IsSymbol, Begun;
      var token, p1', p2 := GetToken(buf, n, p1);
      if p1.None? {
        WordsAtEnd(buf[..], n, argv, args);
        done := true;
      } else {
        WordsClosed(was, buf[..], p1.value, n, token, p1', p2, argv, args);
        hide Words;
        if token == NUL {
          done := true;
        } else {
          CallAdvances(was, buf[..], p1.value, n, token, p1', p2);
          NoConfusion(was[p2]);
          if token == 'w' { CallBegins(was, buf[..], p1.value, n, p1', p2); }
          p1 := p1';
          if token == 'w' {
            if |argv| == MAX_ARGS {
              stop, done := TooMany, true;
            } else {
              SameCollected(was, buf[..], Position(p1, n), n, args + [TokenAt(was, p2, n).text], opens);
              WordJoins(was, buf[..], argv, args, n, p2, Position(p1, n));
              argv, args := argv + [p2], args + [TokenAt(was, p2, n).text];
            }
          } else if token == '<' || token == '>' {
            ghost var middle := buf[..];
            TargetSame(was, middle, Position(p1, n), n);
            var failed;
            failed, p1' := TakeTarget(buf, n, p1, token, opens, argv, args);
            if failed.Some? {
              stop, done := failed.value, true;
            } else {
              SameCollected(was, middle, Position(p1', n), n, args, opens);
              p1 := p1';
            }
          } else if token == '|' || token == ';' {
            stop, done := Run(token), true;
          } else {
            stop, done := BadToken(token), true;
          }
        }
      }
    }
  }
}
