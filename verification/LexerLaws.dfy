/** What the lexer reads, said of characters (src/sql/lexer.cpp:8-161): tokens in any spelling they may have, with blanks
    and comments between them. */
module LexerLaws {
  import opened Decimal
  import opened WhereSyntax
  import opened LexerSpec

  // ----- characters

  const CAPITALS: string := "ABCDEFGHIJKLMNOPQRSTUVWXYZ"
  const SMALL: string := "abcdefghijklmnopqrstuvwxyz"

  lemma CapitalAt(c: char)
    ensures c in CAPITALS <==> 'A' <= c <= 'Z'
  {
    if 'A' <= c <= 'Z' { assert CAPITALS[c as int - 'A' as int] == c; }
  }

  lemma SmallAt(c: char)
    ensures c in SMALL <==> 'a' <= c <= 'z'
  {
    if 'a' <= c <= 'z' { assert SMALL[c as int - 'a' as int] == c; }
  }

  lemma DigitAt(c: char)
    ensures c in "0123456789" <==> '0' <= c <= '9'
  {
    if '0' <= c <= '9' { assert "0123456789"[c as int - '0' as int] == c; }
  }

  /** Which characters are blanks, begin and continue words, and make up numbers and timestamps. */
  lemma CharacterClasses(c: char)
    ensures IsBlank(c) <==> c == ' ' || c == '\t' || c == '\r' || c == '\n'
    ensures IsLetter(c) <==> c in CAPITALS || c in SMALL
    ensures In(Digits, c) <==> c in "0123456789"
    ensures In(WordPart, c) <==> c in CAPITALS || c in SMALL || c in "0123456789" || c == '_' || c == '.'
    ensures In(Stamp, c) <==> c in "0123456789" || c == '.' || c == '-' || c == ':'
    ensures In(Quoted, c) <==> c != '"' && c != 0 as char
    ensures In(Comment, c) <==> c != '\n' && c != 0 as char
  {
    CapitalAt(c);
    SmallAt(c);
    DigitAt(c);
    hide CAPITALS, SMALL;
  }

  // ----- keywords in any case

  /** Each character of s is that of k, or its small letter. */
  predicate CaseOf(s: string, k: string) {
    |s| == |k| && forall i | 0 <= i < |s| :: s[i] == k[i] || ('A' <= k[i] <= 'Z' && s[i] as int == k[i] as int + 32)
  }

  lemma UpperOfCase(s: string, k: string)
    requires AllCapital(k) && CaseOf(s, k)
    ensures Upper(s) == k && s != [] && IsLetter(s[0]) && AllIn(WordPart, s)
  {
  }

  lemma KeywordCapital(k: string)
    requires IsKeyword(k)
    ensures AllCapital(k)
  {
    hide IsStatementWord, IsTypeWord, IsClauseWord;
    StatementWords(k);
    TypeWords(k);
    ClauseWords(k);
  }

  /** A keyword is recognised in capitals, in small letters and in any mixture of them. */
  lemma KeywordAnyCase(k: string, s: string, post: string)
    requires IsKeyword(k) && CaseOf(s, k) && (post == [] || !In(WordPart, post[0]))
    ensures Scan(s + post) == Scanned(Keyword(k), |s|)
  {
    hide IsKeyword, In;
    KeywordCapital(k);
    UpperOfCase(s, k);
    WordBack(s, post);
  }

  // ----- numbers, and texts that are no tokens

  /** Digits d with more characters e of timestamps behind them are one timestamp if e holds a dash and a dot; otherwise
      the digits alone are the token. */
  lemma NumberOrStamp(d: string, e: string, post: string)
    requires d != [] && AllDigits(d) && AllIn(Stamp, e) && (e == [] || !IsDigit(e[0])) && (post == [] || !In(Stamp, post[0]))
    ensures Scan(d + e + post) ==
              if '-' in e && '.' in e then Scanned(Lexeme(Ident, d + e), |d + e|) else Scanned(Lexeme(Number, d), |d|)
  {
    var s := d + e;
    assert AllIn(Stamp, s) && s != [] && (s + post)[0] == d[0];
    RunBack(Stamp, s, post);
    assert s + post == d + (e + post);
    DigitsStop(d, e, post);
    assert forall c | !IsDigit(c) :: c in s <==> c in e;
    hide IsKeyword;
  }

  lemma DigitsStop(d: string, e: string, post: string)
    requires AllDigits(d) && (e == [] || !IsDigit(e[0])) && (post == [] || !In(Stamp, post[0]))
    ensures Span(Digits, d + (e + post)) == |d| && (d + (e + post))[..|d|] == d
  {
    assert e == [] ==> e + post == post;
    assert e != [] ==> (e + post)[0] == e[0];
    assert AllIn(Digits, d);
    RunBack(Digits, d, e + post);
  }

  /** A string that is not closed runs to the end of the text, or over a NUL. */
  lemma OpenString(s: string, post: string)
    requires AllIn(Quoted, s) && (post == [] || post[0] == NUL)
    ensures Scan(['"'] + s + post) == Scanned(Lexeme(StrTok, s), if post == [] then |s| + 1 else |s| + 2)
  {
    var text := ['"'] + s + post;
    assert text[1..] == s + post;
    RunBack(Quoted, s, post);
    assert text[1..|s| + 1] == s;
  }

  /** Any other character ends the tokens, and so does an exclamation mark without an equals sign. */
  lemma NoToken(c: char, post: string)
    requires c !in CAPITALS && c !in SMALL && c !in "0123456789" && c !in "_\"*,();=<>"
    requires c != 0 as char && (c == '!' ==> post == [] || post[0] != '=')
    ensures Scan([c] + post) == Scanned(Lexeme(Eof, [c]), 1)
  {
    var s := [c] + post;
    CapitalAt(c);
    SmallAt(c);
    DigitAt(c);
    hide CAPITALS, SMALL;
    assert s[0] == c && s[..1] == [c] && (|s| >= 2 ==> s[1] == post[0]);
  }

  // ----- tokens as they are written

  /** The characters w are a spelling of the token. */
  predicate Spells(t: Lexeme, w: string) {
    WellFormed(t) && if t.kind.Kw? then CaseOf(w, t.text) else w == Spell(t)
  }

  /** What may come right behind the token: nothing that would lengthen it. */
  predicate Follows(t: Lexeme, rest: string) {
    rest == [] ||
    match t.kind
    case Kw => !In(WordPart, rest[0])
    case Ident => if IsName(t.text) then !In(WordPart, rest[0]) else !In(Stamp, rest[0])
    case Number => !In(Stamp, rest[0])
    case Eq => t.text == "==" || rest[0] != '='
    case Lt => rest[0] != '='
    case Gt => rest[0] != '='
    case _ => true
  }

  /** Whatever a token's spelling, it scans as that token and stops at its end. */
  lemma SpelledBack(t: Lexeme, w: string, post: string)
    requires Spells(t, w) && Follows(t, post)
    ensures Scan(w + post) == Scanned(t, |w|)
  {
    hide IsKeyword, Scan, CaseOf, In, IsStamp;
    match t.kind
    case Kw => KeywordAnyCase(t.text, w, post);
    case Ident => if IsName(t.text) { WordBack(w, post); } else { StampBack(w, post); }
    case Number => NumberBack(w, post);
    case StrTok => StringBack(t.text, post);
    case _ => SymbolBack(t, post);
  }

  /** No token begins with a blank or a dash. */
  lemma SpelledBegins(t: Lexeme, w: string)
    requires Spells(t, w)
    ensures w != [] && !IsBlank(w[0]) && w[0] != '-' && !t.kind.Eof?
  {
    hide IsKeyword;
    if t.kind.Kw? {
      KeywordCapital(t.text);
      UpperOfCase(w, t.text);
    }
  }

  // ----- blanks and comments

  /** From two dashes to the end of the line. */
  predicate CommentLine(s: string) {
    |s| >= 3 && s[0] == '-' && s[1] == '-' && s[|s| - 1] == '\n' && forall i | 0 <= i < |s| - 1 :: In(Comment, s[i])
  }

  predicate CommentUpTo(s: string, n: nat) {
    0 < n <= |s| && CommentLine(s[..n])
  }

  /** Blanks and comments, as many as there are. */
  ghost predicate Layout(s: string)
    decreases |s|
  {
    s == [] || (IsBlank(s[0]) && Layout(s[1..])) || exists n: nat :: CommentUpTo(s, n) && Layout(s[n..])
  }

  lemma BlankSkipped(c: char, rest: string)
    requires IsBlank(c)
    ensures Blanks([c] + rest) == 1 + Blanks(rest)
  {
    assert ([c] + rest)[1..] == rest;
  }

  lemma CommentSkipped(s: string, rest: string)
    requires CommentLine(s)
    ensures Blanks(s + rest) == |s| + Blanks(rest)
  {
    var text, n := s + rest, |s| - 1;
    assert forall i | 0 <= i <= n :: text[i] == s[i];
    SpanIs(Comment, text, n);
    assert StartsComment(text) && !IsBlank(text[0]);
    assert text[n..] == ['\n'] + rest;
    BlankSkipped('\n', rest);
  }

  lemma {:induction false} LayoutSkipped(s: string, rest: string)
    requires Layout(s)
    ensures Blanks(s + rest) == |s| + Blanks(rest)
    decreases |s|
  {
    hide Blanks, CommentLine, IsBlank;
    if s == [] {
      assert s + rest == rest;
    } else if IsBlank(s[0]) && Layout(s[1..]) {
      assert s + rest == [s[0]] + (s[1..] + rest);
      BlankSkipped(s[0], s[1..] + rest);
      LayoutSkipped(s[1..], rest);
    } else {
      var n: nat :| CommentUpTo(s, n) && Layout(s[n..]);
      assert s + rest == s[..n] + (s[n..] + rest);
      CommentSkipped(s[..n], s[n..] + rest);
      LayoutSkipped(s[n..], rest);
    }
  }

  // ----- whole texts

  ghost predicate Begins(t: Lexeme, text: string, gap: string, w: string, rest: string) {
    text == gap + w + rest && Layout(gap) && Spells(t, w) && Follows(t, rest)
  }

  /** The text is the tokens, spelled, with blanks and comments before, between and after them wherever needed to keep
      one token from running into the next. */
  ghost predicate IsTextOf(ts: seq<Lexeme>, text: string) {
    if ts == [] then Layout(text)
    else exists gap: string, w: string, rest: string :: Begins(ts[0], text, gap, w, rest) && IsTextOf(ts[1..], rest)
  }

  lemma NoBlanksAt(s: string)
    requires s != [] && !IsBlank(s[0]) && s[0] != '-'
    ensures Blanks(s) == 0
  {
  }

  lemma LexNext(t: Lexeme, text: string, gap: string, w: string, rest: string)
    requires Begins(t, text, gap, w, rest)
    ensures Lex(text) == [t] + Lex(rest)
  {
    hide Scan, Spells, Layout, Follows, Blanks, IsBlank;
    assert text == gap + (w + rest);
    LayoutSkipped(gap, w + rest);
    SpelledBegins(t, w);
    SpelledBack(t, w, rest);
    NoBlanksAt(w + rest);
    assert text[|gap|..] == w + rest && (w + rest)[|w|..] == rest;
  }

  lemma LexLayout(s: string)
    requires Layout(s)
    ensures Lex(s) == []
  {
    LayoutSkipped(s, []);
    assert s + [] == s && Blanks([]) == 0;
    hide Blanks, Layout;
    assert s[|s|..] == [];
  }

  /** Lexing reads every text that writes tokens: keywords in any case, other tokens as they are spelled, whatever
      blanks and comments stand between them. */
  lemma {:induction false} LexWritten(ts: seq<Lexeme>, text: string)
    requires IsTextOf(ts, text)
    ensures Lex(text) == ts
    decreases |ts|
  {
    hide Lex, Begins;
    if ts == [] {
      LexLayout(text);
    } else {
      var gap: string, w: string, rest: string :| Begins(ts[0], text, gap, w, rest) && IsTextOf(ts[1..], rest);
      LexNext(ts[0], text, gap, w, rest);
      LexWritten(ts[1..], rest);
      assert [ts[0]] + ts[1..] == ts;
    }
  }
}
