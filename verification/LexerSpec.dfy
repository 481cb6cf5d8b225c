/** What the lexer makes of a text (src/sql/lexer.cpp:32-161): blanks and comments, then one token. */
module LexerSpec {
  import opened Decimal
  import opened WhereSyntax

  const NUL: char := 0 as char

  /** Runs of characters the lexer collects in a loop. */
  datatype Class = Digits | Stamp | WordPart | Comment | Quoted

  predicate IsLetter(c: char) {
    'A' <= c <= 'Z' || 'a' <= c <= 'z'
  }

  predicate In(k: Class, c: char) {
    match k
    case Digits => IsDigit(c)
    case Stamp => IsDigit(c) || c == '.' || c == '-' || c == ':'
    case WordPart => IsLetter(c) || IsDigit(c) || c == '_' || c == '.'
    case Comment => c != NUL && c != '\n'
    case Quoted => c != NUL && c != '"'
  }

  /** The length of the longest run of class k at the start. */
  function Span(k: Class, s: string): (n: nat)
    ensures n <= |s| && (forall i | 0 <= i < n :: In(k, s[i])) && (n < |s| ==> !In(k, s[n]))
  {
    if s != [] && In(k, s[0]) then 1 + Span(k, s[1..]) else 0
  }

  lemma {:induction false} SpanIs(k: Class, s: string, n: nat)
    requires n <= |s| && (forall i | 0 <= i < n :: In(k, s[i])) && (n < |s| ==> !In(k, s[n]))
    ensures Span(k, s) == n
    decreases n
  {
    if n > 0 {
      assert forall i | 0 <= i < n - 1 :: s[1..][i] == s[i + 1];
      SpanIs(k, s[1..], n - 1);
    }
  }

  predicate IsBlank(c: char) {
    c == ' ' || c == '\t' || c == '\r' || c == '\n'
  }

  predicate StartsComment(s: string) {
    |s| >= 2 && s[0] == '-' && s[1] == '-'
  }

  lemma CommentIsLong(s: string)
    requires StartsComment(s)
    ensures Span(Comment, s) >= 2
  {
    assert s[1..][0] == '-' && Span(Comment, s[1..]) >= 1;
  }

  /** How much of the text is blanks and comments before the next token. */
  function Blanks(s: string): (n: nat)
    ensures n <= |s|
    decreases |s|
  {
    if s != [] && IsBlank(s[0]) then 1 + Blanks(s[1..])
    else if StartsComment(s) then
      CommentIsLong(s);
      Span(Comment, s) + Blanks(s[Span(Comment, s)..])
    else 0
  }

  function UpperChar(c: char): char {
    if 'a' <= c <= 'z' then (c as int - 32) as char else c
  }

  function Upper(s: string): (t: string)
    ensures |t| == |s| && forall i | 0 <= i < |s| :: t[i] == UpperChar(s[i])
  {
    seq(|s|, i requires 0 <= i < |s| => UpperChar(s[i]))
  }

  predicate IsStatementWord(s: string) {
    s in {"CREATE", "DATABASE", "DROP", "USE", "TABLE", "INSERT", "UPDATE", "DELETE", "SELECT", "REVERT", "GRANT", "LOGIN"}
  }

  predicate IsTypeWord(s: string) {
    s in {"INT", "STRING", "NOT", "NULL", "INDEXED", "DEFAULT", "SUM", "COUNT", "AVG", "PASSWORD", "USER", "GROUP"}
  }

  predicate IsClauseWord(s: string) {
    s in {"INTO", "VALUE", "VALUES", "SET", "WHERE", "FROM", "AS", "BETWEEN", "AND", "OR", "LIKE", "TO", "ON"}
  }

  predicate IsKeyword(s: string) {
    IsStatementWord(s) || IsTypeWord(s) || IsClauseWord(s)
  }

  /** A token and how many characters it took. */
  datatype Scanned = Scanned(lex: Lexeme, len: nat)

  /** The operators and punctuation, the two-character ones first. */
  function Symbol(s: string): TokKind
    requires s != []
  {
    var pair := |s| >= 2 && s[1] == '=';
    match s[0]
    case '*' => Star
    case ',' => Comma
    case '(' => LParen
    case ')' => RParen
    case ';' => Semicolon
    case '=' => Eq
    case '!' => if pair then Ne else Eof
    case '<' => if pair then Le else Lt
    case '>' => if pair then Ge else Gt
    case _ => Eof
  }

  predicate TakesTwo(s: string) {
    |s| >= 2 && s[1] == '=' && s[0] in "=!<>"
  }

  function ScanSymbol(s: string): (r: Scanned)
    requires s != []
  {
    var n := if TakesTwo(s) then 2 else 1;
    Scanned(Lexeme(Symbol(s), s[..n]), n)
  }

  /** From the character after the quote: up to the closing quote, or a NUL, or the end. */
  function ScanString(s: string): Scanned
    requires s != []
  {
    var n := Span(Quoted, s[1..]);
    Scanned(Lexeme(StrTok, s[1..n + 1]), if n + 1 < |s| then n + 2 else n + 1)
  }

  predicate IsTimestamp(s: string) {
    '-' in s && '.' in s
  }

  /** A timestamp if the run holds both '-' and '.'; otherwise the lexer goes back and takes only digits. */
  function ScanNumber(s: string): Scanned {
    var n := Span(Stamp, s);
    if IsTimestamp(s[..n]) then Scanned(Lexeme(Ident, s[..n]), n)
    else Scanned(Lexeme(Number, s[..Span(Digits, s)]), Span(Digits, s))
  }

  function ScanWord(s: string): Scanned {
    var n := Span(WordPart, s);
    if IsKeyword(Upper(s[..n])) then Scanned(Keyword(Upper(s[..n])), n) else Scanned(Lexeme(Ident, s[..n]), n)
  }

  /** The token at the start of a text that starts with no blank. */
  function Scan(s: string): Scanned {
    if s == [] || s[0] == NUL then Scanned(Lexeme(Eof, []), 0)
    else if s[0] == '"' then ScanString(s)
    else if IsDigit(s[0]) then ScanNumber(s)
    else if IsLetter(s[0]) || s[0] == '_' then ScanWord(s)
    else ScanSymbol(s)
  }

  /** Every token takes at least a character, except the one at the end of the text or at a NUL. */
  lemma ScanProgress(s: string)
    ensures Scan(s).len <= |s|
    ensures Scan(s).len == 0 <==> s == [] || s[0] == NUL
    ensures Scan(s).len == 0 ==> Scan(s).lex == Lexeme(Eof, [])
  {
    if s != [] {
      if IsDigit(s[0]) {
        assert Span(Stamp, s) > 0 && Span(Digits, s) > 0;
      } else if IsLetter(s[0]) || s[0] == '_' {
        assert Span(WordPart, s) > 0;
      }
    }
  }

  /** The tokens of a text, up to the end, a NUL, or a character that starts no token. */
  function Lex(s: string): seq<Lexeme>
    decreases |s|
  {
    var rest := s[Blanks(s)..];
    var t := Scan(rest);
    ScanProgress(rest);
    if t.lex.kind.Eof? then [] else [t.lex] + Lex(rest[t.len..])
  }

  // ----- places

  /** One more than the number of newlines before pos. */
  function LineAt(s: string, pos: nat): (l: nat)
    requires pos <= |s|
  {
    if pos == 0 then 1 else LineAt(s, pos - 1) + if s[pos - 1] == '\n' then 1 else 0
  }

  /** Where the line of pos starts: after the last newline before it. */
  function LineStart(s: string, pos: nat): (b: nat)
    requires pos <= |s|
    ensures b <= pos && (b == 0 || s[b - 1] == '\n') && '\n' !in s[b..pos]
  {
    if pos == 0 || s[pos - 1] == '\n' then pos
    else
      var b := LineStart(s, pos - 1);
      assert s[b..pos] == s[b..pos - 1] + [s[pos - 1]];
      b
  }

  function ColAt(s: string, pos: nat): nat
    requires pos <= |s|
  {
    pos - LineStart(s, pos) + 1
  }

  /** A line's number is how many newlines stand before it, from 1; a column is counted from the newline before. */
  lemma {:induction false} PlaceIs(s: string, pos: nat)
    requires pos <= |s|
    ensures LineAt(s, pos) == 1 + |set i | 0 <= i < pos && s[i] == '\n'|
    ensures var c := ColAt(s, pos);
      && 1 <= c <= pos + 1 && '\n' !in s[pos + 1 - c..pos] && (c <= pos ==> s[pos - c] == '\n')
  {
    hide LineStart;
    if pos > 0 {
      PlaceIs(s, pos - 1);
      var before := set i | 0 <= i < pos - 1 && s[i] == '\n';
      assert (set i | 0 <= i < pos && s[i] == '\n') == before + if s[pos - 1] == '\n' then {pos - 1} else {};
    }
  }

  // ----- printing tokens

  predicate AllIn(k: Class, s: string) {
    forall i | 0 <= i < |s| :: In(k, s[i])
  }

  /** A name: a word that is no keyword. */
  predicate IsName(s: string) {
    s != [] && (IsLetter(s[0]) || s[0] == '_') && AllIn(WordPart, s) && !IsKeyword(Upper(s))
  }

  predicate IsStamp(s: string) {
    s != [] && IsDigit(s[0]) && AllIn(Stamp, s) && IsTimestamp(s)
  }

  /** The tokens that can be written down. */
  predicate WellFormed(t: Lexeme) {
    match t.kind
    case Ident => IsName(t.text) || IsStamp(t.text)
    case Number => t.text != [] && AllDigits(t.text)
    case StrTok => AllIn(Quoted, t.text)
    case Kw => IsKeyword(t.text)
    case Eq => t.text == "=" || t.text == "=="
    case Ne => t.text == "!="
    case Lt => t.text == "<"
    case Gt => t.text == ">"
    case Le => t.text == "<="
    case Ge => t.text == ">="
    case Star => t.text == "*"
    case Comma => t.text == ","
    case LParen => t.text == "("
    case RParen => t.text == ")"
    case Semicolon => t.text == ";"
    case Eof => false
  }

  function Spell(t: Lexeme): string {
    if t.kind.StrTok? then ['"'] + t.text + ['"'] else t.text
  }

  /** The tokens with single spaces between them. */
  function Spaced(ts: seq<Lexeme>): string {
    if ts == [] then [] else if |ts| == 1 then Spell(ts[0]) else Spell(ts[0]) + [' '] + Spaced(ts[1..])
  }

  /** What may follow a token in a printed text. */
  predicate EndsToken(post: string) {
    post == [] || post[0] == ' '
  }

  predicate AllCapital(s: string) {
    s != [] && forall i | 0 <= i < |s| :: 'A' <= s[i] <= 'Z'
  }

  lemma StatementWords(k: string)
    ensures IsStatementWord(k) ==> AllCapital(k)
  {
  }

  lemma TypeWords(k: string)
    ensures IsTypeWord(k) ==> AllCapital(k)
  {
  }

  lemma ClauseWords(k: string)
    ensures IsClauseWord(k) ==> AllCapital(k)
  {
  }

  lemma KeywordShape(k: string)
    requires IsKeyword(k)
    ensures k != [] && Upper(k) == k && AllIn(WordPart, k) && IsLetter(k[0])
  {
    hide IsStatementWord, IsTypeWord, IsClauseWord;
    StatementWords(k);
    TypeWords(k);
    ClauseWords(k);
  }

  // ----- lexing undoes printing

  lemma RunBack(k: Class, s: string, post: string)
    requires AllIn(k, s) && (post == [] || !In(k, post[0]))
    ensures Span(k, s + post) == |s| && (s + post)[..|s|] == s
  {
    SpanIs(k, s + post, |s|);
  }

  /** A number with no part of a timestamp behind it is none: the lexer goes back. */
  lemma NumberBack(s: string, post: string)
    requires s != [] && AllDigits(s) && (post == [] || !In(Stamp, post[0]))
    ensures Scan(s + post) == Scanned(Lexeme(Number, s), |s|)
  {
    assert AllIn(Stamp, s) && AllIn(Digits, s);
    RunBack(Stamp, s, post);
    RunBack(Digits, s, post);
    assert (s + post)[0] == s[0];
    assert '-' !in s;
  }

  lemma StampBack(s: string, post: string)
    requires IsStamp(s) && (post == [] || !In(Stamp, post[0]))
    ensures Scan(s + post) == Scanned(Lexeme(Ident, s), |s|)
  {
    RunBack(Stamp, s, post);
    assert (s + post)[0] == s[0];
  }

  lemma WordBack(s: string, post: string)
    requires s != [] && (IsLetter(s[0]) || s[0] == '_') && AllIn(WordPart, s) && (post == [] || !In(WordPart, post[0]))
    ensures Scan(s + post) == Scanned(if IsKeyword(Upper(s)) then Keyword(Upper(s)) else Lexeme(Ident, s), |s|)
  {
    hide IsKeyword;
    RunBack(WordPart, s, post);
    assert (s + post)[0] == s[0];
  }

  lemma StringBack(s: string, post: string)
    requires AllIn(Quoted, s)
    ensures Scan(['"'] + s + ['"'] + post) == Scanned(Lexeme(StrTok, s), |s| + 2)
  {
    var text := ['"'] + s + ['"'] + post;
    assert text[1..] == s + ['"'] + post;
    SpanIs(Quoted, text[1..], |s|);
    assert text[1..|s| + 1] == s;
  }

  lemma SymbolBack(t: Lexeme, post: string)
    requires WellFormed(t) && t.kind !in {Ident, Number, StrTok, Kw}
    requires post == [] || |t.text| == 2 || t.kind in {Star, Comma, LParen, RParen, Semicolon} || post[0] != '='
    ensures Scan(t.text + post) == Scanned(t, |t.text|)
  {
    hide IsKeyword;
    var s := t.text + post;
    assert s[0] == t.text[0] && 1 <= |t.text| <= 2;
    if |t.text| == 2 {
      assert s[1] == '=' && s[..2] == t.text;
    } else {
      assert |s| >= 2 ==> s[1] == post[0];
      assert s[..1] == t.text;
    }
  }

  /** A printed token, and what follows it, scans as that token and stops at its end. */
  lemma TokenBack(t: Lexeme, post: string)
    requires WellFormed(t) && EndsToken(post)
    ensures Scan(Spell(t) + post) == Scanned(t, |Spell(t)|)
  {
    hide IsKeyword;
    match t.kind
    case Ident =>
      if IsName(t.text) { WordBack(t.text, post); } else { StampBack(t.text, post); }
    case Number =>
      NumberBack(t.text, post);
    case StrTok =>
      StringBack(t.text, post);
    case Kw =>
      KeywordShape(t.text);
      WordBack(t.text, post);
    case _ =>
      SymbolBack(t, post);
  }

  /** No token is printed with a blank or a comment in front. */
  lemma NoBlanksBefore(t: Lexeme, post: string)
    requires WellFormed(t)
    ensures Spell(t) != [] && Blanks(Spell(t) + post) == 0 && Blanks([' '] + (Spell(t) + post)) == 1
  {
    hide IsKeyword;
    if t.kind.Kw? { KeywordShape(t.text); }
    var s := Spell(t) + post;
    assert s[0] == Spell(t)[0] && !IsBlank(s[0]) && s[0] != '-';
    assert ([' '] + s)[1..] == s;
  }

  /** The next printed token, at the start of the text or after a space. */
  lemma LexStep(t: Lexeme, post: string)
    requires WellFormed(t) && EndsToken(post)
    ensures Lex(Spell(t) + post) == [t] + Lex(post) == Lex([' '] + (Spell(t) + post))
  {
    var s := Spell(t) + post;
    var spaced := [' '] + s;
    NoBlanksBefore(t, post);
    TokenBack(t, post);
    assert s[0..] == s && spaced[1..] == s && s[|Spell(t)|..] == post;
    hide Scan, Spell, Blanks, WellFormed;
    assert !t.kind.Eof? by { NotEof(t); }
  }

  lemma NotEof(t: Lexeme)
    requires WellFormed(t)
    ensures !t.kind.Eof?
  {
  }

  lemma {:induction false} LexSpaced(ts: seq<Lexeme>)
    requires ts != [] && forall i | 0 <= i < |ts| :: WellFormed(ts[i])
    ensures Lex(Spaced(ts)) == ts == Lex([' '] + Spaced(ts))
    decreases |ts|
  {
    hide WellFormed, Spell, Lex, Scan;
    if |ts| == 1 {
      LexStep(ts[0], []);
      LexNothing();
      assert Spell(ts[0]) + [] == Spell(ts[0]);
    } else {
      var rest := [' '] + Spaced(ts[1..]);
      LexSpaced(ts[1..]);
      LexStep(ts[0], rest);
      assert Spaced(ts) == Spell(ts[0]) + rest;
      assert ts == [ts[0]] + ts[1..];
    }
  }

  lemma LexNothing()
    ensures Lex([]) == []
  {
  }

  /** Lexing undoes printing: tokens printed with single spaces are read back, kind and text. */
  lemma LexPrinted(ts: seq<Lexeme>)
    requires forall i | 0 <= i < |ts| :: WellFormed(ts[i])
    ensures Lex(Spaced(ts)) == ts
  {
    if ts == [] { LexNothing(); } else { LexSpaced(ts); }
  }
}
