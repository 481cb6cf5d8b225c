/** The lexer object (src/sql/lexer.cpp): a position in the text with its line and column, and one token that
    may be put back. */
module Lexers {
  import opened Decimal
  import opened WhereSyntax
  import opened LexerSpec
  import opened LexerLaws

  /** A token and where its first character stands. */
  datatype Token = Token(lex: Lexeme, line: nat, col: nat)

  /** The token that starts at or after pos. */
  function TokenFrom(src: string, pos: nat): Token
    requires pos <= |src|
  {
    var start := pos + Blanks(src[pos..]);
    Token(Scan(src[start..]).lex, LineAt(src, start), ColAt(src, start))
  }

  /** Where that token ends. */
  function EndFrom(src: string, pos: nat): (end: nat)
    requires pos <= |src|
    ensures pos <= end <= |src|
  {
    var start := pos + Blanks(src[pos..]);
    ScanProgress(src[start..]);
    start + Scan(src[start..]).len
  }

  /** Each token read moves on, unless the text has ended or stands at a NUL. */
  lemma ReadingMovesOn(src: string, pos: nat)
    requires pos <= |src|
    ensures EndFrom(src, pos) > pos || (TokenFrom(src, pos).lex == Lexeme(Eof, []) && (pos == |src| || src[pos] == NUL))
  {
    ScanProgress(src[pos + Blanks(src[pos..])..]);
  }

  lemma Located(src: string, at: nat)
    requires at <= |src|
    ensures var start := at + Blanks(src[at..]);
      && start <= |src|
      && TokenFrom(src, at) == Token(Scan(src[start..]).lex, LineAt(src, start), ColAt(src, start))
      && EndFrom(src, at) == start + Scan(src[start..]).len
  {
    hide Scan, LineAt, ColAt, Blanks;
  }

  lemma BlanksUnfold(s: string)
    ensures Blanks(s) ==
              if s != [] && IsBlank(s[0]) then 1 + Blanks(s[1..])
              else if StartsComment(s) then Span(Comment, s) + Blanks(s[Span(Comment, s)..])
              else 0
  {
  }

  class Lexer {
    const src: string
    var pos: nat
    var line: nat
    var col: nat
    var hasPutback: bool
    var putback: Token

    /** The line and column are those of the position. */
    predicate Valid()
      reads this`pos, this`line, this`col
    {
      pos <= |src| && line == LineAt(src, pos) && col == ColAt(src, pos)
    }

    constructor (src: string)
      ensures this.src == src && Valid() && pos == 0 && !hasPutback
    {
      this.src := src;
      pos, line, col, hasPutback := 0, 1, 1, false;
      putback := Token(Lexeme(Eof, []), 1, 1);
    }

    function Peek(): (c: char)
      requires Valid()
      reads this`pos, this`line, this`col
      ensures c == NUL <== pos == |src|
      ensures pos < |src| ==> c == src[pos]
    {
      if pos >= |src| then NUL else src[pos]
    }

    method Get() returns (c: char)
      requires Valid()
      modifies this`pos, this`line, this`col
      ensures Valid() && c == old(Peek())
      ensures pos == if old(pos) == |src| then old(pos) else old(pos) + 1
    {
      if pos >= |src| { return NUL; }
      c := src[pos];
      pos := pos + 1;
      if c == '\n' {
        line := line + 1;
        col := 1;
      } else {
        col := col + 1;
      }
    }

    /** Collects a run of characters of class k. */
    method Run(k: Class) returns (text: string)
      requires Valid() && !In(k, NUL)
      modifies this`pos, this`line, this`col
      ensures Valid()
      ensures var n := Span(k, src[old(pos)..]); pos == old(pos) + n && text == src[old(pos)..][..n]
    {
      hide LineAt, ColAt, In;
      ghost var at, s := pos, src[pos..];
      text := [];
      while In(k, Peek())
        invariant Valid() && pos == at + |text| && text == s[..|text|]
        invariant forall i | 0 <= i < |text| :: In(k, s[i])
        decreases |src| - pos
      {
        var c := Get();
        text := text + [c];
      }
      SpanIs(k, s, |text|);
    }

    predicate NextIs(c: char)
      requires Valid()
      reads this`pos, this`line, this`col
    {
      pos + 1 < |src| && src[pos + 1] == c
    }

    method SkipBlanks()
      requires Valid()
      modifies this`pos, this`line, this`col
      ensures Valid() && pos == old(pos) + Blanks(src[old(pos)..])
    {
      hide Blanks, LineAt, ColAt;
      while true
        invariant Valid() && old(pos) <= pos
        invariant old(pos) + Blanks(src[old(pos)..]) == pos + Blanks(src[pos..])
        decreases |src| - pos
      {
        ghost var at, s := pos, src[pos..];
        BlanksUnfold(s);
        var c := Peek();
        if c == ' ' || c == '\t' || c == '\r' || c == '\n' {
          var _ := Get();
          assert s[1..] == src[pos..];
          continue;
        }
        if c == '-' && NextIs('-') {
          CommentIsLong(s);
          var _ := Run(Comment);
          assert s[pos - at..] == src[pos..];
          continue;
        }
        break;
      }
    }

    method Putback(t: Token)
      modifies this`hasPutback, this`putback
      ensures hasPutback && putback == t
    {
      hasPutback, putback := true, t;
    }

    /** Takes n characters as a token of kind k. */
    method Take(k: TokKind, n: nat, l: nat, c: nat) returns (t: Token)
      requires Valid() && 1 <= n <= 2 && pos + n <= |src|
      modifies this`pos, this`line, this`col
      ensures Valid() && pos == old(pos) + n
      ensures t == Token(Lexeme(k, src[old(pos)..][..n]), l, c)
    {
      ghost var s := src[pos..];
      var x := Get();
      var text := [x];
      if n == 2 {
        x := Get();
        text := text + [x];
      }
      assert text == s[..n];
      t := Token(Lexeme(k, text), l, c);
    }

    method QuotedString(l: nat, c: nat) returns (t: Token)
      requires Valid() && pos < |src|
      modifies this`pos, this`line, this`col
      ensures Valid()
      ensures var r := ScanString(src[old(pos)..]); t == Token(r.lex, l, c) && pos == old(pos) + r.len
    {
      hide LineAt, ColAt;
      ghost var at, s := pos, src[pos + 1..];
      var x := Get();
      var text := [];
      x := Get();
      while x != NUL && x != '"'
        invariant Valid() && x == (if |text| < |s| then s[|text|] else NUL)
        invariant pos == at + 1 + if |text| < |s| then |text| + 1 else |text|
        invariant |text| <= |s| && text == s[..|text|] && forall i | 0 <= i < |text| :: In(Quoted, text[i])
        decreases |s| - |text|
      {
        text := text + [x];
        x := Get();
      }
      StringIs(src[at..], text);
      t := Token(Lexeme(StrTok, text), l, c);
    }

    /** A run of digits and '.', '-', ':' is a timestamp if it holds '-' and '.'; otherwise the lexer goes
        back to where it was and takes the digits alone. */
    method NumberOrStamp() returns (t: Token)
      requires Valid()
      modifies this`pos, this`line, this`col
      ensures Valid()
      ensures var r := ScanNumber(src[old(pos)..]);
        t == Token(r.lex, old(line), old(col)) && pos == old(pos) + r.len
    {
      var save, l, c := pos, line, col;
      var text := Run(Stamp);
      if '-' in text && '.' in text {
        return Token(Lexeme(Ident, text), l, c);
      }
      pos, line, col := save, l, c;
      var num := Run(Digits);
      t := Token(Lexeme(Number, num), l, c);
    }

    method Word(l: nat, c: nat) returns (t: Token)
      requires Valid()
      modifies this`pos, this`line, this`col
      ensures Valid()
      ensures var r := ScanWord(src[old(pos)..]); t == Token(r.lex, l, c) && pos == old(pos) + r.len
      ensures forall k | IsKeyword(k) && CaseOf(src[old(pos)..pos], k) :: t == Token(Keyword(k), l, c)
    {
      hide IsKeyword, CaseOf, LineAt, ColAt;
      var id := Run(WordPart);
      forall k | IsKeyword(k) && CaseOf(id, k)
        ensures Upper(id) == k
      {
        KeywordCapital(k);
        UpperOfCase(id, k);
      }
      assert src[old(pos)..pos] == id;
      var up := Upper(id);
      if IsKeyword(up) {
        return Token(Lexeme(Kw, up), l, c);
      }
      t := Token(Lexeme(Ident, id), l, c);
    }

    method SymbolToken(l: nat, c: nat) returns (t: Token)
      requires Valid() && pos < |src|
      modifies this`pos, this`line, this`col
      ensures Valid()
      ensures var r := ScanSymbol(src[old(pos)..]); t == Token(r.lex, l, c) && pos == old(pos) + r.len
    {
      var ch := Peek();
      if ch == '*' { t := Take(Star, 1, l, c); }
      else if ch == ',' { t := Take(Comma, 1, l, c); }
      else if ch == '(' { t := Take(LParen, 1, l, c); }
      else if ch == ')' { t := Take(RParen, 1, l, c); }
      else if ch == ';' { t := Take(Semicolon, 1, l, c); }
      else if ch == '=' && NextIs('=') { t := Take(Eq, 2, l, c); }
      else if ch == '!' && NextIs('=') { t := Take(Ne, 2, l, c); }
      else if ch == '<' && NextIs('=') { t := Take(Le, 2, l, c); }
      else if ch == '>' && NextIs('=') { t := Take(Ge, 2, l, c); }
      else if ch == '<' { t := Take(Lt, 1, l, c); }
      else if ch == '>' { t := Take(Gt, 1, l, c); }
      else if ch == '=' { t := Take(Eq, 1, l, c); }
      else { t := Take(Eof, 1, l, c); }
    }

    /** The token at the position, by its first character. */
    method TokenHere() returns (t: Token)
      requires Valid()
      modifies this`pos, this`line, this`col
      ensures Valid()
      ensures var r := Scan(src[old(pos)..]); t == Token(r.lex, old(line), old(col)) && pos == old(pos) + r.len
    {
      hide LineAt, ColAt, Span, ScanString, ScanNumber, ScanWord, ScanSymbol;
      var l, c, ch := line, col, Peek();
      ghost var s := src[pos..];
      assert s == [] ==> ch == NUL;
      assert s != [] ==> s[0] == ch;
      if ch == NUL {
        t := Token(Lexeme(Eof, []), l, c);
      } else if ch == '"' {
        t := QuotedString(l, c);
      } else if IsDigit(ch) {
        t := NumberOrStamp();
      } else if IsLetter(ch) || ch == '_' {
        t := Word(l, c);
      } else {
        t := SymbolToken(l, c);
      }
    }

    /** The token put back, if there is one; otherwise the next token of the text, placed at its first
        character. */
    method Next() returns (t: Token)
      requires Valid()
      modifies this`pos, this`line, this`col, this`hasPutback
      ensures Valid() && !hasPutback
      ensures old(hasPutback) ==> t == putback && pos == old(pos)
      ensures !old(hasPutback) ==> t == TokenFrom(src, old(pos)) && pos == EndFrom(src, old(pos))
    {
      if hasPutback {
        hasPutback := false;
        return putback;
      }
      hide LineAt, ColAt, LineStart, Blanks, Scan, TokenFrom, EndFrom;
      ghost var at := pos;
      SkipBlanks();
      ghost var start, l, c := pos, line, col;
      assert start <= |src| && l == LineAt(src, start) && c == ColAt(src, start);
      t := TokenHere();
      ghost var s := Scan(src[start..]);
      assert t == Token(s.lex, l, c) && pos == start + s.len;
      hide *;
      Located(src, at);
    }
  }

  /** Reads a whole text, token by token, until the lexer says the end. A text that writes tokens, in whatever case,
      with whatever blanks and comments, is read as these. */
  method Tokens(text: string) returns (ts: seq<Lexeme>)
    ensures ts == Lex(text)
    ensures forall us | IsTextOf(us, text) :: ts == us
  {
    hide Lex, Scan, Blanks, LineAt, ColAt, TokenFrom, EndFrom;
    var lexer := new Lexer(text);
    ts := [];
    var t := lexer.Next();
    assert text[0..] == text;
    LexUnfold(text, 0);
    while !t.lex.kind.Eof?
      invariant lexer.src == text && lexer.Valid() && !lexer.hasPutback
      invariant Lex(text) == ts + (if t.lex.kind.Eof? then [] else [t.lex] + Lex(text[lexer.pos..]))
      decreases |text| - lexer.pos, if t.lex.kind.Eof? then 0 else 1
    {
      ts := ts + [t.lex];
      ghost var at := lexer.pos;
      LexUnfold(text, at);
      ReadingMovesOn(text, at);
      t := lexer.Next();
    }
    forall us | IsTextOf(us, text)
      ensures ts == us
    {
      LexWritten(us, text);
    }
  }

  lemma LexUnfold(text: string, pos: nat)
    requires pos <= |text|
    ensures var t := TokenFrom(text, pos).lex;
      Lex(text[pos..]) == if t.kind.Eof? then [] else [t] + Lex(text[EndFrom(text, pos)..])
  {
    hide Scan, Blanks, LineAt, ColAt;
    var s := text[pos..];
    var rest := s[Blanks(s)..];
    assert rest == text[pos + Blanks(s)..];
    ScanProgress(rest);
    assert TokenFrom(text, pos).lex == Scan(rest).lex && EndFrom(text, pos) == pos + Blanks(s) + Scan(rest).len;
    hide *;
    LexIs(s);
    assert rest[Scan(rest).len..] == text[EndFrom(text, pos)..];
  }

  lemma LexIs(s: string)
    ensures var rest := s[Blanks(s)..];
      && Scan(rest).len <= |rest|
      && Lex(s) == if Scan(rest).lex.kind.Eof? then [] else [Scan(rest).lex] + Lex(rest[Scan(rest).len..])
  {
    hide Scan, Blanks;
    ScanProgress(s[Blanks(s)..]);
  }

  /** A string token: the text up to the closing quote. */
  lemma StringIs(s: string, text: string)
    requires |text| < |s| && s[1..][..|text|] == text && AllIn(Quoted, text)
    requires |text| + 1 < |s| ==> !In(Quoted, s[|text| + 1])
    ensures ScanString(s) == Scanned(Lexeme(StrTok, text), if |text| + 1 < |s| then |text| + 2 else |text| + 1)
  {
    var rest := s[1..];
    assert forall i | 0 <= i < |text| :: rest[i] == text[i];
    SpanIs(Quoted, rest, |text|);
    assert s[1..|text| + 1] == text;
  }
}
