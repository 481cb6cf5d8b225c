/** From the text of a WHERE clause to its array of nodes: lexer and parser together. */
module WhereText {
  import opened WhereSyntax
  import opened WhereParser
  import opened LexerSpec
  import opened LexerLaws
  import L = Lexers

  predicate LiteralWrites(l: Literal) {
    l.StrLit? ==> AllIn(Quoted, l.s)
  }

  /** Names are names, and strings hold neither quote nor NUL. */
  predicate PredWrites(p: Pred) {
    IsName(p.col) &&
    match p
    case Compare(_, _, ColumnRef(c)) => IsName(c)
    case Compare(_, _, Const(l)) => LiteralWrites(l)
    case Between(_, a, b) => LiteralWrites(a) && LiteralWrites(b)
    case Like(_, pat) => AllIn(Quoted, pat)
  }

  predicate Writes(e: Expr) {
    match e
    case Test(p) => PredWrites(p)
    case Paren(x) => Writes(x)
    case And(l, r) => Writes(l) && Writes(r)
    case Or(l, r) => Writes(l) && Writes(r)
  }

  predicate AllWellFormed(ts: seq<Lexeme>) {
    forall i | 0 <= i < |ts| :: WellFormed(ts[i])
  }

  lemma KeywordsUsed()
    ensures forall k | k in {"NULL", "BETWEEN", "AND", "OR", "LIKE", "WHERE"} :: WellFormed(Keyword(k))
  {
  }

  lemma LiteralWellFormed(l: Literal)
    requires LiteralWrites(l)
    ensures WellFormed(PrintLiteral(l))
  {
    KeywordsUsed();
    hide IsKeyword;
  }

  lemma PredWellFormed(p: Pred)
    requires PredWrites(p)
    ensures AllWellFormed(PrintPred(p))
  {
    hide IsKeyword, IsName, LiteralWrites, PrintLiteral;
    KeywordsUsed();
    match p
    case Compare(_, op, ColumnRef(c)) =>
    case Compare(_, op, Const(l)) => LiteralWellFormed(l);
    case Between(_, a, b) => LiteralWellFormed(a); LiteralWellFormed(b);
    case Like(_, pat) =>
  }

  lemma {:induction false} PrintWellFormed(e: Expr)
    requires Writes(e)
    ensures AllWellFormed(Print(e))
  {
    KeywordsUsed();
    hide IsKeyword, IsName, PrintPred, PredWrites;
    match e
    case Test(p) => PredWellFormed(p);
    case Paren(x) => PrintWellFormed(x);
    case And(l, r) => PrintWellFormed(l); PrintWellFormed(r);
    case Or(l, r) => PrintWellFormed(l); PrintWellFormed(r);
  }

  /** A clause as text, every token after the first behind a space. */
  function ClauseText(e: Expr): string {
    Spaced([Keyword("WHERE")] + Print(e))
  }

  lemma ClauseLexes(e: Expr)
    requires Writes(e)
    ensures Lex(ClauseText(e)) == [Keyword("WHERE")] + Print(e)
  {
    PrintWellFormed(e);
    KeywordsUsed();
    hide Print, WellFormed;
    LexPrinted([Keyword("WHERE")] + Print(e));
  }

  lemma ClauseParses(e: Expr)
    requires IsOr(e)
    ensures ReadOr([Keyword("WHERE")] + Print(e), 1) == Parsed(e, 1 + |Print(e)|)
  {
    var ts := [Keyword("WHERE")] + Print(e);
    hide Print, IsOr, ReadOr;
    assert ts[1..] == Print(e);
    assert Reads(ts, 1, Print(e));
    OrBack(ts, 1, e);
  }

  /** Lexes and parses a text that should start with WHERE: the clause printed with single spaces, or written in any
      other way, with keywords in any case and blanks and comments anywhere. */
  method ReadClause(text: string) returns (ok: bool, w: seq<WhereNode>, root: int)
    ensures forall e | IsOr(e) && Writes(e) && text == ClauseText(e) :: ok && w == Flatten(e, 0) && root == |w| - 1
    ensures forall e | IsOr(e) && IsTextOf([Keyword("WHERE")] + Print(e), text) ::
              ok && w == Flatten(e, 0) && root == |w| - 1
  {
    hide ReadOr, Print, Lex, ClauseText, Flatten, IsOr, Writes;
    var ts := L.Tokens(text);
    var p := new Parser(ts);
    ok := p.ParseWhere();
    w, root := p.nodes, p.root;
    forall e | IsOr(e) && Writes(e) && text == ClauseText(e)
      ensures ok && w == Flatten(e, 0) && root == |w| - 1
    {
      ClauseLexes(e);
      ClauseParses(e);
    }
    forall e | IsOr(e) && IsTextOf([Keyword("WHERE")] + Print(e), text)
      ensures ok && w == Flatten(e, 0) && root == |w| - 1
    {
      ClauseParses(e);
    }
  }
}
