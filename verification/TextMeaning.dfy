/** Clauses as they are typed: the characters of each kind of predicate, and what the rows selected by a typed clause
    are (src/sql/lexer.cpp, src/sql/parser.cpp:104-230, src/sql/where_eval.cpp). */
module TextMeanings {
  import opened Decimal
  import opened Values
  import opened TableSpec
  import opened WhereSyntax
  import opened WhereParser
  import opened LexerSpec
  import opened WhereText
  import opened WhereEval
  import opened Denotations
  import opened Selection

  // ----- how clauses are typed

  function Sign(op: CmpOp): string {
    match op
    case OpEq => "=" case OpNe => "!=" case OpLt => "<" case OpGt => ">" case OpLe => "<=" case OpGe => ">="
  }

  function LiteralText(l: Literal): string {
    match l
    case NullLit => "NULL"
    case IntLit(n) => Numeral(n)
    case StrLit(s) => "\"" + s + "\""
  }

  /** The clause without WHERE. */
  function Typed(e: Expr): string {
    Spaced(Print(e))
  }

  lemma SpacedOne(t: Lexeme)
    ensures Spaced([t]) == Spell(t)
  {
  }

  lemma SpacedMore(t: Lexeme, ts: seq<Lexeme>)
    requires ts != []
    ensures Spaced([t] + ts) == Spell(t) + " " + Spaced(ts)
  {
    assert ([t] + ts)[1..] == ts;
  }

  lemma Regroup(a: string, b: string, c: string)
    ensures a + (b + c) == (a + b) + c
  {
  }

  lemma {:induction false} SpacedJoin(a: seq<Lexeme>, t: Lexeme, b: seq<Lexeme>)
    requires a != [] && b != []
    ensures Spaced(a + [t] + b) == Spaced(a) + (" " + (Spell(t) + (" " + Spaced(b))))
    decreases |a|
  {
    hide *;
    if |a| == 1 {
      assert a == [a[0]] && a + [t] + b == [a[0]] + ([t] + b);
      SpacedOne(a[0]);
      SpacedMore(a[0], [t] + b);
      SpacedMore(t, b);
      Regroup(Spell(a[0]), " ", Spaced([t] + b));
      Regroup(Spell(t), " ", Spaced(b));
    } else {
      var rest := a[1..];
      assert a == [a[0]] + rest && a + [t] + b == [a[0]] + (rest + [t] + b);
      SpacedMore(a[0], rest);
      SpacedMore(a[0], rest + [t] + b);
      SpacedJoin(rest, t, b);
      Regroup(Spell(a[0]) + " ", Spaced(rest), " " + (Spell(t) + (" " + Spaced(b))));
    }
  }

  lemma LiteralTyped(l: Literal)
    ensures Spell(PrintLiteral(l)) == LiteralText(l)
  {
    if l.StrLit? { assert ['"'] + l.s + ['"'] == "\"" + l.s + "\""; }
  }

  lemma ThreeTyped(a: Lexeme, b: Lexeme, c: Lexeme)
    ensures Spaced([a, b, c]) == Spell(a) + " " + (Spell(b) + " " + Spell(c))
  {
    hide *;
    assert [a, b, c] == [a] + ([b] + [c]);
    SpacedMore(a, [b] + [c]);
    SpacedMore(b, [c]);
    SpacedOne(c);
  }

  lemma FiveTyped(a: Lexeme, b: Lexeme, c: Lexeme, d: Lexeme, e: Lexeme)
    ensures Spaced([a, b, c, d, e]) == Spell(a) + " " + (Spell(b) + " " + (Spell(c) + " " + (Spell(d) + " " + Spell(e))))
  {
    hide *;
    assert [a, b, c, d, e] == [a] + ([b] + [c, d, e]);
    SpacedMore(a, [b] + [c, d, e]);
    SpacedMore(b, [c, d, e]);
    ThreeTyped(c, d, e);
  }

  /** The characters of each kind of predicate. */
  lemma PredicatesTyped(c: string, op: CmpOp, l: Literal, a: Literal, b: Literal, d: string)
    ensures Typed(Test(Compare(c, op, Const(l)))) == c + " " + (Sign(op) + " " + LiteralText(l))
    ensures Typed(Test(Compare(c, op, ColumnRef(d)))) == c + " " + (Sign(op) + " " + d)
    ensures Typed(Test(Between(c, a, b))) == c + " " + ("BETWEEN" + " " + (LiteralText(a) + " " + ("AND" + " " + LiteralText(b))))
    ensures Typed(Test(Like(c, d))) == c + " " + ("LIKE" + " " + ("\"" + d + "\""))
  {
    LiteralTyped(l);
    LiteralTyped(a);
    LiteralTyped(b);
    LiteralTyped(StrLit(d));
    ThreeTyped(Lexeme(Ident, c), Lexeme(OpKind(op), OpText(OpKind(op))), PrintLiteral(l));
    ThreeTyped(Lexeme(Ident, c), Lexeme(OpKind(op), OpText(OpKind(op))), Lexeme(Ident, d));
    FiveTyped(Lexeme(Ident, c), Keyword("BETWEEN"), PrintLiteral(a), Keyword("AND"), PrintLiteral(b));
    ThreeTyped(Lexeme(Ident, c), Keyword("LIKE"), PrintLiteral(StrLit(d)));
    hide Spaced, LiteralText;
  }

  /** AND, OR and parentheses are typed around their operands. */
  lemma OperatorsTyped(l: Expr, r: Expr)
    ensures Typed(And(l, r)) == Typed(l) + (" " + ("AND" + (" " + Typed(r))))
    ensures Typed(Or(l, r)) == Typed(l) + (" " + ("OR" + (" " + Typed(r))))
    ensures Typed(Paren(l)) == "(" + " " + (Typed(l) + (" " + ")"))
  {
    SpacedJoin(Print(l), Keyword("AND"), Print(r));
    SpacedJoin(Print(l), Keyword("OR"), Print(r));
    var open, close := Lexeme(LParen, "("), Lexeme(RParen, ")");
    assert [open] + Print(l) + [close] == [open] + (Print(l) + [close]);
    SpacedMore(open, Print(l) + [close]);
    SpacedEnd(Print(l), close);
    hide Spaced, Print;
  }

  lemma {:induction false} SpacedEnd(a: seq<Lexeme>, t: Lexeme)
    requires a != []
    ensures Spaced(a + [t]) == Spaced(a) + (" " + Spell(t))
    decreases |a|
  {
    hide *;
    if |a| == 1 {
      assert a == [a[0]];
      SpacedOne(a[0]);
      SpacedMore(a[0], [t]);
      SpacedOne(t);
      Regroup(Spell(a[0]), " ", Spell(t));
    } else {
      var rest := a[1..];
      assert a == [a[0]] + rest && a + [t] == [a[0]] + (rest + [t]);
      SpacedMore(a[0], rest);
      SpacedMore(a[0], rest + [t]);
      SpacedEnd(rest, t);
      Regroup(Spell(a[0]) + " ", Spaced(rest), " " + Spell(t));
    }
  }

  lemma ClauseTyped(e: Expr)
    ensures ClauseText(e) == "WHERE" + " " + Typed(e)
  {
    SpacedMore(Keyword("WHERE"), Print(e));
    hide Spaced, Print;
  }

  // ----- what typed clauses select

  /** The text is read as the clause e. */
  ghost predicate ReadAs(text: string, e: Expr) {
    Lex(text) == [Keyword("WHERE")] + Print(e) && ReadOr(Lex(text), 1) == Parsed(e, |Lex(text)|)
  }

  lemma TypedIsRead(e: Expr)
    requires IsOr(e) && Writes(e)
    ensures ReadAs("WHERE" + " " + Typed(e), e)
  {
    hide *;
    ClauseTyped(e);
    ClauseLexes(e);
    ClauseParses(e);
    ReadsAll(e);
  }

  lemma ReadsAll(e: Expr)
    requires Lex(ClauseText(e)) == [Keyword("WHERE")] + Print(e)
    requires ReadOr([Keyword("WHERE")] + Print(e), 1) == Parsed(e, 1 + |Print(e)|)
    ensures ReadAs(ClauseText(e), e)
  {
    hide Lex, ReadOr, Print, ClauseText;
  }

  lemma NumberClause(c: string, op: CmpOp, n: nat)
    requires IsName(c) && n <= INT64_MAX
    ensures IsOr(Test(Compare(c, op, Const(IntLit(n))))) && Writes(Test(Compare(c, op, Const(IntLit(n)))))
  {
    hide IsName;
    var p := Compare(c, op, Const(IntLit(n)));
    assert PredOk(p) && PredWrites(p);
    assert IsPrimary(Test(p)) && IsAnd(Test(p));
  }

  lemma BetweenClause(c: string, a: nat, b: nat)
    requires IsName(c) && a <= INT64_MAX && b <= INT64_MAX
    ensures IsOr(Test(Between(c, IntLit(a), IntLit(b)))) && Writes(Test(Between(c, IntLit(a), IntLit(b))))
  {
    hide IsName;
    var p := Between(c, IntLit(a), IntLit(b));
    assert PredOk(p) && PredWrites(p);
    assert IsPrimary(Test(p)) && IsAnd(Test(p));
  }

  /** From the characters to the rows, for a column of numbers: `c > n` selects the greater ones, `c < n` the smaller
      ones and NULL, `c BETWEEN n AND m` those from n to m. */
  lemma NumbersTyped(env: Env, rows: Rows, c: string, i: nat, n: nat, m: nat)
    requires (forall r | r in rows :: ValidRow(env.cols, rows[r])) && Names(env.cols, c, i) && env.cols[i].ty.IntCol?
    requires IsName(c) && n <= INT64_MAX && m <= INT64_MAX
    ensures Wide(env, rows)
    ensures var e := Test(Compare(c, OpGt, Const(IntLit(n))));
      && ReadAs("WHERE" + " " + (c + " " + (">" + " " + Numeral(n))), e)
      && Selected(env, rows, Some(e)) == set r | r in rows && rows[r][i].Int? && rows[r][i].n > n
    ensures var e := Test(Compare(c, OpLt, Const(IntLit(n))));
      && ReadAs("WHERE" + " " + (c + " " + ("<" + " " + Numeral(n))), e)
      && Selected(env, rows, Some(e)) == set r | r in rows && (rows[r][i].Null? || (rows[r][i].Int? && rows[r][i].n < n))
    ensures var e := Test(Between(c, IntLit(n), IntLit(m)));
      && ReadAs("WHERE" + " " + (c + " " + ("BETWEEN" + " " + (Numeral(n) + " " + ("AND" + " " + Numeral(m))))), e)
      && Selected(env, rows, Some(e)) == set r | r in rows && rows[r][i].Int? && n <= rows[r][i].n <= m
  {
    hide IsName, ReadAs, Typed, IsOr, Writes, Selected, ValidRow, Names, Numeral;
    NumbersSelected(env, rows, c, i, n, m);
    PredicatesTyped(c, OpGt, IntLit(n), IntLit(n), IntLit(m), c);
    PredicatesTyped(c, OpLt, IntLit(n), IntLit(n), IntLit(m), c);
    NumberClause(c, OpGt, n);
    NumberClause(c, OpLt, n);
    BetweenClause(c, n, m);
    TypedIsRead(Test(Compare(c, OpGt, Const(IntLit(n)))));
    TypedIsRead(Test(Compare(c, OpLt, Const(IntLit(n)))));
    TypedIsRead(Test(Between(c, IntLit(n), IntLit(m))));
  }

  // ----- AND binds tighter than OR

  /** Predicates and parenthesised clauses. */
  predicate Primaries(es: seq<Expr>) {
    es != [] && forall i | 0 <= i < |es| :: IsPrimary(es[i]) && Writes(es[i])
  }

  function AndOf(es: seq<Expr>): Expr
    requires es != []
  {
    var n := |es| - 1;
    if n == 0 then es[0] else And(AndOf(es[..n]), es[n])
  }

  function AndText(es: seq<Expr>): string
    requires es != []
  {
    var n := |es| - 1;
    if n == 0 then Typed(es[0]) else AndText(es[..n]) + (" " + ("AND" + (" " + Typed(es[n]))))
  }

  lemma {:induction false} AndsTyped(es: seq<Expr>)
    requires Primaries(es)
    ensures IsAnd(AndOf(es)) && Writes(AndOf(es)) && Typed(AndOf(es)) == AndText(es)
    decreases |es|
  {
    hide Typed, IsPrimary;
    var n := |es| - 1;
    if n > 0 {
      AndsTyped(es[..n]);
      OperatorsTyped(AndOf(es[..n]), es[n]);
    }
  }

  function OrOf(groups: seq<seq<Expr>>): Expr
    requires groups != [] && forall i | 0 <= i < |groups| :: groups[i] != []
  {
    var n := |groups| - 1;
    if n == 0 then AndOf(groups[0]) else Or(OrOf(groups[..n]), AndOf(groups[n]))
  }

  function OrText(groups: seq<seq<Expr>>): string
    requires groups != [] && forall i | 0 <= i < |groups| :: groups[i] != []
  {
    var n := |groups| - 1;
    if n == 0 then AndText(groups[0]) else OrText(groups[..n]) + (" " + ("OR" + (" " + AndText(groups[n]))))
  }

  predicate Groups(groups: seq<seq<Expr>>) {
    groups != [] && forall i | 0 <= i < |groups| :: Primaries(groups[i])
  }

  lemma {:induction false} OrsTyped(groups: seq<seq<Expr>>)
    requires Groups(groups)
    ensures IsOr(OrOf(groups)) && Writes(OrOf(groups)) && Typed(OrOf(groups)) == OrText(groups)
    decreases |groups|
  {
    hide Typed, IsAnd, AndOf, AndText;
    var n := |groups| - 1;
    AndsTyped(groups[n]);
    if n > 0 {
      OrsTyped(groups[..n]);
      OperatorsTyped(OrOf(groups[..n]), AndOf(groups[n]));
    }
  }

  ghost predicate AllOf(cols: seq<ColumnDef>, data: seq<Datum>, like: LikeFn, es: seq<Expr>)
    requires |data| == |cols|
  {
    forall i | 0 <= i < |es| :: Says(cols, data, like, es[i])
  }

  ghost predicate AllDecided(cols: seq<ColumnDef>, data: seq<Datum>, like: LikeFn, es: seq<Expr>)
    requires |data| == |cols|
  {
    forall i | 0 <= i < |es| :: Decided(cols, data, like, es[i])
  }

  lemma SayTogether(cols: seq<ColumnDef>, data: seq<Datum>, like: LikeFn, l: Expr, r: Expr)
    requires |data| == |cols|
    ensures Says(cols, data, like, And(l, r)) <==> Says(cols, data, like, l) && Says(cols, data, like, r)
    ensures Says(cols, data, like, Or(l, r)) <==> Says(cols, data, like, l) || Says(cols, data, like, r)
    ensures Decided(cols, data, like, And(l, r)) <==> Decided(cols, data, like, l) && Decided(cols, data, like, r)
    ensures Decided(cols, data, like, Or(l, r)) <==> Decided(cols, data, like, l) && Decided(cols, data, like, r)
  {
  }

  lemma {:induction false} AndsSay(cols: seq<ColumnDef>, data: seq<Datum>, like: LikeFn, es: seq<Expr>)
    requires |data| == |cols| && es != []
    ensures Says(cols, data, like, AndOf(es)) <==> AllOf(cols, data, like, es)
    ensures Decided(cols, data, like, AndOf(es)) <==> AllDecided(cols, data, like, es)
    decreases |es|
  {
    hide Says, Decided;
    var n := |es| - 1;
    if n > 0 {
      AndsSay(cols, data, like, es[..n]);
      SayTogether(cols, data, like, AndOf(es[..n]), es[n]);
      assert forall i | 0 <= i < n :: es[..n][i] == es[i];
    }
  }

  /** All of some group. */
  ghost predicate SomeGroup(cols: seq<ColumnDef>, data: seq<Datum>, like: LikeFn, groups: seq<seq<Expr>>)
    requires |data| == |cols|
  {
    exists i :: 0 <= i < |groups| && AllOf(cols, data, like, groups[i])
  }

  ghost predicate EachDecided(cols: seq<ColumnDef>, data: seq<Datum>, like: LikeFn, groups: seq<seq<Expr>>)
    requires |data| == |cols|
  {
    forall i | 0 <= i < |groups| :: AllDecided(cols, data, like, groups[i])
  }

  lemma GroupsSplit(cols: seq<ColumnDef>, data: seq<Datum>, like: LikeFn, groups: seq<seq<Expr>>)
    requires |data| == |cols| && groups != []
    ensures var n := |groups| - 1;
      && (SomeGroup(cols, data, like, groups) <==> SomeGroup(cols, data, like, groups[..n]) || AllOf(cols, data, like, groups[n]))
      && (EachDecided(cols, data, like, groups) <==>
            EachDecided(cols, data, like, groups[..n]) && AllDecided(cols, data, like, groups[n]))
  {
    hide AllOf, AllDecided;
    var n := |groups| - 1;
    assert forall i | 0 <= i < n :: groups[..n][i] == groups[i];
    if i :| 0 <= i < n && AllOf(cols, data, like, groups[..n][i]) { assert AllOf(cols, data, like, groups[i]); }
  }

  lemma {:induction false} OrsSay(cols: seq<ColumnDef>, data: seq<Datum>, like: LikeFn, groups: seq<seq<Expr>>)
    requires |data| == |cols| && groups != [] && forall i | 0 <= i < |groups| :: groups[i] != []
    ensures Says(cols, data, like, OrOf(groups)) <==> SomeGroup(cols, data, like, groups)
    ensures Decided(cols, data, like, OrOf(groups)) <==> EachDecided(cols, data, like, groups)
    decreases |groups|
  {
    hide Says, Decided, AndOf, AllOf, AllDecided;
    var n := |groups| - 1;
    AndsSay(cols, data, like, groups[n]);
    GroupsSplit(cols, data, like, groups);
    if n > 0 {
      OrsSay(cols, data, like, groups[..n]);
      SayTogether(cols, data, like, OrOf(groups[..n]), AndOf(groups[n]));
    }
  }

  /** Typed without parentheses around them, groups joined by AND and separated by OR select, of the rows on which every
      predicate can be decided, those that satisfy all of some group. */
  lemma GroupsTyped(env: Env, rows: Rows, groups: seq<seq<Expr>>)
    requires Wide(env, rows) && Groups(groups)
    ensures ReadAs("WHERE" + " " + OrText(groups), OrOf(groups))
    ensures forall r | r in rows ::
              r in Selected(env, rows, Some(OrOf(groups))) <==>
                var data := Data(env.pool, rows[r]);
                EachDecided(env.cols, data, env.like, groups) && SomeGroup(env.cols, data, env.like, groups)
  {
    var e := OrOf(groups);
    OrsTyped(groups);
    TypedIsRead(e);
    SelectedIsMeant(env, rows, Some(e));
    hide OrOf, OrText, ReadAs, Selected, Groups, AllOf, AllDecided, EachDecided, SomeGroup, Says, Decided, Data;
    forall r | r in rows
      ensures var data := Data(env.pool, rows[r]);
        r in Meant(env, rows, Some(e)) <==>
          EachDecided(env.cols, data, env.like, groups) && SomeGroup(env.cols, data, env.like, groups)
    {
      OrsSay(env.cols, Data(env.pool, rows[r]), env.like, groups);
    }
  }

  /** A conjunction selects the rows that both operands select, a disjunction of clauses that raise no error those
      that either selects. */
  lemma OperatorsSelect(env: Env, rows: Rows, l: Expr, r: Expr)
    requires Wide(env, rows)
    ensures Selected(env, rows, Some(And(l, r))) == Selected(env, rows, Some(l)) * Selected(env, rows, Some(r))
    ensures NoErrors(env, rows, Some(l)) && NoErrors(env, rows, Some(r)) ==>
              Selected(env, rows, Some(Or(l, r))) == Selected(env, rows, Some(l)) + Selected(env, rows, Some(r))
  {
    SelectedIsMeant(env, rows, Some(And(l, r)));
    SelectedIsMeant(env, rows, Some(Or(l, r)));
    SelectedIsMeant(env, rows, Some(l));
    SelectedIsMeant(env, rows, Some(r));
    forall x | x in rows
      ensures NoError(env, rows[x], l) <==> Decided(env.cols, Data(env.pool, rows[x]), env.like, l)
      ensures NoError(env, rows[x], r) <==> Decided(env.cols, Data(env.pool, rows[x]), env.like, r)
    {
      ExprMeans(env, rows[x], l);
      ExprMeans(env, rows[x], r);
    }
    hide Selected, NoError, Data, PredTrue, PredRaises;
  }
}
