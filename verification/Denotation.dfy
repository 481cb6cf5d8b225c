/** What WHERE clauses and literals say about the contents of a row (src/sql/where_eval.cpp): a reading that knows
    numbers and texts, no ids, no signs of comparisons and no errors passed along, and its agreement with
    evaluation. */
module Denotations {
  import opened Values
  import opened StringPools
  import opened TableSpec
  import opened WhereSyntax
  import opened WhereEval
  import opened Query
  import opened Selection

  // ----- names and literals

  /** i is the first column with the name. */
  predicate Names(cols: seq<ColumnDef>, name: string, i: nat) {
    i < |cols| && cols[i].name == name && forall j | 0 <= j < i :: cols[j].name != name
  }

  predicate Unknown(cols: seq<ColumnDef>, name: string) {
    forall j | 0 <= j < |cols| :: cols[j].name != name
  }

  lemma NamesIs(cols: seq<ColumnDef>, name: string)
    ensures ColumnIndex(cols, name) < 0 <==> Unknown(cols, name)
    ensures forall i: nat :: Names(cols, name, i) <==> ColumnIndex(cols, name) == i
  {
    hide ColumnIndex;
    var c := ColumnIndex(cols, name);
    assert c >= 0 ==> Names(cols, name, c);
  }

  /** The value is the literal, its string held by the pool. */
  predicate Denotes(pool: seq<string>, v: Value, l: Literal) {
    match l
    case NullLit => v == Null
    case IntLit(n) => v == Int(n)
    case StrLit(s) => v.Str? && 1 <= v.id < |pool| && pool[v.id] == s
  }

  lemma LitValueDenotes(pool: seq<string>, l: Literal)
    requires PoolOk(pool) && PoolWith(pool, l) == pool
    ensures Denotes(pool, LitValue(pool, l), l)
  {
    if l.StrLit? { InternKeepsPool(pool, l.s); }
  }

  function LiteralDatum(l: Literal): Datum {
    match l
    case NullLit => Missing
    case IntLit(n) => Integer(n)
    case StrLit(s) => Text(s)
  }

  lemma LitCmpIsOrder(pool: seq<string>, v: Value, l: Literal)
    ensures LitCmp(pool, v, l) < 0 <==> Before(Content(pool, v), LiteralDatum(l))
    ensures LitCmp(pool, v, l) > 0 <==> Before(LiteralDatum(l), Content(pool, v))
    ensures LitCmp(pool, v, l) == 0 <==> Content(pool, v) == LiteralDatum(l)
  {
    if v.Str? && l.StrLit? {
      var s := Resolve(pool, v.id);
      StrTrichotomy(s, l.s);
      StrTrichotomy(s, s);
      StrLessIsBefore(s, l.s);
      StrLessIsBefore(l.s, s);
      hide StrLess, TextBefore;
    }
  }

  // ----- predicates

  /** The comparison holds of two contents. */
  ghost predicate Stands(x: Datum, op: CmpOp, y: Datum) {
    match op
    case OpEq => x == y
    case OpNe => x != y
    case OpLt => Before(x, y)
    case OpGt => Before(y, x)
    case OpLe => x == y || Before(x, y)
    case OpGe => x == y || Before(y, x)
  }

  function Data(pool: seq<string>, row: Row): (data: seq<Datum>)
    ensures |data| == |row| && forall i | 0 <= i < |row| :: data[i] == Content(pool, row[i])
  {
    seq(|row|, i requires 0 <= i < |row| => Content(pool, row[i]))
  }

  ghost predicate PredTrue(cols: seq<ColumnDef>, data: seq<Datum>, like: LikeFn, p: Pred)
    requires |data| == |cols|
  {
    match p
    case Compare(c, op, ColumnRef(d)) => exists i: nat, j: nat :: Names(cols, c, i) && Names(cols, d, j) && Stands(data[i], op, data[j])
    case Compare(c, op, Const(l)) => exists i: nat :: Names(cols, c, i) && Stands(data[i], op, LiteralDatum(l))
    case Between(c, a, b) =>
      exists i: nat :: Names(cols, c, i) && Stands(LiteralDatum(a), OpLe, data[i]) && Stands(data[i], OpLe, LiteralDatum(b))
    case Like(c, pat) => exists i: nat :: Names(cols, c, i) && data[i].Text? && like(pat, data[i].s) == Match
  }

  /** The predicate cannot be decided: a column is unknown, LIKE meets a number or NULL, or its pattern is none. */
  ghost predicate PredRaises(cols: seq<ColumnDef>, data: seq<Datum>, like: LikeFn, p: Pred, e: EvalError)
    requires |data| == |cols|
  {
    match p
    case Compare(c, _, rhs) =>
      if Unknown(cols, c) then e == UnknownColumn(c)
      else rhs.ColumnRef? && Unknown(cols, rhs.name) && e == UnknownColumn(rhs.name)
    case Between(c, _, _) => Unknown(cols, c) && e == UnknownInBetween
    case Like(c, pat) =>
      if exists i: nat :: Names(cols, c, i) && data[i].Text? then
        e == InvalidRegex && exists i: nat :: Names(cols, c, i) && data[i].Text? && like(pat, data[i].s) == BadRegex
      else e == LikeNeedsString
  }

  lemma CompareColumnsMeans(env: Env, row: Row, c: string, op: CmpOp, d: string)
    requires |row| == |env.cols|
    ensures var p := Compare(c, op, ColumnRef(d));
      var data := Data(env.pool, row);
      && (EvalPred(env, row, p) == Holds(true) <==> PredTrue(env.cols, data, env.like, p))
      && (forall e :: EvalPred(env, row, p) == Raises(e) <==> PredRaises(env.cols, data, env.like, p, e))
  {
    NamesIs(env.cols, c);
    NamesIs(env.cols, d);
    var i, j := ColumnIndex(env.cols, c), ColumnIndex(env.cols, d);
    if i >= 0 && j >= 0 {
      CmpIsOrder(env.pool, row[i], row[j]);
      assert Names(env.cols, c, i) && Names(env.cols, d, j);
    }
    hide ColumnIndex, Cmp, Before, Content, Names, Unknown;
  }

  lemma CompareLiteralMeans(env: Env, row: Row, c: string, op: CmpOp, l: Literal)
    requires |row| == |env.cols|
    ensures var p := Compare(c, op, Const(l));
      var data := Data(env.pool, row);
      && (EvalPred(env, row, p) == Holds(true) <==> PredTrue(env.cols, data, env.like, p))
      && (forall e :: EvalPred(env, row, p) == Raises(e) <==> PredRaises(env.cols, data, env.like, p, e))
  {
    NamesIs(env.cols, c);
    var i := ColumnIndex(env.cols, c);
    if i >= 0 {
      LitCmpIsOrder(env.pool, row[i], l);
      assert Names(env.cols, c, i);
    }
    hide ColumnIndex, LitCmp, Before, Content, LiteralDatum, Names, Unknown;
  }

  lemma BetweenMeans(env: Env, row: Row, c: string, a: Literal, b: Literal)
    requires |row| == |env.cols|
    ensures var p := Between(c, a, b);
      var data := Data(env.pool, row);
      && (EvalPred(env, row, p) == Holds(true) <==> PredTrue(env.cols, data, env.like, p))
      && (forall e :: EvalPred(env, row, p) == Raises(e) <==> PredRaises(env.cols, data, env.like, p, e))
  {
    NamesIs(env.cols, c);
    var i := ColumnIndex(env.cols, c);
    if i >= 0 {
      LitCmpIsOrder(env.pool, row[i], a);
      LitCmpIsOrder(env.pool, row[i], b);
      assert Names(env.cols, c, i);
    }
    hide ColumnIndex, LitCmp, Before, Content, LiteralDatum, Names, Unknown;
  }

  lemma LikeMeans(env: Env, row: Row, c: string, pat: string)
    requires |row| == |env.cols|
    ensures var p := Like(c, pat);
      var data := Data(env.pool, row);
      && (EvalPred(env, row, p) == Holds(true) <==> PredTrue(env.cols, data, env.like, p))
      && (forall e :: EvalPred(env, row, p) == Raises(e) <==> PredRaises(env.cols, data, env.like, p, e))
  {
    NamesIs(env.cols, c);
    var i := ColumnIndex(env.cols, c);
    assert i >= 0 ==> Names(env.cols, c, i);
    hide ColumnIndex, Names, Unknown;
  }

  /** A predicate evaluates to true exactly when it is true of the row's contents, and raises an error exactly when
      they cannot decide it. */
  lemma PredMeans(env: Env, row: Row, p: Pred)
    requires |row| == |env.cols|
    ensures var data := Data(env.pool, row);
      && (EvalPred(env, row, p) == Holds(true) <==> PredTrue(env.cols, data, env.like, p))
      && (forall e :: EvalPred(env, row, p) == Raises(e) <==> PredRaises(env.cols, data, env.like, p, e))
  {
    hide *;
    match p
    case Compare(c, op, ColumnRef(d)) => CompareColumnsMeans(env, row, c, op, d);
    case Compare(c, op, Const(l)) => CompareLiteralMeans(env, row, c, op, l);
    case Between(c, a, b) => BetweenMeans(env, row, c, a, b);
    case Like(c, pat) => LikeMeans(env, row, c, pat);
  }

  // ----- the same, spelled out for numbers and texts

  /** A number in the column, compared with a number. */
  lemma NumberTests(env: Env, row: Row, c: string, i: nat, m: int, n: nat)
    requires |row| == |env.cols| && Names(env.cols, c, i) && row[i] == Int(m)
    ensures EvalPred(env, row, Compare(c, OpEq, Const(IntLit(n)))) == Holds(m == n)
    ensures EvalPred(env, row, Compare(c, OpNe, Const(IntLit(n)))) == Holds(m != n)
    ensures EvalPred(env, row, Compare(c, OpLt, Const(IntLit(n)))) == Holds(m < n)
    ensures EvalPred(env, row, Compare(c, OpGt, Const(IntLit(n)))) == Holds(m > n)
    ensures EvalPred(env, row, Compare(c, OpLe, Const(IntLit(n)))) == Holds(m <= n)
    ensures EvalPred(env, row, Compare(c, OpGe, Const(IntLit(n)))) == Holds(m >= n)
    ensures forall k: nat :: EvalPred(env, row, Between(c, IntLit(n), IntLit(k))) == Holds(n <= m <= k)
  {
    NamesIs(env.cols, c);
    hide ColumnIndex;
  }

  /** Two columns with numbers. */
  lemma ColumnTests(env: Env, row: Row, c: string, i: nat, m: int, d: string, j: nat, n: int)
    requires |row| == |env.cols| && Names(env.cols, c, i) && row[i] == Int(m) && Names(env.cols, d, j) && row[j] == Int(n)
    ensures EvalPred(env, row, Compare(c, OpEq, ColumnRef(d))) == Holds(m == n)
    ensures EvalPred(env, row, Compare(c, OpNe, ColumnRef(d))) == Holds(m != n)
    ensures EvalPred(env, row, Compare(c, OpLt, ColumnRef(d))) == Holds(m < n)
    ensures EvalPred(env, row, Compare(c, OpGt, ColumnRef(d))) == Holds(m > n)
    ensures EvalPred(env, row, Compare(c, OpLe, ColumnRef(d))) == Holds(m <= n)
    ensures EvalPred(env, row, Compare(c, OpGe, ColumnRef(d))) == Holds(m >= n)
  {
    NamesIs(env.cols, c);
    NamesIs(env.cols, d);
    hide ColumnIndex;
  }

  /** A text in the column, compared with texts and matched against a pattern. */
  lemma TextTests(env: Env, row: Row, c: string, i: nat, s: string, t: string)
    requires |row| == |env.cols| && Names(env.cols, c, i) && row[i].Str? && row[i].id < |env.pool| && env.pool[row[i].id] == s
    ensures EvalPred(env, row, Compare(c, OpEq, Const(StrLit(t)))) == Holds(s == t)
    ensures EvalPred(env, row, Compare(c, OpNe, Const(StrLit(t)))) == Holds(s != t)
    ensures EvalPred(env, row, Compare(c, OpLt, Const(StrLit(t)))) == Holds(TextBefore(s, t))
    ensures EvalPred(env, row, Compare(c, OpGt, Const(StrLit(t)))) == Holds(TextBefore(t, s))
    ensures EvalPred(env, row, Compare(c, OpLe, Const(StrLit(t)))) == Holds(s == t || TextBefore(s, t))
    ensures EvalPred(env, row, Compare(c, OpGe, Const(StrLit(t)))) == Holds(s == t || TextBefore(t, s))
    ensures EvalPred(env, row, Like(c, t)) == Holds(true) <==> env.like(t, s) == Match
    ensures EvalPred(env, row, Like(c, t)) == Holds(false) <==> env.like(t, s) == NoMatch
  {
    NamesIs(env.cols, c);
    LitCmpIsOrder(env.pool, row[i], StrLit(t));
    hide ColumnIndex, TextBefore, LitCmp;
  }

  // ----- expressions and clauses

  ghost predicate Says(cols: seq<ColumnDef>, data: seq<Datum>, like: LikeFn, e: Expr)
    requires |data| == |cols|
  {
    match e
    case Test(p) => PredTrue(cols, data, like, p)
    case Paren(x) => Says(cols, data, like, x)
    case And(l, r) => Says(cols, data, like, l) && Says(cols, data, like, r)
    case Or(l, r) => Says(cols, data, like, l) || Says(cols, data, like, r)
  }

  /** Every predicate of the expression can be decided. */
  ghost predicate Decided(cols: seq<ColumnDef>, data: seq<Datum>, like: LikeFn, e: Expr)
    requires |data| == |cols|
  {
    match e
    case Test(p) => forall err :: !PredRaises(cols, data, like, p, err)
    case Paren(x) => Decided(cols, data, like, x)
    case And(l, r) => Decided(cols, data, like, l) && Decided(cols, data, like, r)
    case Or(l, r) => Decided(cols, data, like, l) && Decided(cols, data, like, r)
  }

  /** The error of the leftmost predicate that cannot be decided. */
  ghost predicate Fails(cols: seq<ColumnDef>, data: seq<Datum>, like: LikeFn, e: Expr, err: EvalError)
    requires |data| == |cols|
  {
    match e
    case Test(p) => PredRaises(cols, data, like, p, err)
    case Paren(x) => Fails(cols, data, like, x, err)
    case And(l, r) => Fails(cols, data, like, l, err) || (Decided(cols, data, like, l) && Fails(cols, data, like, r, err))
    case Or(l, r) => Fails(cols, data, like, l, err) || (Decided(cols, data, like, l) && Fails(cols, data, like, r, err))
  }

  /** Evaluation on a row of ids yields what the expression says about the row's contents, if that can be decided,
      and otherwise false and the leftmost error. */
  lemma {:induction false} ExprMeans(env: Env, row: Row, e: Expr)
    requires |row| == |env.cols|
    ensures var data := Data(env.pool, row);
      var v := EvalTree(env, row, e, None);
      && (NoError(env, row, e) <==> Decided(env.cols, data, env.like, e))
      && (v.1 == None <==> Decided(env.cols, data, env.like, e))
      && (v.0 <==> Decided(env.cols, data, env.like, e) && Says(env.cols, data, env.like, e))
      && (forall err :: v.1 == Some(err) <==> Fails(env.cols, data, env.like, e, err))
  {
    hide EvalPred, PredTrue, PredRaises, Data;
    match e
    case Test(p) =>
      PredMeans(env, row, p);
      assert EvalPred(env, row, p).Raises? ==> EvalPred(env, row, p) == Raises(EvalPred(env, row, p).e);
    case Paren(x) => ExprMeans(env, row, x);
    case And(l, r) =>
      ExprMeans(env, row, l);
      ExprMeans(env, row, r);
    case Or(l, r) =>
      ExprMeans(env, row, l);
      ExprMeans(env, row, r);
  }

  /** There is no clause, or it can be decided and is true. */
  ghost predicate Satisfies(cols: seq<ColumnDef>, data: seq<Datum>, like: LikeFn, c: Clause)
    requires |data| == |cols|
  {
    c.Some? ==> Decided(cols, data, like, c.value) && Says(cols, data, like, c.value)
  }

  lemma ClauseMeans(env: Env, row: Row, c: Clause)
    requires |row| == |env.cols|
    ensures EvalClause(env, row, c, None).0 <==> Satisfies(env.cols, Data(env.pool, row), env.like, c)
  {
    if c.Some? { ExprMeans(env, row, c.value); }
    hide EvalTree, Says, Decided;
  }

  /** The rows whose contents satisfy the clause. */
  ghost function Meant(env: Env, rows: Rows, c: Clause): set<nat>
    requires Wide(env, rows)
  {
    set r | r in rows && Satisfies(env.cols, Data(env.pool, rows[r]), env.like, c)
  }

  /** They are the rows selected alone. */
  lemma SelectedIsMeant(env: Env, rows: Rows, c: Clause)
    requires Wide(env, rows)
    ensures Selected(env, rows, c) == Meant(env, rows, c)
  {
    hide Satisfies, EvalClause;
    forall r | r in rows
      ensures EvalClause(env, rows[r], c, None).0 <==> Satisfies(env.cols, Data(env.pool, rows[r]), env.like, c)
    {
      ClauseMeans(env, rows[r], c);
    }
  }

  // ----- the row an index finds

  /** The first conjunct that compares an indexed column with a literal for equality is true of row r. */
  ghost predicate FirstEquality(env: Env, rows: Rows, c: Clause, r: nat, k: nat, i: nat, lit: Literal)
    requires Wide(env, rows)
  {
    c.Some? && r in rows && FirstAt(env.cols, Conjuncts(c.value), k, i, lit) && i < |env.cols| &&
    Content(env.pool, rows[r][i]) == LiteralDatum(lit)
  }

  lemma AnsweredMeans(env: Env, rows: Rows, c: Clause, r: nat)
    requires Wide(env, rows)
    ensures AnsweredBy(env, rows, c, r) <==> exists k: nat, i: nat, lit :: FirstEquality(env, rows, c, r, k, i, lit)
  {
    hide LitCmp, Extract, FirstAt, Conjuncts;
    if c.Some? {
      ExtractIsFirst(env.cols, c.value);
      var es, found := Conjuncts(c.value), Extract(env.cols, c.value);
      if AnsweredBy(env, rows, c, r) {
        var (i, lit) := found.value;
        LitCmpIsOrder(env.pool, rows[r][i], lit);
        var k: nat :| FirstAt(env.cols, es, k, i, lit);
        assert FirstEquality(env, rows, c, r, k, i, lit);
      }
      forall k: nat, i: nat, lit | FirstEquality(env, rows, c, r, k, i, lit)
        ensures AnsweredBy(env, rows, c, r)
      {
        FirstIsOne(env.cols, es, found, k, i, lit);
        LitCmpIsOrder(env.pool, rows[r][i], lit);
      }
    }
  }

  /** That row alone, if there is one, and otherwise every row once. */
  ghost predicate IndexRowOrAll(env: Env, rows: Rows, c: Clause, ids: seq<nat>)
    requires Wide(env, rows)
  {
    && (forall r: nat, k: nat, i: nat, lit | FirstEquality(env, rows, c, r, k, i, lit) :: ids == [r])
    && ((forall r: nat, k: nat, i: nat, lit :: !FirstEquality(env, rows, c, r, k, i, lit)) ==>
          (forall r: nat :: r in ids <==> r in rows) && forall a, b | 0 <= a < b < |ids| :: ids[a] != ids[b])
  }

  lemma ProposedIsRowOrAll(env: Env, rows: Rows, c: Clause, ids: seq<nat>)
    requires Grounded(env, rows) && Proposed(env, rows, c, ids)
    ensures IndexRowOrAll(env, rows, c, ids)
  {
    hide AnsweredBy, FirstEquality;
    forall r: nat
      ensures AnsweredBy(env, rows, c, r) <==> exists k: nat, i: nat, lit :: FirstEquality(env, rows, c, r, k, i, lit)
    {
      AnsweredMeans(env, rows, c, r);
    }
    forall r: nat, k: nat, i: nat, lit | FirstEquality(env, rows, c, r, k, i, lit)
      ensures ids == [r]
    {
      assert AnsweredBy(env, rows, c, r);
      OneAnswer(env, rows, c, r, ids[0]);
    }
    if !Answered(env, rows, c) { ListingIs(rows, ids); }
  }

  lemma ListingIs(rows: Rows, ids: seq<nat>)
    requires Listing(rows, ids)
    ensures (forall r: nat :: r in ids <==> r in rows) && forall a, b | 0 <= a < b < |ids| :: ids[a] != ids[b]
  {
    MembersIff(ids);
    assert forall r: nat :: r in rows <==> r in rows.Keys;
  }

  /** Rows of an integer column against a number: `>` selects the greater numbers, `<` the smaller ones and NULL,
      BETWEEN those between. */
  lemma NumbersSelected(env: Env, rows: Rows, c: string, i: nat, a: nat, b: nat)
    requires (forall r | r in rows :: ValidRow(env.cols, rows[r])) && Names(env.cols, c, i) && env.cols[i].ty.IntCol?
    ensures Wide(env, rows)
    ensures Selected(env, rows, Some(Test(Compare(c, OpGt, Const(IntLit(a)))))) ==
              set r | r in rows && rows[r][i].Int? && rows[r][i].n > a
    ensures Selected(env, rows, Some(Test(Compare(c, OpLt, Const(IntLit(a)))))) ==
              set r | r in rows && (rows[r][i].Null? || (rows[r][i].Int? && rows[r][i].n < a))
    ensures Selected(env, rows, Some(Test(Between(c, IntLit(a), IntLit(b))))) ==
              set r | r in rows && rows[r][i].Int? && a <= rows[r][i].n <= b
  {
    forall r | r in rows
      ensures !rows[r][i].Str?
      ensures EvalPred(env, rows[r], Compare(c, OpGt, Const(IntLit(a)))) == Holds(rows[r][i].Int? && rows[r][i].n > a)
      ensures EvalPred(env, rows[r], Compare(c, OpLt, Const(IntLit(a)))) ==
                Holds(rows[r][i].Null? || (rows[r][i].Int? && rows[r][i].n < a))
      ensures EvalPred(env, rows[r], Between(c, IntLit(a), IntLit(b))) == Holds(rows[r][i].Int? && a <= rows[r][i].n <= b)
    {
      assert CellFault(env.cols[i], rows[r][i]) == None;
      NamesIs(env.cols, c);
      hide ColumnIndex;
    }
    hide EvalPred;
  }

  // ----- rows made of literals

  /** Place k is the last that names column i. */
  predicate LastFor(cols: seq<ColumnDef>, names: seq<string>, i: nat, k: nat) {
    k < |names| && Names(cols, names[k], i) && forall l | k < l < |names| :: !Names(cols, names[l], i)
  }

  predicate Unset(cols: seq<ColumnDef>, names: seq<string>, i: nat) {
    forall k | 0 <= k < |names| :: !Names(cols, names[k], i)
  }

  /** The new row has, in each column, the last literal given for it, and otherwise what was there before. */
  ghost predicate NewVersion(cols: seq<ColumnDef>, pool: seq<string>, names: seq<string>, lits: seq<Literal>,
                             before: Row, after: Row)
  {
    && |lits| == |names| && |after| == |before| == |cols|
    && forall i | 0 <= i < |cols| ::
         && (Unset(cols, names, i) ==> after[i] == before[i])
         && (forall k: nat | LastFor(cols, names, i, k) :: Denotes(pool, after[i], lits[k]))
  }

  /** The tuple gives every name a literal and names only columns there are. */
  predicate WellNamed(cols: seq<ColumnDef>, names: seq<string>, tup: seq<Literal>) {
    |tup| == |names| && forall k | 0 <= k < |names| :: !Unknown(cols, names[k])
  }

  /** The row has, in each column, the last literal given for it; where that is NULL or none is given, the column's
      default; and NULL where there is no default either. */
  ghost predicate TupleRow(cols: seq<ColumnDef>, pool: seq<string>, names: seq<string>, tup: seq<Literal>, row: Row) {
    && WellNamed(cols, names, tup) && |row| == |cols|
    && forall i | 0 <= i < |cols| ::
         && (forall k: nat | LastFor(cols, names, i, k) && tup[k] != NullLit :: Denotes(pool, row[i], tup[k]))
         && (Unset(cols, names, i) || (exists k: nat :: LastFor(cols, names, i, k) && tup[k] == NullLit) ==>
               row[i] == if cols[i].default.Some? then cols[i].default.value else Null)
  }
}
