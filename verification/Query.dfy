/** WHERE clauses of statements, and the equality in one that an index may answer
    (src/exec/executor.cpp:176-195). */
module Query {
  import opened TableSpec
  import opened WhereSyntax
  import opened WhereEval

  // ----- clauses

  /** A statement's WHERE clause, if it has one. */
  type Clause = Option<Expr>

  /** The nodes and the root that the parser leaves for the clause; without one the root is -1. */
  function NodesOf(c: Clause): seq<WhereNode> {
    if c.Some? then Flatten(c.value, 0) else []
  }

  function RootOf(c: Clause): int {
    |NodesOf(c)| - 1
  }

  /** `eval_where`. */
  function EvalClause(env: Env, row: Row, c: Clause, err: Err): (bool, Err)
    requires |row| == |env.cols|
  {
    if c.None? then (true, err) else EvalTree(env, row, c.value, err)
  }

  predicate ClauseNoError(env: Env, row: Row, c: Clause)
    requires |row| == |env.cols|
  {
    c.Some? ==> NoError(env, row, c.value)
  }

  predicate ClauseMeaning(env: Env, row: Row, c: Clause)
    requires |row| == |env.cols|
  {
    c.Some? ==> Meaning(env, row, c.value)
  }

  lemma ClauseEvalIsMeaning(env: Env, row: Row, c: Clause)
    requires |row| == |env.cols| && ClauseNoError(env, row, c)
    ensures EvalClause(env, row, c, None) == (ClauseMeaning(env, row, c), None)
  {
    if c.Some? { EvalTreeIsMeaning(env, row, c.value); }
  }

  lemma ClauseStable(env: Env, bigger: seq<string>, row: Row, c: Clause, err: Err)
    requires |row| == |env.cols| && env.pool <= bigger && InternedRow(env.pool, row)
    ensures EvalClause(env.(pool := bigger), row, c, err) == EvalClause(env, row, c, err)
    ensures ClauseNoError(env.(pool := bigger), row, c) == ClauseNoError(env, row, c)
    ensures ClauseMeaning(env.(pool := bigger), row, c) == ClauseMeaning(env, row, c)
  {
    if c.Some? { EvalTreeStable(env, bigger, row, c.value, err); }
  }

  // ----- the equality an index can answer

  /** An equality between an indexed column and a literal. */
  function IndexedEquality(cols: seq<ColumnDef>, p: Pred): Option<(nat, Literal)> {
    if p.Compare? && p.op.OpEq? && p.rhs.Const? then
      var ci := ColumnIndex(cols, p.col);
      if ci >= 0 && cols[ci].indexed then Some((ci, p.rhs.lit)) else None
    else None
  }

  /** `extract_index_eq` on the flat array: the first such equality that the clause implies. */
  ghost function ExtractFlat(cols: seq<ColumnDef>, w: seq<WhereNode>, idx: int): Option<(nat, Literal)>
    requires ChildrenBefore(w, 0)
    decreases if idx < 0 then 0 else idx
  {
    if idx < 0 || idx >= |w| then None
    else
      match w[idx]
      case TestNode(p) => IndexedEquality(cols, p)
      case ParenNode(c) =>
        assert HasChild(w[idx], c);
        if c < 0 then None else ExtractFlat(cols, w, c)
      case BoolNode(isAnd, l, r) =>
        assert HasChild(w[idx], l) && HasChild(w[idx], r);
        if !isAnd then None
        else
          var a := if l < 0 then None else ExtractFlat(cols, w, l);
          if a != None then a else if r < 0 then None else ExtractFlat(cols, w, r)
  }

  function Extract(cols: seq<ColumnDef>, e: Expr): Option<(nat, Literal)> {
    match e
    case Test(p) => IndexedEquality(cols, p)
    case Paren(x) => Extract(cols, x)
    case And(l, r) => if Extract(cols, l) != None then Extract(cols, l) else Extract(cols, r)
    case Or(_, _) => None
  }

  lemma ExtractAtOperator(cols: seq<ColumnDef>, w: seq<WhereNode>, idx: nat, isAnd: bool, l: nat, r: nat)
    requires ChildrenBefore(w, 0) && idx < |w| && w[idx] == BoolNode(isAnd, l, r)
    ensures ExtractFlat(cols, w, idx) ==
              if !isAnd then None
              else if ExtractFlat(cols, w, l) != None then ExtractFlat(cols, w, l) else ExtractFlat(cols, w, r)
  {
    hide ChildrenBefore;
    assert HasChild(w[idx], l) && HasChild(w[idx], r);
  }

  lemma ExtractAtParen(cols: seq<ColumnDef>, w: seq<WhereNode>, idx: nat, c: nat)
    requires ChildrenBefore(w, 0) && idx < |w| && w[idx] == ParenNode(c)
    ensures ExtractFlat(cols, w, idx) == ExtractFlat(cols, w, c)
  {
    hide ChildrenBefore;
    assert HasChild(w[idx], c);
  }

  lemma ExtractTree(cols: seq<ColumnDef>, e: Expr)
    ensures e.Paren? ==> Extract(cols, e) == Extract(cols, e.e)
    ensures e.And? ==> Extract(cols, e) == if Extract(cols, e.l) != None then Extract(cols, e.l) else Extract(cols, e.r)
    ensures e.Or? ==> Extract(cols, e) == None
  {
  }

  /** On the array of a parsed clause the search finds what it finds on the expression. */
  lemma {:induction false} ExtractFlatIsExtract(cols: seq<ColumnDef>, w: seq<WhereNode>, base: nat, e: Expr)
    requires ChildrenBefore(w, 0) && Embeds(w, base, e)
    ensures ExtractFlat(cols, w, base + |Flatten(e, base)| - 1) == Extract(cols, e)
    decreases e
  {
    hide ChildrenBefore, Embeds, IndexedEquality, Flatten;
    match e
    case Test(p) =>
      TestEmbedded(w, base, p);
    case Paren(x) => ExtractParenCase(cols, w, base, e);
    case And(l, r) => ExtractOperatorCase(cols, w, base, e);
    case Or(l, r) => ExtractOperatorCase(cols, w, base, e);
  }

  lemma {:induction false} ExtractParenCase(cols: seq<ColumnDef>, w: seq<WhereNode>, base: nat, e: Expr)
    requires ChildrenBefore(w, 0) && Embeds(w, base, e) && e.Paren?
    ensures ExtractFlat(cols, w, base + |Flatten(e, base)| - 1) == Extract(cols, e)
    decreases e, 0
  {
    hide *;
    EmbedsParen(w, base, e);
    ExtractFlatIsExtract(cols, w, base, e.e);
    ExtractAtParen(cols, w, base + |Flatten(e.e, base)|, base + |Flatten(e.e, base)| - 1);
    ExtractTree(cols, e);
  }

  lemma {:induction false} ExtractOperatorCase(cols: seq<ColumnDef>, w: seq<WhereNode>, base: nat, e: Expr)
    requires ChildrenBefore(w, 0) && Embeds(w, base, e) && (e.And? || e.Or?)
    ensures ExtractFlat(cols, w, base + |Flatten(e, base)| - 1) == Extract(cols, e)
    decreases e, 0
  {
    hide *;
    EmbedsJoin(w, base, e);
    var a := |Flatten(e.l, base)|;
    var b := |Flatten(e.r, base + a)|;
    ExtractFlatIsExtract(cols, w, base, e.l);
    ExtractFlatIsExtract(cols, w, base + a, e.r);
    ExtractAtOperator(cols, w, base + a + b, e.And?, base + a - 1, base + a + b - 1);
    ExtractTree(cols, e);
  }

  lemma TestEmbedded(w: seq<WhereNode>, base: nat, p: Pred)
    requires Embeds(w, base, Test(p))
    ensures base < |w| && w[base] == TestNode(p) && |Flatten(Test(p), base)| == 1
  {
    EmbedsOne(w, base, TestNode(p));
  }

  /** Every row on which the clause evaluates to true satisfies the extracted equality, whatever error an
      earlier row left behind. */
  lemma {:induction false} ExtractSound(env: Env, row: Row, e: Expr, err: Err)
    requires |row| == |env.cols| && Extract(env.cols, e).Some? && EvalTree(env, row, e, err).0
    ensures var (ci, lit) := Extract(env.cols, e).value;
            ci < |env.cols| && env.cols[ci].indexed && LitCmp(env.pool, row[ci], lit) == 0
  {
    hide LitCmp;
    match e
    case Test(p) =>
    case Paren(x) => ExtractSound(env, row, x, err);
    case And(l, r) =>
      if Extract(env.cols, l).Some? {
        ExtractSound(env, row, l, err);
      } else {
        ExtractSound(env, row, r, EvalTree(env, row, l, err).1);
      }
    case Or(l, r) =>
  }

  // ----- which equality it is

  /** What the clause joins by AND, in order. */
  function Conjuncts(e: Expr): seq<Expr> {
    match e
    case Paren(x) => Conjuncts(x)
    case And(l, r) => Conjuncts(l) + Conjuncts(r)
    case _ => [e]
  }

  /** e is `c = lit`, and the first column called c, column i, has an index. */
  predicate IndexedTest(cols: seq<ColumnDef>, e: Expr, i: nat, lit: Literal) {
    && e.Test? && e.p.Compare? && e.p == Compare(e.p.col, OpEq, Const(lit))
    && i < |cols| && cols[i].name == e.p.col && (forall j | 0 <= j < i :: cols[j].name != e.p.col) && cols[i].indexed
  }

  lemma IndexedTestIs(cols: seq<ColumnDef>, e: Expr, i: nat, lit: Literal)
    requires e.Test?
    ensures IndexedTest(cols, e, i, lit) <==> Extract(cols, e) == Some((i, lit))
  {
    hide ColumnIndex;
    var c := ColumnIndex(cols, e.p.col);
  }

  /** No conjunct before number k is such an equality. */
  ghost predicate NoneBefore(cols: seq<ColumnDef>, es: seq<Expr>, k: nat) {
    forall j, i: nat, lit | 0 <= j < k && j < |es| :: !IndexedTest(cols, es[j], i, lit)
  }

  lemma NoneJoin(cols: seq<ColumnDef>, a: seq<Expr>, b: seq<Expr>, k: nat)
    requires NoneBefore(cols, a, |a|) && NoneBefore(cols, b, k) && k <= |b|
    ensures NoneBefore(cols, a + b, |a| + k)
  {
    hide IndexedTest;
    forall j, i: nat, lit | 0 <= j < |a| + k
      ensures !IndexedTest(cols, (a + b)[j], i, lit)
    {
      assert (a + b)[j] == if j < |a| then a[j] else b[j - |a|];
    }
  }

  lemma NoneWithin(cols: seq<ColumnDef>, a: seq<Expr>, b: seq<Expr>, k: nat)
    requires NoneBefore(cols, a, k) && k <= |a|
    ensures NoneBefore(cols, a + b, k)
  {
    hide IndexedTest;
  }

  ghost predicate FirstAt(cols: seq<ColumnDef>, es: seq<Expr>, k: nat, i: nat, lit: Literal) {
    k < |es| && IndexedTest(cols, es[k], i, lit) && NoneBefore(cols, es, k)
  }

  ghost predicate FirstFound(cols: seq<ColumnDef>, es: seq<Expr>, found: Option<(nat, Literal)>) {
    match found
    case None => NoneBefore(cols, es, |es|)
    case Some(f) => exists k: nat :: FirstAt(cols, es, k, f.0, f.1)
  }

  lemma FirstIsOne(cols: seq<ColumnDef>, es: seq<Expr>, found: Option<(nat, Literal)>, k: nat, i: nat, lit: Literal)
    requires FirstFound(cols, es, found) && FirstAt(cols, es, k, i, lit)
    ensures found == Some((i, lit))
  {
    if found.Some? {
      var j: nat :| FirstAt(cols, es, j, found.value.0, found.value.1);
      assert j == k;
    }
  }

  lemma FirstOfTwo(cols: seq<ColumnDef>, a: seq<Expr>, b: seq<Expr>, l: Option<(nat, Literal)>, r: Option<(nat, Literal)>)
    requires FirstFound(cols, a, l) && FirstFound(cols, b, r)
    ensures FirstFound(cols, a + b, if l != None then l else r)
  {
    hide IndexedTest, NoneBefore;
    if l.Some? {
      var k: nat :| FirstAt(cols, a, k, l.value.0, l.value.1);
      NoneWithin(cols, a, b, k);
      assert FirstAt(cols, a + b, k, l.value.0, l.value.1);
    } else if r.Some? {
      var k: nat :| FirstAt(cols, b, k, r.value.0, r.value.1);
      NoneJoin(cols, a, b, k);
      assert FirstAt(cols, a + b, |a| + k, r.value.0, r.value.1);
    } else {
      NoneJoin(cols, a, b, |b|);
    }
  }

  /** The equality found is the first such conjunct, and one is found if there is one. */
  lemma {:induction false} ExtractIsFirst(cols: seq<ColumnDef>, e: Expr)
    ensures FirstFound(cols, Conjuncts(e), Extract(cols, e))
  {
    match e
    case Test(p) =>
      forall i: nat, lit
        ensures IndexedTest(cols, e, i, lit) <==> Extract(cols, e) == Some((i, lit))
      {
        IndexedTestIs(cols, e, i, lit);
      }
      hide IndexedTest, Extract;
      var found := Extract(cols, e);
      if found.Some? { assert FirstAt(cols, [e], 0, found.value.0, found.value.1); }
    case Paren(x) => ExtractIsFirst(cols, x);
    case And(l, r) =>
      hide IndexedTest, FirstFound;
      ExtractIsFirst(cols, l);
      ExtractIsFirst(cols, r);
      FirstOfTwo(cols, Conjuncts(l), Conjuncts(r), Extract(cols, l), Extract(cols, r));
    case Or(_, _) =>
  }
}
