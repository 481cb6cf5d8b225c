/** When an error on one row hides other rows (src/sql/where_eval.cpp:59-66 under the loops of
    src/exec/executor.cpp:336-341 and 377-385): an example, and exactly which clauses are safe. */
module StickyErrors {
  import opened Values
  import opened TableSpec
  import opened UpdateSpec
  import opened WhereSyntax
  import opened WhereEval
  import opened Query
  import opened Selection

  /** For a clause that is not steady some order of all rows selects nothing, although rows are selected
      alone: the one that starts with a row that raises an error. */
  lemma HidingOrder(env: Env, rows: Rows, c: Clause) returns (ids: seq<nat>)
    requires Wide(env, rows) && !Steady(env, rows, c)
    ensures Listing(rows, ids) && FilterRows(env, rows, c, ids, None).0 == [] && Selected(env, rows, c) != {}
  {
    var r :| r in rows && !ClauseNoError(env, rows[r], c);
    EvalTreeIsMeaning(env, rows[r], c.value);
    var v := EvalClause(env, rows[r], c, None);
    assert !v.0 && v.1 != None;
    ids := ListingFrom(rows, r);
    FilterUnfold(env, rows, c, ids, None);
    hide *;
    StuckFilter(env, rows, c, ids[1..], v.1);
    assert [] + FilterRows(env, rows, c, ids[1..], v.1).0 == [];
  }

  lemma ListingFrom(rows: Rows, r: nat) returns (ids: seq<nat>)
    requires r in rows
    ensures Listing(rows, ids) && ids != [] && ids[0] == r
  {
    var rest := AnyOrder(rows.Keys - {r});
    ids := [r] + rest;
    forall k | 0 <= k < |rest|
      ensures rest[k] in rows
    {
      assert rest[k] in rest;
    }
    assert r !in rest;
    ConsDistinct(rows, r, rest);
    MembersIff(ids);
    assert forall x | x in rows.Keys :: x == r || x in rest;
    assert Members(ids) == rows.Keys;
  }

  /** Visiting all rows in every order selects exactly the rows selected alone if and only if the clause is
      absent or one predicate, or no row raises an error, or no row is selected alone. */
  lemma EveryOrderSelectsIff(env: Env, rows: Rows, c: Clause)
    requires Wide(env, rows)
    ensures (forall ids | Listing(rows, ids) :: Members(FilterRows(env, rows, c, ids, None).0) == Selected(env, rows, c))
       <==> OnePredicate(c) || NoErrors(env, rows, c) || Selected(env, rows, c) == {}
  {
    if Steady(env, rows, c) {
      forall ids | Listing(rows, ids)
        ensures Members(FilterRows(env, rows, c, ids, None).0) == Selected(env, rows, c)
      {
        ListingSelects(env, rows, c, ids);
      }
    } else {
      var ids := HidingOrder(env, rows, c);
      assert Members([]) == {};
    }
  }

  /** What SELECT, UPDATE and DELETE look at, with an index or without: every proposal picks exactly the rows
      selected alone if and only if the index answers or the clause is steady. */
  lemma ProposalsSelectIff(env: Env, rows: Rows, c: Clause)
    requires Grounded(env, rows)
    ensures (forall ids | Proposed(env, rows, c, ids) ::
               Members(FilterRows(env, rows, c, ids, None).0) == Selected(env, rows, c))
       <==> Answered(env, rows, c) || Steady(env, rows, c)
  {
    if Definite(env, rows, c) {
      forall ids | Proposed(env, rows, c, ids)
        ensures Members(FilterRows(env, rows, c, ids, None).0) == Selected(env, rows, c)
      {
        ProposedSelects(env, rows, c, ids);
      }
    } else {
      var ids := HidingOrder(env, rows, c);
      assert Members([]) == {};
      assert Proposed(env, rows, c, ids);
    }
  }

  lemma ListingSelects(env: Env, rows: Rows, c: Clause, ids: seq<nat>)
    requires Wide(env, rows) && Steady(env, rows, c) && Listing(rows, ids)
    ensures Members(FilterRows(env, rows, c, ids, None).0) == Selected(env, rows, c)
  {
    var hits := FilterRows(env, rows, c, ids, None).0;
    MembersIff(ids);
    SteadyUnhidden(env, rows, c, ids);
    FilterIsSelected(env, rows, c, ids);
    MembersIff(hits);
    assert forall r | r in Selected(env, rows, c) :: r in rows.Keys;
    hide *;
    assert Members(hits) == Selected(env, rows, c);
  }

  // ----- an example

  function ExampleCols(): seq<ColumnDef> {
    [ColumnDef("a", IntCol, true, true, None), ColumnDef("s", StringCol, false, false, None)]
  }

  function ExampleRows(): Rows {
    map[1 := [Int(1), Null], 2 := [Int(2), Value.Str(1)]]
  }

  function ExampleClause(p: string): Expr {
    And(Test(Compare("a", OpEq, Const(IntLit(2)))), Test(Like("s", p)))
  }

  /** a = 2 AND s LIKE p, with a indexed: the index answers and only row 2 is looked at, which is selected; a
      scan that comes across row 1 first selects nothing, one that comes across it last selects row 2. So
      SELECT always lists row 2, while what COUNT gives depends on the order of the scan. */
  lemma ErrorHidesRow(p: string, like: LikeFn)
    requires like(p, "x") == Match
    ensures var env := Env(ExampleCols(), ["", "x"], like);
      var rows := ExampleRows();
      var e := ExampleClause(p);
      && Wide(env, rows) && IsOr(e) && Extract(env.cols, e) == Some((0, IntLit(2)))
      && !Steady(env, rows, Some(e)) && Answered(env, rows, Some(e))
      && (forall ids | Proposed(env, rows, Some(e), ids) :: ids == [2])
      && FilterRows(env, rows, Some(e), [2], None).0 == [2]
      && FilterRows(env, rows, Some(e), [1, 2], None).0 == [] && FilterRows(env, rows, Some(e), [2, 1], None).0 == [2]
      && ValidRow(env.cols, rows[1]) && ValidRow(env.cols, rows[2])
  {
    hide *;
    var env := Env(ExampleCols(), ["", "x"], like);
    var rows := ExampleRows();
    var c := Some(ExampleClause(p));
    ExampleTable(env);
    ExampleTakes(env.cols, p);
    ExampleRowsEvaluate(env, p);
    ExampleAnswered(env, c);
    ExampleUnsteady(env, c);
    FilterTwo(env, rows, c, 1, 2);
    FilterTwo(env, rows, c, 2, 1);
    FilterOne(env, rows, c, 2, None);
  }

  lemma ExampleTable(env: Env)
    requires env.cols == ExampleCols()
    ensures var rows := ExampleRows();
      && Wide(env, rows) && 1 in rows && 2 in rows && |env.cols| == 2
      && ValidRow(env.cols, rows[1]) && ValidRow(env.cols, rows[2])
  {
  }

  /** The clause is one the parser accepts, and offers its first predicate to an index. */
  lemma ExampleTakes(cols: seq<ColumnDef>, p: string)
    requires cols == ExampleCols()
    ensures var e := ExampleClause(p);
      && e.And? && IsOr(e) && Extract(cols, e) == Some((0, IntLit(2)))
  {
    var first, second := Test(Compare("a", OpEq, Const(IntLit(2)))), Test(Like("s", p));
    ExampleColumns();
    hide ColumnIndex;
    assert IsPrimary(first) && IsPrimary(second) && IsAnd(first);
    assert Extract(cols, first) == Some((0, IntLit(2)));
  }

  lemma ExampleAnswered(env: Env, c: Clause)
    requires Wide(env, ExampleRows()) && c.Some? && Extract(env.cols, c.value) == Some((0, IntLit(2))) && |env.cols| == 2
    ensures Answered(env, ExampleRows(), c) && forall ids | Proposed(env, ExampleRows(), c, ids) :: ids == [2]
  {
    var rows := ExampleRows();
    assert AnsweredBy(env, rows, c, 2);
    assert forall r | AnsweredBy(env, rows, c, r) :: r == 2;
    forall ids | Proposed(env, rows, c, ids)
      ensures ids == [2]
    {
      assert AnsweredBy(env, rows, c, ids[0]);
    }
  }

  lemma ExampleUnsteady(env: Env, c: Clause)
    requires Wide(env, ExampleRows()) && c.Some? && c.value.And?
    requires EvalClause(env, ExampleRows()[1], c, None).1 != None && EvalClause(env, ExampleRows()[2], c, None).0
    ensures !Steady(env, ExampleRows(), c)
  {
    var rows := ExampleRows();
    EvalTreeIsMeaning(env, rows[1], c.value);
    assert !ClauseNoError(env, rows[1], c);
    assert 2 in Selected(env, rows, c);
  }

  lemma ExampleColumns()
    ensures ColumnIndex(ExampleCols(), "a") == 0 && ColumnIndex(ExampleCols(), "s") == 1
  {
    var rest := ExampleCols()[1..];
    assert rest[0].name == "s";
    assert ColumnIndex(rest, "s") == 0;
  }

  lemma ExampleEvaluates(env: Env, p: string)
    requires env.cols == ExampleCols() && env.pool == ["", "x"] && env.like(p, "x") == Match
    ensures var e := And(Test(Compare("a", OpEq, Const(IntLit(2)))), Test(Like("s", p)));
      && EvalTree(env, ExampleRows()[1], e, None) == (false, Some(LikeNeedsString))
      && EvalTree(env, ExampleRows()[2], e, None) == (true, None)
      && !EvalTree(env, ExampleRows()[2], e, Some(LikeNeedsString)).0
  {
    ExampleColumns();
    hide ColumnIndex;
  }

  lemma ExampleRowsEvaluate(env: Env, p: string)
    requires env.cols == ExampleCols() && env.pool == ["", "x"] && env.like(p, "x") == Match
    ensures Wide(env, ExampleRows())
    ensures var c := Some(ExampleClause(p));
      && EvalClause(env, ExampleRows()[1], c, None) == (false, Some(LikeNeedsString))
      && EvalClause(env, ExampleRows()[2], c, None) == (true, None)
      && !EvalClause(env, ExampleRows()[2], c, Some(LikeNeedsString)).0
  {
    ExampleEvaluates(env, p);
    hide EvalTree, ColumnIndex;
  }

  lemma FilterOne(env: Env, rows: Rows, c: Clause, r: nat, err: Err)
    requires Wide(env, rows) && r in rows
    ensures FilterRows(env, rows, c, [r], err).0 == if EvalClause(env, rows[r], c, err).0 then [r] else []
  {
    hide EvalClause;
    FilterUnfold(env, rows, c, [r], err);
    assert [r][1..] == [];
  }

  lemma FilterTwo(env: Env, rows: Rows, c: Clause, r: nat, s: nat)
    requires Wide(env, rows) && r in rows && s in rows
    ensures var v := EvalClause(env, rows[r], c, None);
      FilterRows(env, rows, c, [r, s], None).0 ==
        (if v.0 then [r] else []) + (if EvalClause(env, rows[s], c, v.1).0 then [s] else [])
  {
    hide EvalClause;
    FilterUnfold(env, rows, c, [r, s], None);
    assert [r, s][1..] == [s];
    FilterOne(env, rows, c, s, EvalClause(env, rows[r], c, None).1);
  }
}
