/** Filtering rows (src/exec/executor.cpp:197-209, 333-352, 377-385): the rows a statement looks at, what an
    error on one of them does to the others, and which clauses pick exactly the rows that are selected when each
    is evaluated alone. */
module Selection {
  import opened StringPools
  import opened TableSpec
  import opened UpdateSpec
  import opened Values
  import opened WhereSyntax
  import opened WhereEval
  import opened Query

  // ----- filtering

  /** Rows in full width. */
  predicate Wide(env: Env, rows: Rows) {
    forall r | r in rows :: |rows[r]| == |env.cols|
  }

  predicate Stored(rows: Rows, ids: seq<nat>) {
    forall k | 0 <= k < |ids| :: ids[k] in rows
  }

  /** The loop over the rows to look at: the error is passed from row to row. */
  function FilterRows(env: Env, rows: Rows, c: Clause, ids: seq<nat>, err: Err): (seq<nat>, Err)
    requires Wide(env, rows) && Stored(rows, ids)
    decreases |ids|
  {
    if ids == [] then ([], err)
    else
      assert forall k | 0 <= k < |ids[1..]| :: ids[1..][k] == ids[k + 1];
      var v := EvalClause(env, rows[ids[0]], c, err);
      var rest := FilterRows(env, rows, c, ids[1..], v.1);
      ((if v.0 then [ids[0]] else []) + rest.0, rest.1)
  }

  predicate NoErrors(env: Env, rows: Rows, c: Clause)
    requires Wide(env, rows)
  {
    forall r | r in rows :: ClauseNoError(env, rows[r], c)
  }

  /** The ids of the rows the clause means. */
  function Matching(env: Env, rows: Rows, c: Clause): set<nat>
    requires Wide(env, rows)
  {
    set r | r in rows && ClauseMeaning(env, rows[r], c)
  }

  /** The ids of the rows on which the clause is true when each is evaluated alone. */
  function Selected(env: Env, rows: Rows, c: Clause): set<nat>
    requires Wide(env, rows)
  {
    set r | r in rows && EvalClause(env, rows[r], c, None).0
  }

  /** No clause, or one predicate inside whatever parentheses. */
  predicate OnePredicate(c: Clause) {
    c.Some? ==> Stripped(c.value).Test?
  }

  /** The clauses that select the same rows whatever order they are visited in: one predicate; no row
      raising an error; or no row to select at all. */
  predicate Steady(env: Env, rows: Rows, c: Clause)
    requires Wide(env, rows)
  {
    OnePredicate(c) || NoErrors(env, rows, c) || Selected(env, rows, c) == {}
  }

  /** A single predicate means what it evaluates to, also when it raises an error. */
  lemma {:induction false} LonePredicate(env: Env, row: Row, e: Expr)
    requires |row| == |env.cols| && Stripped(e).Test?
    ensures EvalTree(env, row, e, None).0 <==> Meaning(env, row, e)
  {
    hide EvalPred;
    if e.Paren? { LonePredicate(env, row, e.e); }
  }

  /** The rows selected alone are those the clause means, if no row raises an error or the clause is one
      predicate. */
  lemma SelectedIsMeaning(env: Env, rows: Rows, c: Clause)
    requires Wide(env, rows) && (OnePredicate(c) || NoErrors(env, rows, c))
    ensures Selected(env, rows, c) == Matching(env, rows, c)
  {
    forall r | r in rows
      ensures EvalClause(env, rows[r], c, None).0 <==> ClauseMeaning(env, rows[r], c)
    {
      if NoErrors(env, rows, c) {
        ClauseEvalIsMeaning(env, rows[r], c);
      } else if c.Some? {
        LonePredicate(env, rows[r], c.value);
      }
    }
    hide EvalClause, ClauseMeaning;
  }

  lemma {:induction false} StrippedKind(e: Expr)
    ensures !Stripped(e).Paren?
  {
    if e.Paren? { StrippedKind(e.e); }
  }

  /** An error left behind by an earlier row never selects a row, and changes nothing for one predicate. */
  lemma ErrorNeverHelps(env: Env, row: Row, c: Clause, err: Err)
    requires |row| == |env.cols|
    ensures EvalClause(env, row, c, err).0 ==> EvalClause(env, row, c, None).0
    ensures OnePredicate(c) ==> EvalClause(env, row, c, err).0 == EvalClause(env, row, c, None).0
  {
    if c.Some? && err != None {
      ErrorSticks(env, row, c.value, err);
      StrippedKind(c.value);
      if Stripped(c.value).Test? { LonePredicate(env, row, c.value); LoneMeaning(env, row, c.value); }
    }
  }

  lemma {:induction false} LoneMeaning(env: Env, row: Row, e: Expr)
    requires |row| == |env.cols| && Stripped(e).Test?
    ensures Meaning(env, row, e) <==> EvalPred(env, row, Stripped(e).p) == Holds(true)
  {
    hide EvalPred;
    if e.Paren? { LoneMeaning(env, row, e.e); }
  }

  lemma FilterUnfold(env: Env, rows: Rows, c: Clause, ids: seq<nat>, err: Err)
    requires Wide(env, rows) && Stored(rows, ids) && ids != []
    ensures Stored(rows, ids[1..]) && ids[0] in rows
    ensures var v := EvalClause(env, rows[ids[0]], c, err);
      FilterRows(env, rows, c, ids, err) ==
        ((if v.0 then [ids[0]] else []) + FilterRows(env, rows, c, ids[1..], v.1).0,
         FilterRows(env, rows, c, ids[1..], v.1).1)
  {
    hide EvalClause;
    assert forall k | 0 <= k < |ids[1..]| :: ids[1..][k] == ids[k + 1];
  }

  /** Whatever errors rows raise, filtering lists some of the rows it looks at, each once, and only rows
      that are selected alone. */
  lemma {:induction false} FilterWithin(env: Env, rows: Rows, c: Clause, ids: seq<nat>, err: Err)
    requires Wide(env, rows) && Stored(rows, ids) && Distinct(ids)
    ensures var hits := FilterRows(env, rows, c, ids, err).0;
      Distinct(hits) && Stored(rows, hits) && forall r | r in hits :: r in ids && r in Selected(env, rows, c)
    decreases |ids|
  {
    if ids != [] {
      var v := EvalClause(env, rows[ids[0]], c, err);
      FilterUnfold(env, rows, c, ids, err);
      ErrorNeverHelps(env, rows[ids[0]], c, err);
      assert v.0 ==> ids[0] in Selected(env, rows, c);
      assert Distinct(ids[1..]) && ids[0] !in ids[1..];
      hide *;
      FilterWithin(env, rows, c, ids[1..], v.1);
      var rest := FilterRows(env, rows, c, ids[1..], v.1).0;
      ConsDistinct(rows, ids[0], rest);
      assert [] + rest == rest;
    }
  }

  lemma ConsDistinct(rows: Rows, id: nat, rest: seq<nat>)
    requires Stored(rows, rest) && Distinct(rest) && id in rows && id !in rest
    ensures Stored(rows, [id] + rest) && Distinct([id] + rest)
  {
  }

  /** Errors left behind do not matter on any row. */
  ghost predicate Indifferent(env: Env, rows: Rows, c: Clause)
    requires Wide(env, rows)
  {
    forall r, err | r in rows :: EvalClause(env, rows[r], c, err).0 == EvalClause(env, rows[r], c, None).0
  }

  lemma {:induction false} FilterIndifferent(env: Env, rows: Rows, c: Clause, ids: seq<nat>, err: Err)
    requires Wide(env, rows) && Stored(rows, ids) && Indifferent(env, rows, c)
    ensures forall r | r in ids && r in Selected(env, rows, c) :: r in FilterRows(env, rows, c, ids, err).0
    decreases |ids|
  {
    if ids != [] {
      var v := EvalClause(env, rows[ids[0]], c, err);
      FilterUnfold(env, rows, c, ids, err);
      assert ids[0] in Selected(env, rows, c) ==> v.0;
      hide *;
      FilterIndifferent(env, rows, c, ids[1..], v.1);
    }
  }

  /** Without errors none is passed on. */
  lemma {:induction false} FilterQuiet(env: Env, rows: Rows, c: Clause, ids: seq<nat>)
    requires Wide(env, rows) && Stored(rows, ids) && NoErrors(env, rows, c)
    ensures FilterRows(env, rows, c, ids, None).1 == None
    ensures forall r | r in ids && r in Selected(env, rows, c) :: r in FilterRows(env, rows, c, ids, None).0
    decreases |ids|
  {
    if ids != [] {
      FilterUnfold(env, rows, c, ids, None);
      ClauseEvalIsMeaning(env, rows[ids[0]], c);
      assert ids[0] in Selected(env, rows, c) ==> EvalClause(env, rows[ids[0]], c, None).0;
      hide *;
      FilterQuiet(env, rows, c, ids[1..]);
    }
  }

  /** After an error, a clause of several predicates selects nothing more. */
  lemma {:induction false} StuckFilter(env: Env, rows: Rows, c: Clause, ids: seq<nat>, err: Err)
    requires Wide(env, rows) && Stored(rows, ids) && err != None && !OnePredicate(c)
    ensures FilterRows(env, rows, c, ids, err).0 == []
    decreases |ids|
  {
    if ids != [] {
      StrippedKind(c.value);
      ErrorSticks(env, rows[ids[0]], c.value, err);
      FilterUnfold(env, rows, c, ids, err);
      var v := EvalClause(env, rows[ids[0]], c, err);
      assert !v.0 && v.1 != None;
      hide *;
      StuckFilter(env, rows, c, ids[1..], v.1);
    }
  }

  // ----- exactly when filtering misses nothing

  /** No row that raises an error comes before one that is selected alone. */
  predicate Unhidden(env: Env, rows: Rows, c: Clause, ids: seq<nat>)
    requires Wide(env, rows) && Stored(rows, ids)
  {
    forall i, j | 0 <= i < j < |ids| && !ClauseNoError(env, rows[ids[i]], c) :: ids[j] !in Selected(env, rows, c)
  }

  ghost predicate Sees(env: Env, rows: Rows, c: Clause, ids: seq<nat>, hits: seq<nat>)
    requires Wide(env, rows)
  {
    forall r | r in ids && r in Selected(env, rows, c) :: r in hits
  }

  /** A row without an error in front changes neither side. */
  lemma QuietRowFirst(env: Env, rows: Rows, c: Clause, ids: seq<nat>)
    requires Wide(env, rows) && Stored(rows, ids) && Distinct(ids) && ids != [] && ClauseNoError(env, rows[ids[0]], c)
    ensures Stored(rows, ids[1..])
    ensures Unhidden(env, rows, c, ids) <==> Unhidden(env, rows, c, ids[1..])
    ensures Sees(env, rows, c, ids, FilterRows(env, rows, c, ids, None).0) <==>
              Sees(env, rows, c, ids[1..], FilterRows(env, rows, c, ids[1..], None).0)
  {
    FilterUnfold(env, rows, c, ids, None);
    ClauseEvalIsMeaning(env, rows[ids[0]], c);
    assert ids[0] in Selected(env, rows, c) <==> EvalClause(env, rows[ids[0]], c, None).0;
    hide FilterRows, EvalClause, ClauseNoError, Selected;
    assert ids == [ids[0]] + ids[1..];
    assert ids[0] !in ids[1..];
    if Unhidden(env, rows, c, ids[1..]) {
      forall i, j | 0 <= i < j < |ids| && !ClauseNoError(env, rows[ids[i]], c)
        ensures ids[j] !in Selected(env, rows, c)
      {
        assert ids[1..][i - 1] == ids[i] && ids[1..][j - 1] == ids[j];
      }
    }
    if Unhidden(env, rows, c, ids) {
      forall i, j | 0 <= i < j < |ids[1..]| && !ClauseNoError(env, rows[ids[1..][i]], c)
        ensures ids[1..][j] !in Selected(env, rows, c)
      {
        assert ids[1..][i] == ids[i + 1] && ids[1..][j] == ids[j + 1];
      }
    }
  }

  /** A row that raises an error in front hides all rows behind it. */
  lemma ErrorRowFirst(env: Env, rows: Rows, c: Clause, ids: seq<nat>)
    requires Wide(env, rows) && Stored(rows, ids) && ids != [] && !OnePredicate(c)
    requires !ClauseNoError(env, rows[ids[0]], c)
    ensures Unhidden(env, rows, c, ids) <==> Sees(env, rows, c, ids, FilterRows(env, rows, c, ids, None).0)
  {
    EvalTreeIsMeaning(env, rows[ids[0]], c.value);
    var v := EvalClause(env, rows[ids[0]], c, None);
    assert !v.0 && v.1 != None && ids[0] !in Selected(env, rows, c);
    FilterUnfold(env, rows, c, ids, None);
    hide FilterRows, EvalClause, ClauseNoError, Selected;
    StuckFilter(env, rows, c, ids[1..], v.1);
    assert FilterRows(env, rows, c, ids, None).0 == [];
    if Unhidden(env, rows, c, ids) {
      forall r | r in ids
        ensures r !in Selected(env, rows, c)
      {
        var j :| 0 <= j < |ids| && ids[j] == r;
      }
    }
  }

  lemma {:induction false} SeesIffUnhidden(env: Env, rows: Rows, c: Clause, ids: seq<nat>)
    requires Wide(env, rows) && Stored(rows, ids) && Distinct(ids) && !OnePredicate(c)
    ensures Sees(env, rows, c, ids, FilterRows(env, rows, c, ids, None).0) <==> Unhidden(env, rows, c, ids)
    decreases |ids|
  {
    hide FilterRows, Selected, ClauseNoError;
    if ids != [] {
      if ClauseNoError(env, rows[ids[0]], c) {
        QuietRowFirst(env, rows, c, ids);
        SeesIffUnhidden(env, rows, c, ids[1..]);
      } else {
        ErrorRowFirst(env, rows, c, ids);
      }
    }
  }

  /** Filtering rows in an order lists exactly those of them that are selected alone if and only if the clause is
      absent or one predicate, or no row that raises an error comes before one that is selected alone. */
  lemma FilterExactIff(env: Env, rows: Rows, c: Clause, ids: seq<nat>)
    requires Wide(env, rows) && Stored(rows, ids) && Distinct(ids)
    ensures (forall r :: r in FilterRows(env, rows, c, ids, None).0 <==> r in ids && r in Selected(env, rows, c))
       <==> OnePredicate(c) || Unhidden(env, rows, c, ids)
  {
    FilterWithin(env, rows, c, ids, None);
    if OnePredicate(c) {
      forall r, err | r in rows
        ensures EvalClause(env, rows[r], c, err).0 == EvalClause(env, rows[r], c, None).0
      {
        ErrorNeverHelps(env, rows[r], c, err);
      }
      FilterIndifferent(env, rows, c, ids, None);
    } else {
      SeesIffUnhidden(env, rows, c, ids);
    }
    hide FilterRows, Selected, Unhidden, EvalClause;
  }

  lemma FilterIsSelected(env: Env, rows: Rows, c: Clause, ids: seq<nat>)
    requires Wide(env, rows) && Stored(rows, ids) && Distinct(ids) && (OnePredicate(c) || Unhidden(env, rows, c, ids))
    ensures var hits := FilterRows(env, rows, c, ids, None).0;
      Distinct(hits) && Stored(rows, hits) && forall r :: r in hits <==> r in ids && r in Selected(env, rows, c)
  {
    FilterWithin(env, rows, c, ids, None);
    FilterExactIff(env, rows, c, ids);
  }

  /** Under a steady clause no order hides anything. */
  lemma SteadyUnhidden(env: Env, rows: Rows, c: Clause, ids: seq<nat>)
    requires Wide(env, rows) && Stored(rows, ids) && Steady(env, rows, c)
    ensures OnePredicate(c) || Unhidden(env, rows, c, ids)
  {
    hide EvalClause, ClauseNoError;
  }

  /** Rows worth looking at: among them every row that is selected alone. */
  predicate Complete(env: Env, rows: Rows, c: Clause, ids: seq<nat>)
    requires Wide(env, rows)
  {
    && Stored(rows, ids) && Distinct(ids)
    && forall r | r in rows && EvalClause(env, rows[r], c, None).0 :: r in ids
  }

  /** For a steady clause, filtering the rows an index proposes selects the same rows, and as many, as
      filtering all rows. */
  lemma IndexChangesNoAnswer(env: Env, rows: Rows, c: Clause, ids: seq<nat>, all: seq<nat>)
    requires Wide(env, rows) && Steady(env, rows, c) && Complete(env, rows, c, ids)
    requires Distinct(all) && forall r :: r in all <==> r in rows
    ensures Stored(rows, all)
    ensures var hits := FilterRows(env, rows, c, ids, None);
            var full := FilterRows(env, rows, c, all, None);
            && Members(hits.0) == Members(full.0) == Selected(env, rows, c)
            && |hits.0| == |full.0| == |Selected(env, rows, c)|
            && (NoErrors(env, rows, c) ==> hits.1 == full.1 == None)
            && (NoErrors(env, rows, c) || OnePredicate(c) ==> Selected(env, rows, c) == Matching(env, rows, c))
  {
    var hits, full := FilterRows(env, rows, c, ids, None).0, FilterRows(env, rows, c, all, None).0;
    SteadyUnhidden(env, rows, c, ids);
    SteadyUnhidden(env, rows, c, all);
    FilterIsSelected(env, rows, c, ids);
    FilterIsSelected(env, rows, c, all);
    if NoErrors(env, rows, c) { FilterQuiet(env, rows, c, ids); FilterQuiet(env, rows, c, all); }
    if NoErrors(env, rows, c) || OnePredicate(c) { SelectedIsMeaning(env, rows, c); }
    assert forall r | r in Selected(env, rows, c) :: r in ids && r in all;
    hide *;
    MembersIff(hits);
    MembersIff(full);
    assert Members(hits) == Selected(env, rows, c) == Members(full);
    DistinctSize(hits);
    DistinctSize(full);
  }

  // ----- the rows a statement looks at

  /** All rows, each once. */
  ghost predicate Listing(rows: Rows, ids: seq<nat>) {
    Distinct(ids) && Stored(rows, ids) && Members(ids) == rows.Keys
  }

  /** The row has the value of the equality that the clause offers to an index. */
  predicate AnsweredBy(env: Env, rows: Rows, c: Clause, r: nat)
    requires Wide(env, rows)
  {
    && c.Some? && Extract(env.cols, c.value).Some? && r in rows
    && var (ci, lit) := Extract(env.cols, c.value).value;
       ci < |env.cols| && LitCmp(env.pool, rows[r][ci], lit) == 0
  }

  /** The index finds the value of that equality. */
  ghost predicate Answered(env: Env, rows: Rows, c: Clause)
    requires Wide(env, rows)
  {
    exists r :: AnsweredBy(env, rows, c, r)
  }

  /** What `candidate_rows` proposes: the row that the index finds, or else all rows in some order. */
  ghost predicate Proposed(env: Env, rows: Rows, c: Clause, ids: seq<nat>)
    requires Wide(env, rows)
  {
    if Answered(env, rows, c) then |ids| == 1 && AnsweredBy(env, rows, c, ids[0]) else Listing(rows, ids)
  }

  /** The clauses for which a statement picks exactly the rows selected alone. */
  ghost predicate Definite(env: Env, rows: Rows, c: Clause)
    requires Wide(env, rows)
  {
    Answered(env, rows, c) || Steady(env, rows, c)
  }

  /** Rows as a table holds them. */
  ghost predicate Grounded(env: Env, rows: Rows) {
    PoolOk(env.pool) && UniqueRows(env.cols, rows) && Wide(env, rows) && forall r | r in rows :: InternedRow(env.pool, rows[r])
  }

  lemma GroundedIs(env: Env, rows: Rows)
    requires Grounded(env, rows)
    ensures PoolOk(env.pool) && UniqueRows(env.cols, rows) && Wide(env, rows)
    ensures forall r | r in rows :: InternedRow(env.pool, rows[r])
  {
  }

  lemma {:induction false} ExtractIndexed(cols: seq<ColumnDef>, e: Expr)
    requires Extract(cols, e).Some?
    ensures var ci := Extract(cols, e).value.0; ci < |cols| && cols[ci].indexed
  {
    match e
    case Test(p) =>
    case Paren(x) => ExtractIndexed(cols, x);
    case And(l, r) => if Extract(cols, l).Some? { ExtractIndexed(cols, l); } else { ExtractIndexed(cols, r); }
    case Or(_, _) =>
  }

  /** A cell compares equal with a literal exactly if it is the literal's value. */
  lemma EqualIsValue(pool: seq<string>, v: Value, l: Literal)
    requires PoolOk(pool) && |pool| > 0 && Interned(pool, v)
    ensures LitCmp(pool, v, l) == 0 <==> v == LitValue(pool, l)
  {
    if l.StrLit? { InternKeepsPool(pool, l.s); }
    LitCmpIsCmp(pool, PoolWith(pool, l), v, l);
  }

  lemma EqualRowIs(env: Env, rows: Rows, c: Clause, r: nat)
    requires Grounded(env, rows) && c.Some? && Extract(env.cols, c.value).Some? && r in rows
    ensures var (ci, lit) := Extract(env.cols, c.value).value;
      && ci < |env.cols| && env.cols[ci].indexed && |env.pool| > 0
      && (AnsweredBy(env, rows, c, r) <==> rows[r][ci] == LitValue(env.pool, lit))
  {
    ExtractIndexed(env.cols, c.value);
    var (ci, lit) := Extract(env.cols, c.value).value;
    assert rows[r][ci] in rows[r];
    EqualIsValue(env.pool, rows[r][ci], lit);
  }

  /** At most one row answers. */
  lemma OneAnswer(env: Env, rows: Rows, c: Clause, r: nat, s: nat)
    requires Grounded(env, rows) && AnsweredBy(env, rows, c, r) && AnsweredBy(env, rows, c, s)
    ensures r == s
  {
    EqualRowIs(env, rows, c, r);
    EqualRowIs(env, rows, c, s);
    UniqueCell(env.cols, rows, Extract(env.cols, c.value).value.0, r, s);
  }

  lemma UniqueCell(cols: seq<ColumnDef>, rows: Rows, i: nat, r: nat, s: nat)
    requires UniqueRows(cols, rows) && i < |cols| && cols[i].indexed && r in rows && s in rows
    ensures rows[r][i] == rows[s][i] ==> r == s
  {
  }

  /** Every row selected alone is the one that answers, if one does. */
  lemma SelectedAnswers(env: Env, rows: Rows, c: Clause, r: nat, s: nat)
    requires Grounded(env, rows) && AnsweredBy(env, rows, c, r) && s in Selected(env, rows, c)
    ensures s == r
  {
    ExtractSound(env, rows[s], c.value, None);
    OneAnswer(env, rows, c, r, s);
  }

  /** A proposal holds every row selected alone, and of a definite clause none of them is hidden in it. */
  lemma ProposedComplete(env: Env, rows: Rows, c: Clause, ids: seq<nat>)
    requires Grounded(env, rows) && Proposed(env, rows, c, ids)
    ensures Complete(env, rows, c, ids)
    ensures Definite(env, rows, c) ==> OnePredicate(c) || Unhidden(env, rows, c, ids)
  {
    if Answered(env, rows, c) {
      forall s | s in rows && EvalClause(env, rows[s], c, None).0
        ensures s in ids
      {
        assert s in Selected(env, rows, c);
        SelectedAnswers(env, rows, c, ids[0], s);
      }
    } else {
      MembersIff(ids);
      if Steady(env, rows, c) { SteadyUnhidden(env, rows, c, ids); }
    }
  }

  lemma ProposedSelects(env: Env, rows: Rows, c: Clause, ids: seq<nat>)
    requires Grounded(env, rows) && Proposed(env, rows, c, ids)
    ensures Stored(rows, ids) && Distinct(ids)
    ensures Members(FilterRows(env, rows, c, ids, None).0) <= Selected(env, rows, c) <= rows.Keys
    ensures Definite(env, rows, c) ==> Members(FilterRows(env, rows, c, ids, None).0) == Selected(env, rows, c)
  {
    ProposedComplete(env, rows, c, ids);
    assert Stored(rows, ids) && Distinct(ids);
    var hits := FilterRows(env, rows, c, ids, None).0;
    FilterWithin(env, rows, c, ids, None);
    MembersIff(hits);
    assert Selected(env, rows, c) <= rows.Keys;
    assert forall r | r in Selected(env, rows, c) :: r in ids;
    if Definite(env, rows, c) {
      FilterIsSelected(env, rows, c, ids);
      hide *;
      assert Members(hits) == Selected(env, rows, c);
    }
    hide *;
  }

  ghost predicate PickedFrom(env: Env, rows: Rows, c: Clause, ids: seq<nat>, hits: set<nat>)
    requires Wide(env, rows)
  {
    Proposed(env, rows, c, ids) && Stored(rows, ids) && hits == Members(FilterRows(env, rows, c, ids, None).0)
  }

  /** What a statement can pick: filtering what is proposed to it gives these. */
  ghost predicate Picks(env: Env, rows: Rows, c: Clause, hits: set<nat>)
    requires Wide(env, rows)
  {
    exists ids :: PickedFrom(env, rows, c, ids, hits)
  }

  /** Only rows selected alone are picked, and for a definite clause all of them. */
  lemma PicksSelected(env: Env, rows: Rows, c: Clause, hits: set<nat>)
    requires Grounded(env, rows) && Picks(env, rows, c, hits)
    ensures hits <= Selected(env, rows, c) <= rows.Keys
    ensures Definite(env, rows, c) ==> hits == Selected(env, rows, c)
  {
    var ids :| PickedFrom(env, rows, c, ids, hits);
    hide Proposed, Definite, FilterRows, Selected, Grounded;
    ProposedSelects(env, rows, c, ids);
  }

  /** Some listing of a finite set. */
  ghost function AnyOrder(s: set<nat>): (ids: seq<nat>)
    ensures Distinct(ids) && forall r :: r in ids <==> r in s
  {
    if s == {} then []
    else
      var x :| x in s;
      AnyOrder(s - {x}) + [x]
  }

  lemma MembersIff(ids: seq<nat>)
    ensures forall r :: r in Members(ids) <==> r in ids
  {
  }

  lemma {:induction false} DistinctSize(ids: seq<nat>)
    requires Distinct(ids)
    ensures |Members(ids)| == |ids|
    decreases |ids|
  {
    if ids == [] {
      assert Members(ids) == {};
    } else {
      MembersTail(ids);
      DistinctSize(ids[1..]);
    }
  }
}
