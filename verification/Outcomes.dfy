/** How statements can end, also when they fail half-way or their WHERE clause raises errors, and what that
    says when the clause is definite (src/exec/executor.cpp:236-325). */
module Outcomes {
  import opened Values
  import opened TableSpec
  import opened UpdateSpec
  import opened WhereEval
  import opened WhereSyntax
  import opened Query
  import opened Selection
  import opened Mutation
  import opened Insertion
  import opened Statements

  // ----- how a statement can end

  /** INSERT stored the rows `added` of the first tuples; it succeeded if that is all, and otherwise the next
      tuple is refused. */
  ghost predicate InsertLeft(pool: seq<string>, t: TableState, names: seq<string>, tuples: seq<seq<Literal>>,
                             added: seq<Row>, ok: bool, after: TableState)
    requires |pool| > 0
  {
    && Describe(t.cols, pool, names, tuples, added) && AllAdmissible(t.cols, t.rows, t.next, added)
    && (forall k | 0 <= k < |added| :: TupleInterned(pool, tuples[k]))
    && after == TableState(t.cols, AddRows(t.rows, t.next, added), t.next + |added|)
    && (ok <==> |added| == |tuples|)
    && (!ok ==> Refused(t.cols, pool, names, tuples[|added|], after.rows))
  }

  /** UPDATE picked rows and overwrote them, or those before the one that stopped it. */
  ghost predicate UpdateLeft(pool: seq<string>, like: LikeFn, t: TableState, sets: Sets, c: Clause, picked: set<nat>,
                             ok: bool, after: TableState)
    requires |pool| > 0 && Wide(Env(t.cols, pool, like), t.rows)
  {
    && Picks(Env(t.cols, pool, like), t.rows, c, picked)
    && UpdateResult(t.cols, pool, t.rows, sets, picked, ok, after.rows) && after == t.(rows := after.rows)
  }

  /** DELETE picked rows and removed them. */
  ghost predicate DeleteLeft(pool: seq<string>, like: LikeFn, t: TableState, c: Clause, picked: set<nat>, after: TableState)
    requires Wide(Env(t.cols, pool, like), t.rows)
  {
    Picks(Env(t.cols, pool, like), t.rows, c, picked) && after == t.(rows := t.rows - picked)
  }

  ghost predicate RowOutcome(pool: seq<string>, like: LikeFn, t: TableState, st: Statement, ok: bool, after: TableState)
    requires |pool| > 0 && TableOk(pool, t)
  {
    match st
    case InsertInto(_, names, tuples) => exists added :: InsertLeft(pool, t, names, tuples, added, ok, after)
    case UpdateSet(_, sets, c) => exists picked :: UpdateLeft(pool, like, t, sets, c, picked, ok, after)
    case DeleteFrom(_, c) => ok && exists picked :: DeleteLeft(pool, like, t, c, picked, after)
    case _ => true
  }

  /** How a statement can end on a whole database: at most the table it names changes. */
  ghost predicate Outcome(pool: seq<string>, like: LikeFn, before: Tabs, st: Statement, ok: bool, after: Tabs)
    requires TabsOk(pool, before)
  {
    match st
    case CreateTable(n, decls) =>
      && (ok <==> n !in before) && DeclsSettled(pool, decls)
      && after == if ok then before[n := TableState(ColumnsOf(pool, decls), map[], 1)] else before
    case DropTable(n) => (ok <==> n in before) && after == before - {n}
    case _ =>
      if st.name !in before then !ok && after == before
      else
        && st.name in after && after == before[st.name := after[st.name]]
        && RowOutcome(pool, like, before[st.name], st, ok, after[st.name])
  }

  // ----- with a definite clause the end is determined

  /** The statement succeeded exactly when it has an effect, and then had that effect. */
  ghost predicate Refines(pool: seq<string>, like: LikeFn, before: TableState, st: Statement, ok: bool, after: TableState)
    requires |pool| > 0 && TableOk(pool, before)
  {
    && (ok <==> RowEffect(pool, like, before, st).Some?)
    && (ok ==> RowEffect(pool, like, before, st) == Some(after) && SettledTable(pool, like, before, st))
  }

  ghost predicate Executed(pool: seq<string>, like: LikeFn, before: Tabs, st: Statement, ok: bool, after: Tabs)
    requires TabsOk(pool, before)
  {
    && (ok <==> Effect(pool, like, before, st).Some?)
    && (ok ==> Effect(pool, like, before, st) == Some(after) && Settled(pool, like, before, st))
  }

  lemma InsertSucceeds(pool: seq<string>, t: TableState, names: seq<string>, tuples: seq<seq<Literal>>, all: seq<Row>)
    requires |pool| > 0 && |all| == |tuples|
    requires forall k | 0 <= k < |tuples| :: RowOf(t.cols, pool, names, tuples[k]) == Some(all[k])
    ensures InsertEffect(pool, t, names, tuples) ==
              if AllAdmissible(t.cols, t.rows, t.next, all) then
                Some(TableState(t.cols, AddRows(t.rows, t.next, all), t.next + |all|))
              else None
  {
    hide RowOf, AllAdmissible, AddRows;
    assert seq(|tuples|, k requires 0 <= k < |tuples| => RowOf(t.cols, pool, names, tuples[k]).value) == all;
  }

  lemma InsertStops(pool: seq<string>, t: TableState, names: seq<string>, tuples: seq<seq<Literal>>, added: seq<Row>)
    requires |pool| > 0 && Describe(t.cols, pool, names, tuples, added) && |added| < |tuples|
    requires Refused(t.cols, pool, names, tuples[|added|], AddRows(t.rows, t.next, added))
    ensures InsertEffect(pool, t, names, tuples) == None
  {
    hide RowOf, Admissible, AddRows;
    if forall k | 0 <= k < |tuples| :: RowOf(t.cols, pool, names, tuples[k]).Some? {
      var all := seq(|tuples|, k requires 0 <= k < |tuples| => RowOf(t.cols, pool, names, tuples[k]).value);
      assert all[..|added|] == added;
      NotAllAdmissible(t.cols, t.rows, t.next, all, |added|);
      InsertSucceeds(pool, t, names, tuples, all);
    }
  }

  lemma NotAllAdmissible(cols: seq<ColumnDef>, rows: Rows, next: nat, all: seq<Row>, k: nat)
    requires k < |all| && !Admissible(cols, AddRows(rows, next, all[..k]), all[k])
    ensures !AllAdmissible(cols, rows, next, all)
  {
  }

  lemma InsertVerdictIsEffect(pool: seq<string>, t: TableState, names: seq<string>, tuples: seq<seq<Literal>>,
                              ok: bool, added: seq<Row>, after: TableState)
    requires |pool| > 0 && Describe(t.cols, pool, names, tuples, added)
    requires AllAdmissible(t.cols, t.rows, t.next, added)
    requires after == TableState(t.cols, AddRows(t.rows, t.next, added), t.next + |added|)
    requires ok <==> |added| == |tuples|
    requires !ok ==> Refused(t.cols, pool, names, tuples[|added|], after.rows)
    ensures InsertEffect(pool, t, names, tuples) == if ok then Some(after) else None
  {
    hide RowOf, Admissible, AddRows, AllAdmissible, InsertEffect, Refused;
    if ok {
      InsertSucceeds(pool, t, names, tuples, added);
    } else {
      InsertStops(pool, t, names, tuples, added);
    }
  }

  lemma InsertIsEffect(pool: seq<string>, t: TableState, names: seq<string>, tuples: seq<seq<Literal>>,
                       added: seq<Row>, ok: bool, after: TableState)
    requires |pool| > 0 && InsertLeft(pool, t, names, tuples, added, ok, after)
    ensures InsertEffect(pool, t, names, tuples) == if ok then Some(after) else None
    ensures ok ==> forall k | 0 <= k < |tuples| :: TupleInterned(pool, tuples[k])
  {
    hide Describe, AllAdmissible, TupleInterned, AddRows, Refused, InsertEffect;
    InsertVerdictIsEffect(pool, t, names, tuples, ok, added, after);
  }

  lemma UpdateVerdictIsEffect(pool: seq<string>, like: LikeFn, t: TableState, sets: Sets, c: Clause, ok: bool, after: Rows)
    requires |pool| > 0 && Wide(Env(t.cols, pool, like), t.rows)
    requires UpdateResult(t.cols, pool, t.rows, sets, Matched(pool, like, t, c), ok, after)
    ensures ok <==> UpdateEffect(pool, like, t, sets, c).Some?
    ensures ok ==> UpdateEffect(pool, like, t, sets, c) == Some(t.(rows := after))
    ensures ok && Matched(pool, like, t, c) != {} ==> SetsInterned(pool, sets)
  {
    hide UpdateOk, Overwrite, Matched;
  }

  lemma OkGrounded(pool: seq<string>, like: LikeFn, t: TableState)
    requires PoolOk(pool) && TableOk(pool, t)
    ensures Grounded(Env(t.cols, pool, like), t.rows)
  {
  }

  lemma UpdateIsEffect(pool: seq<string>, like: LikeFn, t: TableState, sets: Sets, c: Clause, picked: set<nat>, ok: bool,
                       after: TableState)
    requires |pool| > 0 && Grounded(Env(t.cols, pool, like), t.rows) && Definite(Env(t.cols, pool, like), t.rows, c)
    requires UpdateLeft(pool, like, t, sets, c, picked, ok, after)
    ensures UpdateEffect(pool, like, t, sets, c) == if ok then Some(after) else None
    ensures ok && Matched(pool, like, t, c) != {} ==> SetsInterned(pool, sets)
  {
    assert Wide(Env(t.cols, pool, like), t.rows);
    hide UpdateResult, Picks, Definite, Selected, UpdateEffect, Grounded;
    PicksSelected(Env(t.cols, pool, like), t.rows, c, picked);
    UpdateVerdictIsEffect(pool, like, t, sets, c, ok, after.rows);
  }

  lemma DeleteIsEffect(pool: seq<string>, like: LikeFn, t: TableState, c: Clause, picked: set<nat>, after: TableState)
    requires Grounded(Env(t.cols, pool, like), t.rows) && Definite(Env(t.cols, pool, like), t.rows, c)
    requires DeleteLeft(pool, like, t, c, picked, after)
    ensures DeleteEffect(pool, like, t, c) == Some(after)
  {
    assert Wide(Env(t.cols, pool, like), t.rows);
    hide Picks, Definite, Selected, Grounded;
    PicksSelected(Env(t.cols, pool, like), t.rows, c, picked);
  }

  lemma RowOutcomeIsEffect(pool: seq<string>, like: LikeFn, t: TableState, st: Statement, ok: bool, after: TableState)
    requires |pool| > 0 && PoolOk(pool) && TableOk(pool, t) && !st.CreateTable? && !st.DropTable?
    requires RowOutcome(pool, like, t, st, ok, after) && DefiniteTable(pool, like, t, st)
    ensures Refines(pool, like, t, st, ok, after)
  {
    OkGrounded(pool, like, t);
    hide InsertLeft, InsertEffect, TupleInterned, UpdateLeft, UpdateEffect, DeleteLeft, DeleteEffect, Grounded, Definite,
         TableOk, Matched, SetsInterned;
    match st
    case InsertInto(_, names, tuples) =>
      var added :| InsertLeft(pool, t, names, tuples, added, ok, after);
      InsertIsEffect(pool, t, names, tuples, added, ok, after);
    case UpdateSet(_, sets, c) =>
      var picked :| UpdateLeft(pool, like, t, sets, c, picked, ok, after);
      UpdateIsEffect(pool, like, t, sets, c, picked, ok, after);
    case DeleteFrom(_, c) =>
      var picked :| DeleteLeft(pool, like, t, c, picked, after);
      DeleteIsEffect(pool, like, t, c, picked, after);
  }

  /** Whatever a statement's outcome: if its clause is definite it succeeded exactly when it has an effect, and had
      that effect. */
  lemma OutcomeIsEffect(pool: seq<string>, like: LikeFn, before: Tabs, st: Statement, ok: bool, after: Tabs)
    requires TabsOk(pool, before) && Outcome(pool, like, before, st, ok, after) && DefiniteOn(pool, like, before, st)
    ensures Executed(pool, like, before, st, ok, after)
  {
    hide RowOutcome, RowEffect, DefiniteTable, TableOk, DeclsSettled, ColumnsOf;
    if st.CreateTable? || st.DropTable? {
      if st.name in before { assert SettledTable(pool, like, before[st.name], st); }
    } else if st.name in before {
      hide SettledTable;
      RowOutcomeIsEffect(pool, like, before[st.name], st, ok, after[st.name]);
    }
  }
}
