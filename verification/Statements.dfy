/** Statements that change a database, and the change each makes when it succeeds and its WHERE clause is
    definite (src/exec/executor.cpp:236-325), as functions on tables as values. */
module Statements {
  import opened Values
  import opened TableSpec
  import opened UpdateSpec
  import opened WhereSyntax
  import opened WhereEval
  import opened Query
  import opened Selection
  import opened Execution
  import opened Mutation
  import opened Insertion

  /** A column as declared: its default is still a literal. */
  datatype ColumnDecl = ColumnDecl(name: string, ty: ColType, notNull: bool, indexed: bool, default: Option<Literal>)

  datatype Statement =
    | CreateTable(name: string, decls: seq<ColumnDecl>)
    | DropTable(name: string)
    | InsertInto(name: string, names: seq<string>, tuples: seq<seq<Literal>>)
    | UpdateSet(name: string, sets: Sets, c: Clause)
    | DeleteFrom(name: string, c: Clause)

  datatype TableState = TableState(cols: seq<ColumnDef>, rows: Rows, next: nat)

  /** The tables of a database by name. */
  type Tabs = map<string, TableState>

  function ColumnOf(pool: seq<string>, d: ColumnDecl): ColumnDef
    requires |pool| > 0
  {
    ColumnDef(d.name, d.ty, d.notNull, d.indexed, if d.default.None? then None else Some(LitValue(pool, d.default.value)))
  }

  function ColumnsOf(pool: seq<string>, decls: seq<ColumnDecl>): (cols: seq<ColumnDef>)
    requires |pool| > 0
    ensures |cols| == |decls| && forall i | 0 <= i < |decls| :: cols[i] == ColumnOf(pool, decls[i])
  {
    seq(|decls|, i requires 0 <= i < |decls| => ColumnOf(pool, decls[i]))
  }

  ghost predicate TableOk(pool: seq<string>, t: TableState) {
    WellStored(t.cols, pool, t.rows, t.next) && UniqueRows(t.cols, t.rows) && DefaultsInterned(pool, t.cols)
  }

  ghost predicate TabsOk(pool: seq<string>, tabs: Tabs) {
    PoolOk(pool) && |pool| > 0 && forall n | n in tabs :: TableOk(pool, tabs[n])
  }

  // ----- what a statement does

  /** All tuples become rows, stored in order; one that cannot be stored makes the statement fail. */
  ghost function InsertEffect(pool: seq<string>, t: TableState, names: seq<string>, tuples: seq<seq<Literal>>): Option<TableState>
    requires |pool| > 0
  {
    if forall k | 0 <= k < |tuples| :: RowOf(t.cols, pool, names, tuples[k]).Some? then
      var added := seq(|tuples|, k requires 0 <= k < |tuples| => RowOf(t.cols, pool, names, tuples[k]).value);
      if AllAdmissible(t.cols, t.rows, t.next, added) then
        Some(TableState(t.cols, AddRows(t.rows, t.next, added), t.next + |added|))
      else None
    else None
  }

  /** The rows on which the clause is true when each is evaluated alone. */
  function Matched(pool: seq<string>, like: LikeFn, t: TableState, c: Clause): set<nat>
    requires Wide(Env(t.cols, pool, like), t.rows)
  {
    Selected(Env(t.cols, pool, like), t.rows, c)
  }

  ghost function UpdateEffect(pool: seq<string>, like: LikeFn, t: TableState, sets: Sets, c: Clause): Option<TableState>
    requires |pool| > 0 && Wide(Env(t.cols, pool, like), t.rows)
  {
    var matched := Matched(pool, like, t, c);
    if matched == {} then Some(t)
    else if !SetsKnown(t.cols, sets) then None
    else if UpdateOk(t.cols, t.rows, CellsOf(t.cols, pool, sets), matched) then
      Some(t.(rows := Overwrite(t.rows, CellsOf(t.cols, pool, sets), matched, |t.cols|)))
    else None
  }

  ghost function DeleteEffect(pool: seq<string>, like: LikeFn, t: TableState, c: Clause): Option<TableState>
    requires Wide(Env(t.cols, pool, like), t.rows)
  {
    Some(t.(rows := t.rows - Matched(pool, like, t, c)))
  }

  /** The table of one statement after it, for the statements that change rows. */
  ghost function RowEffect(pool: seq<string>, like: LikeFn, t: TableState, st: Statement): Option<TableState>
    requires |pool| > 0 && TableOk(pool, t)
  {
    match st
    case InsertInto(_, names, tuples) => InsertEffect(pool, t, names, tuples)
    case UpdateSet(_, sets, c) => UpdateEffect(pool, like, t, sets, c)
    case DeleteFrom(_, c) => DeleteEffect(pool, like, t, c)
    case _ => None
  }

  /** The database after the statement; None where it fails. */
  ghost function Effect(pool: seq<string>, like: LikeFn, tabs: Tabs, st: Statement): Option<Tabs>
    requires TabsOk(pool, tabs)
  {
    match st
    case CreateTable(n, decls) =>
      if n in tabs then None else Some(tabs[n := TableState(ColumnsOf(pool, decls), map[], 1)])
    case DropTable(n) =>
      if n in tabs then Some(tabs - {n}) else None
    case _ =>
      if st.name !in tabs then None
      else
        match RowEffect(pool, like, tabs[st.name], st)
        case None => None
        case Some(t) => Some(tabs[st.name := t])
  }

  ghost predicate DefiniteTable(pool: seq<string>, like: LikeFn, t: TableState, st: Statement)
    requires TableOk(pool, t)
  {
    match st
    case UpdateSet(_, _, c) => Definite(Env(t.cols, pool, like), t.rows, c)
    case DeleteFrom(_, c) => Definite(Env(t.cols, pool, like), t.rows, c)
    case _ => true
  }

  /** The statement's WHERE clause is definite: an index answers it, or the order of rows does not matter. */
  ghost predicate DefiniteOn(pool: seq<string>, like: LikeFn, tabs: Tabs, st: Statement)
    requires TabsOk(pool, tabs)
  {
    st.name in tabs ==> DefiniteTable(pool, like, tabs[st.name], st)
  }

  ghost predicate SettledTable(pool: seq<string>, like: LikeFn, t: TableState, st: Statement)
    requires |pool| > 0 && TableOk(pool, t)
  {
    match st
    case InsertInto(_, _, tuples) => forall k | 0 <= k < |tuples| :: TupleInterned(pool, tuples[k])
    case UpdateSet(_, sets, c) => Matched(pool, like, t, c) != {} ==> SetsInterned(pool, sets)
    case _ => true
  }

  predicate DeclsSettled(pool: seq<string>, decls: seq<ColumnDecl>)
    requires |pool| > 0
  {
    forall i | 0 <= i < |decls| && decls[i].default.Some? :: PoolWith(pool, decls[i].default.value) == pool
  }

  /** The strings that the statement stored are in the pool. */
  ghost predicate Settled(pool: seq<string>, like: LikeFn, tabs: Tabs, st: Statement)
    requires TabsOk(pool, tabs)
  {
    && (st.CreateTable? ==> DeclsSettled(pool, st.decls))
    && (st.name in tabs ==> SettledTable(pool, like, tabs[st.name], st))
  }

  // ----- a larger pool changes nothing

  lemma TableOkStable(pool: seq<string>, bigger: seq<string>, t: TableState)
    requires TableOk(pool, t) && pool <= bigger
    ensures TableOk(bigger, t)
  {
    forall rid | rid in t.rows
      ensures InternedRow(bigger, t.rows[rid])
    {
      InternedStays(pool, bigger, t.rows[rid]);
    }
    DefaultsStay(pool, bigger, t.cols);
  }

  lemma TabsOkStable(pool: seq<string>, bigger: seq<string>, tabs: Tabs)
    requires TabsOk(pool, tabs) && PoolOk(bigger) && pool <= bigger
    ensures TabsOk(bigger, tabs)
  {
    hide TableOk, PoolOk;
    forall n | n in tabs
      ensures TableOk(bigger, tabs[n])
    {
      TableOkStable(pool, bigger, tabs[n]);
    }
  }

  lemma MatchedStable(pool: seq<string>, bigger: seq<string>, like: LikeFn, t: TableState, c: Clause)
    requires TableOk(pool, t) && pool <= bigger
    ensures Wide(Env(t.cols, pool, like), t.rows) && Wide(Env(t.cols, bigger, like), t.rows)
    ensures Matched(bigger, like, t, c) == Matched(pool, like, t, c)
    ensures Definite(Env(t.cols, bigger, like), t.rows, c) <==> Definite(Env(t.cols, pool, like), t.rows, c)
  {
    var env := Env(t.cols, pool, like);
    assert env.(pool := bigger) == Env(t.cols, bigger, like);
    forall r | r in t.rows
      ensures |t.rows[r]| == |t.cols|
      ensures EvalClause(env.(pool := bigger), t.rows[r], c, None) == EvalClause(env, t.rows[r], c, None)
      ensures ClauseNoError(env.(pool := bigger), t.rows[r], c) == ClauseNoError(env, t.rows[r], c)
    {
      ClauseStable(env, bigger, t.rows[r], c, None);
    }
    hide EvalClause, ClauseNoError, Answered;
    AnsweredStable(env, bigger, t.rows, c);
    assert Matched(bigger, like, t, c) == Matched(pool, like, t, c);
  }

  lemma AnsweredStable(env: Env, bigger: seq<string>, rows: Rows, c: Clause)
    requires Wide(env, rows) && env.pool <= bigger && forall r | r in rows :: InternedRow(env.pool, rows[r])
    ensures Wide(env.(pool := bigger), rows)
    ensures forall r :: AnsweredBy(env.(pool := bigger), rows, c, r) <==> AnsweredBy(env, rows, c, r)
    ensures Answered(env.(pool := bigger), rows, c) <==> Answered(env, rows, c)
  {
    forall r | r in rows && c.Some? && Extract(env.cols, c.value).Some? && Extract(env.cols, c.value).value.0 < |env.cols|
      ensures AnsweredBy(env.(pool := bigger), rows, c, r) <==> AnsweredBy(env, rows, c, r)
    {
      var (ci, lit) := Extract(env.cols, c.value).value;
      assert rows[r][ci] in rows[r];
      LitCmpStable(env.pool, bigger, rows[r][ci], lit);
    }
    hide AnsweredBy;
  }

  lemma {:induction false} FilterStable(env: Env, bigger: seq<string>, rows: Rows, c: Clause, ids: seq<nat>, err: Err)
    requires Wide(env, rows) && Stored(rows, ids) && env.pool <= bigger
    requires forall r | r in rows :: InternedRow(env.pool, rows[r])
    ensures FilterRows(env.(pool := bigger), rows, c, ids, err) == FilterRows(env, rows, c, ids, err)
    decreases |ids|
  {
    if ids != [] {
      var e2 := env.(pool := bigger);
      FilterUnfold(env, rows, c, ids, err);
      FilterUnfold(e2, rows, c, ids, err);
      ClauseStable(env, bigger, rows[ids[0]], c, err);
      assert Wide(e2, rows);
      hide FilterRows, EvalClause;
      FilterStable(env, bigger, rows, c, ids[1..], EvalClause(env, rows[ids[0]], c, err).1);
    }
  }

  /** What can be picked does not depend on strings interned later. */
  lemma PicksStable(env: Env, bigger: seq<string>, rows: Rows, c: Clause, hits: set<nat>)
    requires Wide(env, rows) && env.pool <= bigger && Picks(env, rows, c, hits)
    requires forall r | r in rows :: InternedRow(env.pool, rows[r])
    ensures Wide(env.(pool := bigger), rows) && Picks(env.(pool := bigger), rows, c, hits)
  {
    var e2 := env.(pool := bigger);
    var ids :| PickedFrom(env, rows, c, ids, hits);
    assert Wide(e2, rows) && Stored(rows, ids);
    FilterStable(env, bigger, rows, c, ids, None);
    AnsweredStable(env, bigger, rows, c);
    hide FilterRows, AnsweredBy, Answered, Listing;
    assert PickedFrom(e2, rows, c, ids, hits);
  }

  lemma InsertStable(pool: seq<string>, bigger: seq<string>, t: TableState, names: seq<string>, tuples: seq<seq<Literal>>)
    requires PoolOk(pool) && PoolOk(bigger) && pool <= bigger && |pool| > 0
    requires forall k | 0 <= k < |tuples| :: TupleInterned(pool, tuples[k])
    ensures InsertEffect(bigger, t, names, tuples) == InsertEffect(pool, t, names, tuples)
  {
    hide RowOf, TupleInterned, PoolOk, AllAdmissible;
    forall k | 0 <= k < |tuples|
      ensures RowOf(t.cols, bigger, names, tuples[k]) == RowOf(t.cols, pool, names, tuples[k])
    {
      RowOfStable(t.cols, pool, bigger, names, tuples[k]);
    }
    if forall k | 0 <= k < |tuples| :: RowOf(t.cols, pool, names, tuples[k]).Some? {
      assert seq(|tuples|, k requires 0 <= k < |tuples| => RowOf(t.cols, pool, names, tuples[k]).value) ==
             seq(|tuples|, k requires 0 <= k < |tuples| => RowOf(t.cols, bigger, names, tuples[k]).value);
    }
  }

  lemma RowEffectStable(pool: seq<string>, bigger: seq<string>, like: LikeFn, t: TableState, st: Statement)
    requires PoolOk(pool) && PoolOk(bigger) && pool <= bigger && |pool| > 0
    requires TableOk(pool, t) && SettledTable(pool, like, t, st)
    ensures TableOk(bigger, t)
    ensures RowEffect(bigger, like, t, st) == RowEffect(pool, like, t, st)
  {
    TableOkStable(pool, bigger, t);
    match st
    case InsertInto(_, names, tuples) => InsertStable(pool, bigger, t, names, tuples);
    case UpdateSet(_, sets, c) =>
      MatchedStable(pool, bigger, like, t, c);
      hide TableOk, Matched, UpdateOk, Overwrite, SetsInterned, PoolOk;
      if Matched(pool, like, t, c) != {} && SetsKnown(t.cols, sets) { CellsStable(t.cols, pool, bigger, sets); }
    case DeleteFrom(_, c) => MatchedStable(pool, bigger, like, t, c);
    case _ =>
  }

  lemma ColumnsStable(pool: seq<string>, bigger: seq<string>, decls: seq<ColumnDecl>)
    requires PoolOk(pool) && PoolOk(bigger) && pool <= bigger && |pool| > 0 && DeclsSettled(pool, decls)
    ensures ColumnsOf(bigger, decls) == ColumnsOf(pool, decls)
  {
    forall i | 0 <= i < |decls|
      ensures ColumnOf(bigger, decls[i]) == ColumnOf(pool, decls[i])
    {
      if decls[i].default.Some? { LitValueKept(pool, bigger, decls[i].default.value); }
    }
  }

  /** Executed again when more strings have been interned, a statement has the same effect. */
  lemma EffectStable(pool: seq<string>, bigger: seq<string>, like: LikeFn, tabs: Tabs, st: Statement)
    requires TabsOk(pool, tabs) && PoolOk(bigger) && pool <= bigger && Settled(pool, like, tabs, st)
    ensures TabsOk(bigger, tabs)
    ensures Effect(bigger, like, tabs, st) == Effect(pool, like, tabs, st)
  {
    TabsOkStable(pool, bigger, tabs);
    hide TableOk, PoolOk, RowEffect, SettledTable, DeclsSettled, ColumnsOf;
    if st.CreateTable? {
      ColumnsStable(pool, bigger, st.decls);
    } else if st.name in tabs {
      RowEffectStable(pool, bigger, like, tabs[st.name], st);
    }
  }

  lemma DefiniteStable(pool: seq<string>, bigger: seq<string>, like: LikeFn, tabs: Tabs, st: Statement)
    requires TabsOk(pool, tabs) && PoolOk(bigger) && pool <= bigger
    ensures TabsOk(bigger, tabs)
    ensures DefiniteOn(bigger, like, tabs, st) <==> DefiniteOn(pool, like, tabs, st)
  {
    TabsOkStable(pool, bigger, tabs);
    if st.name in tabs {
      var t := tabs[st.name];
      match st
      case UpdateSet(_, _, c) => MatchedStable(pool, bigger, like, t, c);
      case DeleteFrom(_, c) => MatchedStable(pool, bigger, like, t, c);
      case _ =>
    }
  }
}
