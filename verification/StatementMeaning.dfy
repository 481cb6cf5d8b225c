/** What a statement that succeeded has done (src/exec/executor.cpp:236-325), said of the literals it was given, the
    declarations of its table and the contents of the rows, without the functions that compute it. */
module StatementMeanings {
  import opened Values
  import opened TableSpec
  import opened WhereSyntax
  import opened WhereEval
  import opened Denotations
  import opened Query
  import opened Selection
  import opened Mutation
  import opened Insertion
  import opened Statements
  import opened Outcomes

  /** The columns are as they were declared, a default being the literal given for it. */
  ghost predicate Declared(pool: seq<string>, cols: seq<ColumnDef>, decls: seq<ColumnDecl>) {
    && |cols| == |decls|
    && forall i | 0 <= i < |cols| ::
         && cols[i].name == decls[i].name && cols[i].ty == decls[i].ty
         && cols[i].notNull == decls[i].notNull && cols[i].indexed == decls[i].indexed
         && (cols[i].default.Some? <==> decls[i].default.Some?)
         && (cols[i].default.Some? ==> Denotes(pool, cols[i].default.value, decls[i].default.value))
  }

  /** The rows picked are rows whose contents satisfy the clause, and all of these if the clause is definite. */
  ghost predicate PickedRows(pool: seq<string>, like: LikeFn, t: TableState, c: Clause, picked: set<nat>)
    requires Wide(Env(t.cols, pool, like), t.rows)
  {
    var env := Env(t.cols, pool, like);
    picked <= Meant(env, t.rows, c) && (Definite(env, t.rows, c) ==> picked == Meant(env, t.rows, c))
  }

  ghost predicate Inserted(pool: seq<string>, t: TableState, names: seq<string>, tuples: seq<seq<Literal>>, added: seq<Row>,
                           after: TableState)
  {
    && |added| == |tuples| && (forall k | 0 <= k < |tuples| :: TupleRow(t.cols, pool, names, tuples[k], added[k]))
    && AddedRows(t.rows, t.next, added, after.rows) && after.next == t.next + |added| && after.cols == t.cols
  }

  ghost predicate Updated(pool: seq<string>, like: LikeFn, t: TableState, sets: Sets, c: Clause, picked: set<nat>, after: TableState)
    requires Wide(Env(t.cols, pool, like), t.rows)
  {
    && PickedRows(pool, like, t, c, picked) && UpdatedRows(t.cols, pool, sets, t.rows, picked, after.rows)
    && after.cols == t.cols && after.next == t.next
  }

  ghost predicate Deleted(pool: seq<string>, like: LikeFn, t: TableState, c: Clause, picked: set<nat>, after: TableState)
    requires Wide(Env(t.cols, pool, like), t.rows)
  {
    PickedRows(pool, like, t, c, picked) && after == t.(rows := t.rows - picked)
  }

  ghost predicate RowsDone(pool: seq<string>, like: LikeFn, t: TableState, st: Statement, after: TableState)
    requires Wide(Env(t.cols, pool, like), t.rows)
  {
    match st
    case InsertInto(_, names, tuples) => exists added :: Inserted(pool, t, names, tuples, added, after)
    case UpdateSet(_, sets, c) => exists picked :: Updated(pool, like, t, sets, c, picked, after)
    case DeleteFrom(_, c) => exists picked :: Deleted(pool, like, t, c, picked, after)
    case _ => true
  }

  /** What has become of the database when the statement succeeded. */
  ghost predicate Done(pool: seq<string>, like: LikeFn, before: Tabs, st: Statement, after: Tabs)
    requires TabsOk(pool, before)
  {
    match st
    case CreateTable(n, decls) =>
      n !in before && n in after && Declared(pool, after[n].cols, decls) && after == before[n := TableState(after[n].cols, map[], 1)]
    case DropTable(n) => n in before && after == before - {n}
    case _ =>
      && st.name in before && st.name in after && after == before[st.name := after[st.name]]
      && RowsDone(pool, like, before[st.name], st, after[st.name])
  }

  lemma ColumnsAreDeclared(pool: seq<string>, decls: seq<ColumnDecl>)
    requires PoolOk(pool) && |pool| > 0 && DeclsSettled(pool, decls)
    ensures Declared(pool, ColumnsOf(pool, decls), decls)
  {
    hide PoolOk, Denotes, LitValue, PoolWith;
    forall i | 0 <= i < |decls| && decls[i].default.Some?
      ensures Denotes(pool, LitValue(pool, decls[i].default.value), decls[i].default.value)
    {
      LitValueDenotes(pool, decls[i].default.value);
    }
  }

  lemma InsertIsDone(pool: seq<string>, t: TableState, names: seq<string>, tuples: seq<seq<Literal>>, added: seq<Row>,
                     after: TableState)
    requires PoolOk(pool) && |pool| > 0 && InsertLeft(pool, t, names, tuples, added, true, after)
    requires forall r | r in t.rows :: r < t.next
    ensures Inserted(pool, t, names, tuples, added, after)
  {
    hide RowOf, TupleInterned, AllAdmissible, AddRows, AddedRows, PoolOk, TupleRow;
    AddRowsAre(t.rows, t.next, added);
    forall k | 0 <= k < |added|
      ensures TupleRow(t.cols, pool, names, tuples[k], added[k])
    {
      RowOfMeans(t.cols, pool, names, tuples[k], added[k]);
    }
  }

  lemma PicksArePicked(pool: seq<string>, like: LikeFn, t: TableState, c: Clause, picked: set<nat>)
    requires Grounded(Env(t.cols, pool, like), t.rows)
    requires Wide(Env(t.cols, pool, like), t.rows) && Picks(Env(t.cols, pool, like), t.rows, c, picked)
    ensures PickedRows(pool, like, t, c, picked)
  {
    hide Picks, Definite, Selected, Grounded, Meant, Wide;
    PicksSelected(Env(t.cols, pool, like), t.rows, c, picked);
    SelectedIsMeant(Env(t.cols, pool, like), t.rows, c);
  }

  lemma OkBelow(pool: seq<string>, t: TableState)
    requires TableOk(pool, t)
    ensures forall r | r in t.rows :: r < t.next
  {
  }

  lemma RowOutcomeIsDone(pool: seq<string>, like: LikeFn, t: TableState, st: Statement, after: TableState)
    requires PoolOk(pool) && |pool| > 0 && TableOk(pool, t) && RowOutcome(pool, like, t, st, true, after)
    ensures Wide(Env(t.cols, pool, like), t.rows) && RowsDone(pool, like, t, st, after)
  {
    hide InsertLeft, UpdateResult, Picks, Grounded, TableOk, Inserted, PickedRows, UpdatedRows, Wide, PoolOk;
    OkGrounded(pool, like, t);
    GroundedIs(Env(t.cols, pool, like), t.rows);
    OkBelow(pool, t);
    match st
    case InsertInto(_, names, tuples) =>
      var added :| InsertLeft(pool, t, names, tuples, added, true, after);
      InsertIsDone(pool, t, names, tuples, added, after);
    case UpdateSet(_, sets, c) =>
      var picked :| UpdateLeft(pool, like, t, sets, c, picked, true, after);
      PicksArePicked(pool, like, t, c, picked);
      UpdateMeans(t.cols, pool, t.rows, sets, picked, after.rows);
      assert Updated(pool, like, t, sets, c, picked, after);
    case DeleteFrom(_, c) =>
      var picked :| DeleteLeft(pool, like, t, c, picked, after);
      PicksArePicked(pool, like, t, c, picked);
      assert Deleted(pool, like, t, c, picked, after);
    case _ =>
  }

  /** A statement that succeeded has done what it says. */
  lemma OutcomeIsDone(pool: seq<string>, like: LikeFn, before: Tabs, st: Statement, after: Tabs)
    requires TabsOk(pool, before) && Outcome(pool, like, before, st, true, after)
    ensures Done(pool, like, before, st, after)
  {
    hide RowOutcome, RowsDone, TableOk, DeclsSettled, ColumnsOf, Declared, PoolOk;
    if st.CreateTable? {
      ColumnsAreDeclared(pool, st.decls);
    } else if !st.DropTable? {
      RowOutcomeIsDone(pool, like, before[st.name], st, after[st.name]);
    }
  }
}
