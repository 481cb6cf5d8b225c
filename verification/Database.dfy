/** A database (src/core/database.cpp): tables by name over one shared pool, and the execution of statements
    that change it (src/exec/executor.cpp:236-325). */
module Databases {
  import opened Values
  import opened StringPools
  import opened TableSpec
  import opened WhereEval
  import opened Query
  import opened Selection
  import opened Tables
  import opened Execution
  import opened Mutation
  import opened Insertion
  import opened Statements
  import opened Outcomes
  import opened StatementMeanings

  function StateOf(tab: Table): TableState
    reads tab
  {
    TableState(tab.cols, tab.rows, tab.nextRid)
  }

  lemma ValidTableOk(tab: Table)
    requires tab.Valid() && DefaultsInterned(tab.pool.strings, tab.cols)
    ensures TableOk(tab.pool.strings, StateOf(tab)) && PoolOk(tab.pool.strings) && |tab.pool.strings| > 0
  {
    ValidIsUnique(tab);
    PoolNotEmpty(tab.pool.strings);
  }

  method InsertStatement(tab: Table, st: Statement, like: LikeFn) returns (ok: bool)
    requires tab.Valid() && DefaultsInterned(tab.pool.strings, tab.cols) && st.InsertInto?
    modifies tab, tab.Repr, tab.pool
    ensures tab.Valid() && fresh(tab.Repr - old(tab.Repr)) && old(tab.pool.strings) <= tab.pool.strings
    ensures TableOk(tab.pool.strings, old(StateOf(tab))) && |tab.pool.strings| > 0
    ensures RowOutcome(tab.pool.strings, like, old(StateOf(tab)), st, ok, StateOf(tab))
  {
    hide Table.Valid, Describe, AllAdmissible, AddRows, Refused, TupleInterned, TableOk, PoolOk, DefaultsInterned;
    ghost var before, strings := StateOf(tab), tab.pool.strings;
    ValidTableOk(tab);
    ghost var added;
    ok, added := InsertRows(tab, st.names, st.tuples);
    PoolNotEmpty(tab.pool.strings);
    TableOkStable(strings, tab.pool.strings, before);
    assert InsertLeft(tab.pool.strings, before, st.names, st.tuples, added, ok, StateOf(tab));
  }

  method UpdateStatement(tab: Table, st: Statement, like: LikeFn) returns (ok: bool)
    requires tab.Valid() && DefaultsInterned(tab.pool.strings, tab.cols) && st.UpdateSet?
    modifies tab, tab.Repr, tab.pool
    ensures tab.Valid() && fresh(tab.Repr - old(tab.Repr)) && old(tab.pool.strings) <= tab.pool.strings
    ensures TableOk(tab.pool.strings, old(StateOf(tab))) && |tab.pool.strings| > 0
    ensures RowOutcome(tab.pool.strings, like, old(StateOf(tab)), st, ok, StateOf(tab))
  {
    ghost var before, strings := StateOf(tab), tab.pool.strings;
    ghost var env := Env(tab.cols, strings, like);
    ValidTableOk(tab);
    hide Table.Valid, UpdateResult, Picks, Definite, Selected;
    ghost var picked;
    ok, picked := UpdateRows(tab, st.sets, NodesOf(st.c), RootOf(st.c), st.c, like);
    TableOkStable(strings, tab.pool.strings, before);
    PicksStable(env, tab.pool.strings, before.rows, st.c, picked);
    assert UpdateLeft(tab.pool.strings, like, before, st.sets, st.c, picked, ok, StateOf(tab));
  }

  method DeleteStatement(tab: Table, st: Statement, like: LikeFn) returns (ok: bool)
    requires tab.Valid() && DefaultsInterned(tab.pool.strings, tab.cols) && st.DeleteFrom?
    modifies tab, tab.Repr, tab.pool
    ensures tab.Valid() && fresh(tab.Repr - old(tab.Repr)) && old(tab.pool.strings) <= tab.pool.strings
    ensures TableOk(tab.pool.strings, old(StateOf(tab))) && |tab.pool.strings| > 0
    ensures RowOutcome(tab.pool.strings, like, old(StateOf(tab)), st, ok, StateOf(tab))
  {
    ghost var before, strings := StateOf(tab), tab.pool.strings;
    ghost var env := Env(tab.cols, strings, like);
    ValidTableOk(tab);
    hide Table.Valid, Picks, Definite, Selected;
    ghost var picked;
    ok, picked := DeleteRows(tab, NodesOf(st.c), RootOf(st.c), st.c, like);
    TableOkStable(strings, tab.pool.strings, before);
    PicksStable(env, tab.pool.strings, before.rows, st.c, picked);
    assert DeleteLeft(tab.pool.strings, like, before, st.c, picked, StateOf(tab));
  }

  method RowStatement(tab: Table, st: Statement, like: LikeFn) returns (ok: bool)
    requires tab.Valid() && DefaultsInterned(tab.pool.strings, tab.cols) && !st.CreateTable? && !st.DropTable?
    modifies tab, tab.Repr, tab.pool
    ensures tab.Valid() && fresh(tab.Repr - old(tab.Repr)) && old(tab.pool.strings) <= tab.pool.strings
    ensures TableOk(tab.pool.strings, old(StateOf(tab))) && |tab.pool.strings| > 0
    ensures RowOutcome(tab.pool.strings, like, old(StateOf(tab)), st, ok, StateOf(tab))
  {
    hide Table.Valid, RowOutcome, TableOk;
    match st
    case InsertInto(_, _, _) => ok := InsertStatement(tab, st, like);
    case UpdateSet(_, _, _) => ok := UpdateStatement(tab, st, like);
    case DeleteFrom(_, _) => ok := DeleteStatement(tab, st, like);
  }

  class Database {
    const pool: StringPool
    var tables: map<string, Table>

    /** The tables there are or were, and all they are made of. */
    ghost var Repr: set<object>

    ghost predicate Apart(t: Table, u: Table)
      reads t, u
    {
      t != u ==> t !in u.Repr && u !in t.Repr && t.Repr !! u.Repr
    }

    ghost predicate Owns(t: Table)
      reads this`Repr, t, Repr, pool
    {
      t in Repr && t.Repr <= Repr && t.pool == pool && t.Valid() && DefaultsInterned(pool.strings, t.cols)
    }

    ghost predicate Valid()
      reads this, Repr, pool, tables.Values
    {
      && pool.Valid() && pool !in Repr && this !in Repr
      && (forall n | n in tables :: Owns(tables[n]))
      && (forall n, m | n in tables && m in tables && n != m :: tables[n] != tables[m] && Apart(tables[n], tables[m]))
    }

    ghost function View(): Tabs
      reads this, tables.Values
    {
      map n | n in tables :: StateOf(tables[n])
    }

    constructor (pool: StringPool)
      requires pool.Valid()
      ensures Valid() && this.pool == pool && tables == map[] && Repr == {}
      ensures View() == map[]
    {
      this.pool := pool;
      tables := map[];
      Repr := {};
    }

    lemma ViewOk()
      requires Valid()
      ensures TabsOk(pool.strings, View())
    {
      PoolNotEmpty(pool.strings);
      forall n | n in tables
        ensures TableOk(pool.strings, View()[n])
      {
        assert Owns(tables[n]);
        ValidTableOk(tables[n]);
      }
    }

    /** After one table and the pool have changed, the other tables are as they were. */
    twostate lemma TableChanged(name: string)
      requires old(Valid()) && unchanged(this`tables) && name in tables
      requires var t := tables[name];
        && Owns(t) && fresh(t.Repr - old(t.Repr)) && Repr == old(Repr) + t.Repr
        && forall o | o in old(Repr) && o != t && o !in old(t.Repr) :: unchanged(o)
      requires pool.Valid() && old(pool.strings) <= pool.strings && old(allocated(pool))
      ensures Valid() && View() == old(View())[name := StateOf(tables[name])]
    {
      hide Table.Valid;
      var t := tables[name];
      forall n | n in tables
        ensures Owns(tables[n]) && (n != name ==> StateOf(tables[n]) == old(StateOf(tables[n])))
      {
        if n != name {
          assert old(Owns(tables[n])) && old(Owns(t)) && old(Apart(tables[n], t));
          tables[n].PoolGrew();
          DefaultsStay(old(pool.strings), pool.strings, tables[n].cols);
        }
      }
      forall n, m | n in tables && m in tables && n != m
        ensures tables[n] != tables[m] && Apart(tables[n], tables[m])
      {
        assert old(Apart(tables[n], tables[m])) && old(Apart(tables[n], t)) && old(Apart(tables[m], t));
        assert old(Owns(tables[n])) && old(Owns(tables[m]));
      }
    }

    /** `create_table`: a name in use is refused. */
    method AddTable(name: string, cols: seq<ColumnDef>) returns (ok: bool)
      requires Valid() && DefaultsInterned(pool.strings, cols)
      modifies this
      ensures Valid() && fresh(Repr - old(Repr)) && (ok <==> name !in old(tables))
      ensures View() == if ok then old(View())[name := TableState(cols, map[], 1)] else old(View())
    {
      hide Table.Valid;
      if name in tables {
        return false;
      }
      var t := new Table(cols, pool);
      assert forall n | n in tables :: Owns(tables[n]);
      tables := tables[name := t];
      Repr := Repr + {t} + t.Repr;
      TableAdded(name, t);
      ok := true;
    }

    twostate lemma TableAdded(name: string, new t: Table)
      requires old(Valid()) && name !in old(tables) && tables == old(tables)[name := t]
      requires t.pool == pool && t.Valid() && fresh(t) && fresh(t.Repr) && DefaultsInterned(pool.strings, t.cols)
      requires Repr == old(Repr) + {t} + t.Repr && (forall o | o in old(Repr) :: unchanged(o)) && unchanged(pool)
      requires pool !in t.Repr && this !in t.Repr
      ensures Valid() && View() == old(View())[name := StateOf(t)]
    {
      hide Table.Valid;
      forall n | n in tables
        ensures Owns(tables[n]) && (n != name ==> StateOf(tables[n]) == old(StateOf(tables[n])))
      {
        if n != name { assert old(Owns(tables[n])); }
      }
      forall n, m | n in tables && m in tables && n != m
        ensures tables[n] != tables[m] && Apart(tables[n], tables[m])
      {
        if n != name && m != name {
          assert old(Apart(tables[n], tables[m]));
          assert old(Owns(tables[n])) && old(Owns(tables[m]));
        } else if n != name {
          assert old(Owns(tables[n]));
        } else {
          assert old(Owns(tables[m]));
        }
      }
    }

    /** `drop_table`: an unknown name is refused. */
    method RemoveTable(name: string) returns (ok: bool)
      requires Valid()
      modifies this`tables
      ensures Valid() && (ok <==> name in old(tables))
      ensures View() == old(View()) - {name}
    {
      hide Table.Valid, Owns, Apart;
      ok := name in tables;
      tables := tables - {name};
    }

    /** The declared columns with their string defaults interned. */
    method DeclareColumns(decls: seq<ColumnDecl>) returns (cols: seq<ColumnDef>)
      requires pool.Valid()
      modifies pool
      ensures pool.Valid() && old(pool.strings) <= pool.strings && |pool.strings| > 0
      ensures cols == ColumnsOf(pool.strings, decls) && DefaultsInterned(pool.strings, cols)
      ensures DeclsSettled(pool.strings, decls) && Declared(pool.strings, cols, decls)
    {
      hide LitValue, PoolWith, Declared;
      cols := [];
      PoolNotEmpty(pool.strings);
      for i := 0 to |decls|
        invariant pool.Valid() && old(pool.strings) <= pool.strings && |pool.strings| > 0
        invariant cols == ColumnsOf(pool.strings, decls[..i]) && DefaultsInterned(pool.strings, cols)
        invariant DeclsSettled(pool.strings, decls[..i])
      {
        var d := decls[i];
        ghost var before := pool.strings;
        var value: Option<Value> := None;
        if d.default.Some? {
          var v := LitToVal(d.default.value, pool);
          LitInternedAfter(before, d.default.value);
          value := Some(v);
        }
        PoolNotEmpty(pool.strings);
        DeclsStay(before, pool.strings, decls[..i]);
        cols := cols + [ColumnDef(d.name, d.ty, d.notNull, d.indexed, value)];
        assert decls[..i + 1] == decls[..i] + [d];
        assert cols == ColumnsOf(pool.strings, decls[..i + 1]);
      }
      assert decls[..|decls|] == decls;
      ColumnsAreDeclared(pool.strings, decls);
    }

    /** CREATE TABLE; the defaults are interned even when the name is in use. */
    method Create(st: Statement, like: LikeFn) returns (ok: bool)
      requires Valid() && st.CreateTable?
      modifies this, pool
      ensures Valid() && fresh(Repr - old(Repr)) && old(pool.strings) <= pool.strings
      ensures TabsOk(pool.strings, old(View()))
      ensures Outcome(pool.strings, like, old(View()), st, ok, View())
    {
      ghost var before, strings := View(), pool.strings;
      hide Table.Valid, TableOk, DeclsSettled, ColumnsOf;
      ViewOk();
      var cols := DeclareColumns(st.decls);
      PoolOnly();
      TabsOkStable(strings, pool.strings, before);
      ok := AddTable(st.name, cols);
    }

    /** Interning strings leaves the whole database as it is. */
    twostate lemma PoolOnly()
      requires old(Valid()) && unchanged(this) && (forall o | o in old(Repr) :: unchanged(o))
      requires pool.Valid() && old(pool.strings) <= pool.strings
      ensures Valid() && View() == old(View())
    {
      hide Table.Valid;
      forall n | n in tables
        ensures Owns(tables[n]) && StateOf(tables[n]) == old(StateOf(tables[n]))
      {
        assert old(Owns(tables[n]));
        tables[n].PoolGrew();
        DefaultsStay(old(pool.strings), pool.strings, tables[n].cols);
      }
      forall n, m | n in tables && m in tables && n != m
        ensures tables[n] != tables[m] && Apart(tables[n], tables[m])
      {
        assert old(Apart(tables[n], tables[m])) && old(Owns(tables[n])) && old(Owns(tables[m]));
      }
    }

    /** INSERT, UPDATE or DELETE on a table that there is. */
    method ExecuteOn(st: Statement, like: LikeFn) returns (ok: bool)
      requires Valid() && st.name in tables && !st.CreateTable? && !st.DropTable?
      modifies this`Repr, Repr, pool
      ensures Valid() && fresh(Repr - old(Repr)) && old(pool.strings) <= pool.strings
      ensures TabsOk(pool.strings, old(View()))
      ensures Outcome(pool.strings, like, old(View()), st, ok, View())
    {
      hide Table.Valid, TableOk, RowOutcome;
      ghost var before, strings := View(), pool.strings;
      ViewOk();
      var t := tables[st.name];
      assert Owns(t) && before[st.name] == StateOf(t);
      ok := RowStatement(t, st, like);
      Repr := Repr + t.Repr;
      DefaultsStay(strings, pool.strings, t.cols);
      ValidPool(t);
      TableChanged(st.name);
      TabsOkStable(strings, pool.strings, before);
    }

    /** Executes a statement that changes the database: the outcome is one the statement can have, and for a
        definite clause the one effect it has, and exactly when it has one; a statement that succeeded has done what it
        says; the invariant survives in any case. */
    method Execute(st: Statement, like: LikeFn) returns (ok: bool)
      requires Valid()
      modifies this, Repr, pool
      ensures Valid() && fresh(Repr - old(Repr)) && old(pool.strings) <= pool.strings
      ensures TabsOk(pool.strings, old(View()))
      ensures Outcome(pool.strings, like, old(View()), st, ok, View())
      ensures DefiniteOn(pool.strings, like, old(View()), st) ==>
                Executed(pool.strings, like, old(View()), st, ok, View())
      ensures ok ==> Done(pool.strings, like, old(View()), st, View())
    {
      hide Table.Valid;
      ghost var before := View();
      ViewOk();
      if st.CreateTable? {
        ok := Create(st, like);
      } else if st.DropTable? {
        ok := RemoveTable(st.name);
      } else if st.name in tables {
        ok := ExecuteOn(st, like);
      } else {
        ok := false;
      }
      hide *;
      if DefiniteOn(pool.strings, like, before, st) { OutcomeIsEffect(pool.strings, like, before, st, ok, View()); }
      if ok { OutcomeIsDone(pool.strings, like, before, st, View()); }
    }
  }

  lemma ValidPool(t: Table)
    requires t.Valid()
    ensures t.pool.Valid() && PoolOk(t.pool.strings) && |t.pool.strings| > 0
  {
    PoolNotEmpty(t.pool.strings);
  }

  lemma DeclsStay(pool: seq<string>, bigger: seq<string>, decls: seq<ColumnDecl>)
    requires PoolOk(pool) && PoolOk(bigger) && pool <= bigger && |pool| > 0 && DeclsSettled(pool, decls)
    ensures DeclsSettled(bigger, decls) && ColumnsOf(bigger, decls) == ColumnsOf(pool, decls)
  {
    ColumnsStable(pool, bigger, decls);
    forall i | 0 <= i < |decls| && decls[i].default.Some?
      ensures PoolWith(bigger, decls[i].default.value) == bigger
    {
      LitStaysInterned(pool, bigger, decls[i].default.value);
    }
  }
}
