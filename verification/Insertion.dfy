/** INSERT on a table object (src/exec/executor.cpp:266-289): tuples become rows one by one, and the first
    that cannot be stored stops the statement with the earlier ones kept. */
module Insertion {
  import opened Values
  import opened StringPools
  import opened TableSpec
  import opened UpdateSpec
  import opened WhereSyntax
  import opened WhereEval
  import opened Denotations
  import opened Tables
  import opened Execution
  import opened Mutation

  /** The assignments a tuple makes: column names paired with literals. */
  function Zip(names: seq<string>, tup: seq<Literal>): (sets: Sets)
    requires |names| == |tup|
    ensures |sets| == |names| && forall k | 0 <= k < |names| :: sets[k] == (names[k], tup[k])
  {
    seq(|names|, k requires 0 <= k < |names| => (names[k], tup[k]))
  }

  function Nulls(n: nat): (r: Row)
    ensures |r| == n && forall i | 0 <= i < n :: r[i] == Null
  {
    seq(n, _ => Null)
  }

  /** NULL cells, also those assigned NULL explicitly, take their column's default if it has one. */
  function WithDefaults(cols: seq<ColumnDef>, row: Row): (r: Row)
    requires |row| == |cols|
    ensures |r| == |row|
    ensures forall i | 0 <= i < |row| ::
              r[i] == if row[i].Null? && cols[i].default.Some? then cols[i].default.value else row[i]
  {
    seq(|row|, i requires 0 <= i < |row| =>
      if row[i].Null? && cols[i].default.Some? then cols[i].default.value else row[i])
  }

  /** The row a tuple describes; none if its length is wrong or a column is unknown. */
  function RowOf(cols: seq<ColumnDef>, pool: seq<string>, names: seq<string>, tup: seq<Literal>): Option<Row>
    requires |pool| > 0
  {
    if |tup| != |names| || !SetsKnown(cols, Zip(names, tup)) then None
    else Some(WithDefaults(cols, Assign(Nulls(|cols|), CellsOf(cols, pool, Zip(names, tup)))))
  }

  lemma RowOfNone(cols: seq<ColumnDef>, pool: seq<string>, names: seq<string>, tup: seq<Literal>)
    requires |pool| > 0
    ensures RowOf(cols, pool, names, tup).Some? <==> WellNamed(cols, names, tup)
  {
    if |tup| == |names| {
      var sets := Zip(names, tup);
      SetsKnownIff(cols, sets);
      hide SetsKnown, Assign, Unknown;
      assert forall k | 0 <= k < |names| :: sets[k].0 == names[k];
      assert (forall k | 0 <= k < |sets| :: !Unknown(cols, sets[k].0)) <==> WellNamed(cols, names, tup);
    }
  }

  /** The row of a tuple, column by column: the literal last given for it unless that is NULL, then the default. */
  lemma RowOfAt(cols: seq<ColumnDef>, pool: seq<string>, names: seq<string>, tup: seq<Literal>, row: Row, i: nat)
    requires PoolOk(pool) && |pool| > 0 && TupleInterned(pool, tup) && RowOf(cols, pool, names, tup) == Some(row) && i < |cols|
    ensures |row| == |cols| && |tup| == |names|
    ensures forall k: nat | LastFor(cols, names, i, k) && tup[k] != NullLit :: Denotes(pool, row[i], tup[k])
    ensures Unset(cols, names, i) || (exists k: nat :: LastFor(cols, names, i, k) && tup[k] == NullLit) ==>
              row[i] == if cols[i].default.Some? then cols[i].default.value else Null
  {
    var sets := Zip(names, tup);
    assert SetsInterned(pool, sets);
    assert ColumnsIn(sets) == names;
    hide Assign, Unset, LastFor, LitValue;
    AssignedIs(cols, pool, sets, Nulls(|cols|), i);
    var filled := Assign(Nulls(|cols|), CellsOf(cols, pool, sets));
    assert row == WithDefaults(cols, filled);
    forall k: nat | LastFor(cols, names, i, k)
      ensures Denotes(pool, filled[i], tup[k])
    {
      LastIsPlace(cols, names, i, k);
      assert sets[k].1 == tup[k];
    }
    forall k: nat | LastFor(cols, names, i, k) && tup[k] != NullLit
      ensures Denotes(pool, row[i], tup[k])
    {
      assert Denotes(pool, filled[i], tup[k]);
    }
  }

  lemma LastIsPlace(cols: seq<ColumnDef>, names: seq<string>, i: nat, k: nat)
    requires LastFor(cols, names, i, k)
    ensures k < |names|
  {
  }

  lemma RowOfMeans(cols: seq<ColumnDef>, pool: seq<string>, names: seq<string>, tup: seq<Literal>, row: Row)
    requires PoolOk(pool) && |pool| > 0 && TupleInterned(pool, tup) && RowOf(cols, pool, names, tup) == Some(row)
    ensures TupleRow(cols, pool, names, tup, row)
  {
    RowOfNone(cols, pool, names, tup);
    forall i | 0 <= i < |cols|
      ensures forall k: nat | LastFor(cols, names, i, k) && tup[k] != NullLit :: Denotes(pool, row[i], tup[k])
      ensures Unset(cols, names, i) || (exists k: nat :: LastFor(cols, names, i, k) && tup[k] == NullLit) ==>
                row[i] == if cols[i].default.Some? then cols[i].default.value else Null
    {
      hide *;
      RowOfAt(cols, pool, names, tup, row, i);
    }
    hide Assign, Unset, LastFor, Denotes, WellNamed;
  }

  /** The rows stored one after the other under consecutive ids. */
  function AddRows(rows: Rows, next: nat, added: seq<Row>): Rows {
    if added == [] then rows
    else AddRows(rows, next, added[..|added| - 1])[next + |added| - 1 := added[|added| - 1]]
  }

  /** The row may be stored next. */
  ghost predicate Admissible(cols: seq<ColumnDef>, rows: Rows, row: Row) {
    ValidRow(cols, row) && !Clashes(cols, rows, row, 0)
  }

  /** Each row may be stored after those before it. */
  ghost predicate AllAdmissible(cols: seq<ColumnDef>, rows: Rows, next: nat, added: seq<Row>) {
    forall k | 0 <= k < |added| :: Admissible(cols, AddRows(rows, next, added[..k]), added[k])
  }

  lemma AddOne(cols: seq<ColumnDef>, rows: Rows, next: nat, added: seq<Row>, row: Row)
    requires AllAdmissible(cols, rows, next, added) && Admissible(cols, AddRows(rows, next, added), row)
    ensures AllAdmissible(cols, rows, next, added + [row])
    ensures AddRows(rows, next, added + [row]) == AddRows(rows, next, added)[next + |added| := row]
  {
    AddRowsSnoc(rows, next, added, row);
    hide Admissible, AddRows;
    var more := added + [row];
    forall k | 0 <= k < |more|
      ensures Admissible(cols, AddRows(rows, next, more[..k]), more[k])
    {
      assert more[..k] == added[..k];
      if k == |added| { assert added[..k] == added; }
    }
  }

  /** What the table holds then: the old rows, and the k-th new one under the k-th new id. */
  ghost predicate AddedRows(rows: Rows, next: nat, added: seq<Row>, now: Rows) {
    && (forall r :: r in now <==> r in rows || next <= r < next + |added|)
    && (forall r | r in rows :: r in now && now[r] == rows[r])
    && (forall k | 0 <= k < |added| :: next + k in now && now[next + k] == added[k])
  }

  lemma {:induction false} AddRowsAre(rows: Rows, next: nat, added: seq<Row>)
    requires forall r | r in rows :: r < next
    ensures AddedRows(rows, next, added, AddRows(rows, next, added))
    decreases |added|
  {
    if added != [] { AddRowsAre(rows, next, added[..|added| - 1]); }
  }

  lemma AddRowsSnoc(rows: Rows, next: nat, added: seq<Row>, row: Row)
    ensures AddRows(rows, next, added + [row]) == AddRows(rows, next, added)[next + |added| := row]
  {
    assert (added + [row])[..|added|] == added;
  }

  /** The tuples whose rows were stored describe exactly those rows. */
  ghost predicate Describe(cols: seq<ColumnDef>, pool: seq<string>, names: seq<string>, tuples: seq<seq<Literal>>, added: seq<Row>)
    requires |pool| > 0
  {
    |added| <= |tuples| && forall k | 0 <= k < |added| :: RowOf(cols, pool, names, tuples[k]) == Some(added[k])
  }

  /** All literals of the tuple are in the pool. */
  predicate TupleInterned(pool: seq<string>, tup: seq<Literal>)
    requires |pool| > 0
  {
    forall k | 0 <= k < |tup| :: PoolWith(pool, tup[k]) == pool
  }

  lemma RowOfStable(cols: seq<ColumnDef>, pool: seq<string>, bigger: seq<string>, names: seq<string>, tup: seq<Literal>)
    requires PoolOk(pool) && PoolOk(bigger) && pool <= bigger && TupleInterned(pool, tup)
    ensures RowOf(cols, bigger, names, tup) == RowOf(cols, pool, names, tup) && TupleInterned(bigger, tup)
  {
    forall k | 0 <= k < |tup|
      ensures PoolWith(bigger, tup[k]) == bigger
    {
      LitStaysInterned(pool, bigger, tup[k]);
    }
    if |tup| == |names| && SetsKnown(cols, Zip(names, tup)) {
      assert SetsInterned(pool, Zip(names, tup)) by {
        forall k | 0 <= k < |tup|
          ensures PoolWith(pool, Zip(names, tup)[k].1) == pool
        {
          assert PoolWith(pool, tup[k]) == pool;
        }
      }
      CellsStable(cols, pool, bigger, Zip(names, tup));
    }
  }

  /** Defaults are values of interned strings too. */
  predicate DefaultsInterned(pool: seq<string>, cols: seq<ColumnDef>) {
    forall i | 0 <= i < |cols| && cols[i].default.Some? :: Interned(pool, cols[i].default.value)
  }

  /** The row of one tuple. */
  method BuildRow(tab: Table, names: seq<string>, tup: seq<Literal>) returns (ok: bool, row: Row)
    requires tab.pool.Valid() && DefaultsInterned(tab.pool.strings, tab.cols)
    modifies tab.pool
    ensures tab.pool.Valid() && old(tab.pool.strings) <= tab.pool.strings
    ensures ok <==> RowOf(tab.cols, tab.pool.strings, names, tup).Some?
    ensures ok ==> RowOf(tab.cols, tab.pool.strings, names, tup) == Some(row) && InternedRow(tab.pool.strings, row)
    ensures ok ==> TupleInterned(tab.pool.strings, tup)
    ensures ok <==> WellNamed(tab.cols, names, tup)
    ensures ok ==> TupleRow(tab.cols, tab.pool.strings, names, tup, row)
  {
    row := Nulls(|tab.cols|);
    PoolNotEmpty(tab.pool.strings);
    RowOfNone(tab.cols, tab.pool.strings, names, tup);
    if |tup| != |names| {
      return false, row;
    }
    ghost var sets := Zip(names, tup);
    ok, row := AssignRow(tab, row, Zip(names, tup));
    if !ok {
      return;
    }
    ghost var filled := row;
    assert TupleInterned(tab.pool.strings, tup) by {
      assert forall k | 0 <= k < |tup| :: PoolWith(tab.pool.strings, sets[k].1) == tab.pool.strings;
    }
    hide Assign, Interned;
    for i := 0 to |tab.cols|
      invariant |row| == |tab.cols| && InternedRow(tab.pool.strings, row)
      invariant forall j | 0 <= j < i :: row[j] == WithDefaults(tab.cols, filled)[j]
      invariant forall j | i <= j < |row| :: row[j] == filled[j]
    {
      if row[i].Null? && tab.cols[i].default.Some? {
        row := row[i := tab.cols[i].default.value];
      }
    }
    assert row == WithDefaults(tab.cols, filled);
    PoolNotEmpty(tab.pool.strings);
    RowOfMeans(tab.cols, tab.pool.strings, names, tup, row);
  }

  /** The state of the insertion loop after the rows `added` were stored. */
  ghost predicate Inserting(cols: seq<ColumnDef>, pool: seq<string>, rows: Rows, next: nat, names: seq<string>,
                            tuples: seq<seq<Literal>>, added: seq<Row>, now: Rows, nowNext: nat)
  {
    && PoolOk(pool) && Describe(cols, pool, names, tuples, added)
    && (forall j | 0 <= j < |added| :: TupleInterned(pool, tuples[j]))
    && AllAdmissible(cols, rows, next, added)
    && now == AddRows(rows, next, added) && nowNext == next + |added|
  }

  lemma InsertingGrows(cols: seq<ColumnDef>, pool: seq<string>, bigger: seq<string>, rows: Rows, next: nat,
                       names: seq<string>, tuples: seq<seq<Literal>>, added: seq<Row>, now: Rows, nowNext: nat)
    requires Inserting(cols, pool, rows, next, names, tuples, added, now, nowNext) && PoolOk(bigger) && pool <= bigger
    ensures Inserting(cols, bigger, rows, next, names, tuples, added, now, nowNext)
  {
    hide RowOf, TupleInterned, AllAdmissible, AddRows, PoolOk;
    PoolNotEmpty(pool);
    PoolNotEmpty(bigger);
    forall j | 0 <= j < |added|
      ensures RowOf(cols, bigger, names, tuples[j]) == RowOf(cols, pool, names, tuples[j])
      ensures TupleInterned(bigger, tuples[j])
    {
      RowOfStable(cols, pool, bigger, names, tuples[j]);
    }
  }

  lemma PoolNotEmpty(pool: seq<string>)
    requires PoolOk(pool)
    ensures |pool| > 0
  {
  }

  lemma InsertingNext(cols: seq<ColumnDef>, pool: seq<string>, rows: Rows, next: nat, names: seq<string>,
                      tuples: seq<seq<Literal>>, added: seq<Row>, now: Rows, nowNext: nat, row: Row)
    requires Inserting(cols, pool, rows, next, names, tuples, added, now, nowNext) && |added| < |tuples|
    requires RowOf(cols, pool, names, tuples[|added|]) == Some(row) && TupleInterned(pool, tuples[|added|])
    requires Admissible(cols, now, row)
    ensures Inserting(cols, pool, rows, next, names, tuples, added + [row], now[nowNext := row], nowNext + 1)
  {
    hide RowOf, TupleInterned, AllAdmissible, AddRows, PoolOk, Admissible, Describe;
    PoolNotEmpty(pool);
    DescribeNext(cols, pool, names, tuples, added, row);
    AddOne(cols, rows, next, added, row);
  }

  lemma DescribeNext(cols: seq<ColumnDef>, pool: seq<string>, names: seq<string>, tuples: seq<seq<Literal>>,
                     added: seq<Row>, row: Row)
    requires |pool| > 0 && Describe(cols, pool, names, tuples, added) && |added| < |tuples|
    requires RowOf(cols, pool, names, tuples[|added|]) == Some(row)
    ensures Describe(cols, pool, names, tuples, added + [row])
  {
    hide RowOf;
    var more := added + [row];
    assert forall k | 0 <= k < |more| :: more[k] == if k < |added| then added[k] else row;
  }

  /** Why the loop stopped at a tuple: it is malformed, or its row may not be stored. */
  ghost predicate Refused(cols: seq<ColumnDef>, pool: seq<string>, names: seq<string>, tup: seq<Literal>, rows: Rows)
    requires |pool| > 0
  {
    match RowOf(cols, pool, names, tup)
    case None => true
    case Some(row) => !Admissible(cols, rows, row)
  }

  /** Stores the row of the next tuple, if it may be stored. */
  method InsertTuple(tab: Table, names: seq<string>, tuples: seq<seq<Literal>>, tup: seq<Literal>,
                     ghost rows: Rows, ghost next: nat, ghost added: seq<Row>)
    returns (ok: bool, ghost more: seq<Row>)
    requires tab.Valid() && DefaultsInterned(tab.pool.strings, tab.cols)
    requires Inserting(tab.cols, tab.pool.strings, rows, next, names, tuples, added, tab.rows, tab.nextRid)
    requires |added| < |tuples| && tup == tuples[|added|]
    modifies tab, tab.Repr, tab.pool
    ensures tab.Valid() && fresh(tab.Repr - old(tab.Repr)) && old(tab.pool.strings) <= tab.pool.strings
    ensures PoolOk(tab.pool.strings)
    ensures Inserting(tab.cols, tab.pool.strings, rows, next, names, tuples, more, tab.rows, tab.nextRid)
    ensures |more| == if ok then |added| + 1 else |added|
    ensures !ok ==> Refused(tab.cols, tab.pool.strings, names, tup, tab.rows)
  {
    ghost var before, now, nowNext := tab.pool.strings, tab.rows, tab.nextRid;
    assert tab.pool !in tab.Repr;
    hide Clashes, ValidRow, RowOf, TupleInterned, Inserting;
    more := added;
    var known, row := BuildRow(tab, names, tup);
    tab.PoolGrew();
    ValidIsUnique(tab);
    InsertingGrows(tab.cols, before, tab.pool.strings, rows, next, names, tuples, added, now, nowNext);
    hide Table.Valid;
    if !known {
      return false, added;
    }
    var rid, fault := tab.InsertRow(row);
    if rid == 0 {
      return false, added;
    }
    InsertingNext(tab.cols, tab.pool.strings, rows, next, names, tuples, added, now, nowNext, row);
    return true, added + [row];
  }

  // ----- when a failed INSERT leaves nothing behind

  /** The values are equal, or strings that the pool does not hold. */
  predicate Alike(pool: seq<string>, v: Value, w: Value) {
    v == w || (v.Str? && w.Str? && v.id >= |pool| && w.id >= |pool|)
  }

  predicate AlikeRows(pool: seq<string>, r: Row, s: Row) {
    |r| == |s| && forall i | 0 <= i < |r| :: Alike(pool, r[i], s[i])
  }

  predicate AlikeCells(pool: seq<string>, a: Cells, b: Cells) {
    |a| == |b| && forall k | 0 <= k < |a| :: a[k].0 == b[k].0 && Alike(pool, a[k].1, b[k].1)
  }

  lemma LitAlike(pool: seq<string>, bigger: seq<string>, l: Literal)
    requires PoolOk(pool) && PoolOk(bigger) && pool <= bigger && |pool| > 0
    ensures Alike(pool, LitValue(pool, l), LitValue(bigger, l))
  {
    if l.StrLit? {
      var s := l.s;
      if s in pool[1..] {
        InternKeepsPool(pool, s);
        SlotStable(pool, bigger, s);
      } else {
        assert SlotOf(pool, s) == |pool|;
        forall i | 1 <= i < |pool|
          ensures bigger[i] != s
        {
          assert bigger[i] == pool[i] == pool[1..][i - 1];
        }
        assert SlotOf(bigger, s) >= |pool|;
      }
    }
  }

  lemma {:induction false} AssignAlike(pool: seq<string>, r: Row, s: Row, a: Cells, b: Cells)
    requires AlikeRows(pool, r, s) && AlikeCells(pool, a, b) && InWidth(a, |r|) && InWidth(b, |s|)
    ensures AlikeRows(pool, Assign(r, a), Assign(s, b))
    decreases a
  {
    if a != [] {
      AssignStep(r, a);
      AssignStep(s, b);
      assert AlikeCells(pool, a[1..], b[1..]) by {
        assert forall k | 0 <= k < |a[1..]| :: a[1..][k] == a[k + 1] && b[1..][k] == b[k + 1];
      }
      AssignAlike(pool, r[a[0].0 := a[0].1], s[b[0].0 := b[0].1], a[1..], b[1..]);
    }
  }

  /** The rows and defaults a table holds are of interned strings, in full width. */
  predicate Storable(pool: seq<string>, cols: seq<ColumnDef>, rows: Rows) {
    (forall r | r in rows :: |rows[r]| == |cols| && InternedRow(pool, rows[r])) && DefaultsInterned(pool, cols)
  }

  lemma RowOfAlike(cols: seq<ColumnDef>, pool: seq<string>, bigger: seq<string>, names: seq<string>, tup: seq<Literal>)
    requires PoolOk(pool) && PoolOk(bigger) && pool <= bigger && |pool| > 0
    ensures var r, s := RowOf(cols, pool, names, tup), RowOf(cols, bigger, names, tup);
      (r.Some? <==> s.Some?) && (r.Some? ==> |r.value| == |cols| && AlikeRows(pool, r.value, s.value))
  {
    if |tup| == |names| && SetsKnown(cols, Zip(names, tup)) {
      var a, b := CellsOf(cols, pool, Zip(names, tup)), CellsOf(cols, bigger, Zip(names, tup));
      forall k | 0 <= k < |a|
        ensures a[k].0 == b[k].0 && Alike(pool, a[k].1, b[k].1)
      {
        LitAlike(pool, bigger, tup[k]);
      }
      hide LitValue, Assign;
      AssignAlike(pool, Nulls(|cols|), Nulls(|cols|), a, b);
    }
  }

  lemma AdmissibleAlike(cols: seq<ColumnDef>, pool: seq<string>, rows: Rows, r: Row, s: Row)
    requires Storable(pool, cols, rows) && AlikeRows(pool, r, s) && |r| == |cols|
    ensures Admissible(cols, rows, r) <==> Admissible(cols, rows, s)
  {
    forall i | 0 <= i < |cols|
      ensures CellFault(cols[i], r[i]) == CellFault(cols[i], s[i])
    {
      assert Alike(pool, r[i], s[i]);
    }
    forall i: nat, rid: nat | i < |cols| && rid in rows
      ensures ClashesAt(cols, rows, r, 0, i, rid) <==> ClashesAt(cols, rows, s, 0, i, rid)
    {
      assert Alike(pool, r[i], s[i]) && rows[rid][i] in rows[rid] && Interned(pool, rows[rid][i]);
    }
    assert Clashes(cols, rows, r, 0) <==> Clashes(cols, rows, s, 0);
  }

  /** Whether a table refuses a tuple does not depend on the strings interned for the tuple itself. */
  lemma RefusedStable(cols: seq<ColumnDef>, pool: seq<string>, bigger: seq<string>, names: seq<string>, tup: seq<Literal>,
                      rows: Rows)
    requires PoolOk(pool) && PoolOk(bigger) && pool <= bigger && |pool| > 0 && Storable(pool, cols, rows)
    ensures Refused(cols, bigger, names, tup, rows) <==> Refused(cols, pool, names, tup, rows)
  {
    hide RowOf, Admissible, Storable, AlikeRows;
    RowOfAlike(cols, pool, bigger, names, tup);
    var r, s := RowOf(cols, pool, names, tup), RowOf(cols, bigger, names, tup);
    if r.Some? { AdmissibleAlike(cols, pool, rows, r.value, s.value); }
  }

  lemma FailedInsertIff(start: seq<string>, pool: seq<string>, cols: seq<ColumnDef>, rows: Rows, next: nat,
                        names: seq<string>, tuples: seq<seq<Literal>>, added: seq<Row>, now: Rows)
    requires PoolOk(start) && PoolOk(pool) && start <= pool && |start| > 0 && Storable(start, cols, rows)
    requires |added| < |tuples| && Describe(cols, pool, names, tuples, added)
    requires AllAdmissible(cols, rows, next, added) && now == AddRows(rows, next, added)
    requires Refused(cols, pool, names, tuples[|added|], now)
    ensures now == rows && next + |added| == next <==> Refused(cols, start, names, tuples[0], rows)
  {
    RefusedStable(cols, start, pool, names, tuples[0], rows);
    hide RowOf, Admissible, Storable;
    if added == [] {
      assert now == rows;
    } else {
      assert RowOf(cols, pool, names, tuples[0]) == Some(added[0]);
      assert added[..0] == [] && AddRows(rows, next, []) == rows;
      assert Admissible(cols, AddRows(rows, next, added[..0]), added[0]);
    }
  }

  /** Two tuples with the same value of an indexed column: the first row stays although the statement fails. */
  lemma InsertKeepsPart(pool: seq<string>)
    requires PoolOk(pool) && |pool| > 0
    ensures var cols := [ColumnDef("a", IntCol, true, true, None)];
      var tuples: seq<seq<Literal>> := [[IntLit(1)], [IntLit(1)]];
      var added: seq<Row> := [[Int(1)]];
      && Describe(cols, pool, ["a"], tuples, added) && AllAdmissible(cols, map[], 1, added)
      && AddRows(map[], 1, added) == map[1 := [Int(1)]]
      && Refused(cols, pool, ["a"], tuples[1], AddRows(map[], 1, added))
      && !Refused(cols, pool, ["a"], tuples[0], map[])
  {
    var cols := [ColumnDef("a", IntCol, true, true, None)];
    var tuples: seq<seq<Literal>> := [[IntLit(1)], [IntLit(1)]];
    var row: Row := [Int(1)];
    var sets := Zip(["a"], [IntLit(1)]);
    assert SetsKnown(cols, sets);
    var cells := CellsOf(cols, pool, sets);
    assert cells == [(0, Int(1))] by { assert cells[0] == (0, Int(1)); }
    AssignOne(Nulls(1), (0, Int(1)));
    assert Nulls(1)[0 := Int(1)] == row;
    assert WithDefaults(cols, row) == row;
    assert RowOf(cols, pool, ["a"], [IntLit(1)]) == Some(row);
    hide RowOf, Assign, CellsOf;
    assert [row][..0] == [] && AddRows(map[], 1, []) == map[];
    var rows: Rows := map[1 := row];
    assert AddRows(map[], 1, [row]) == rows;
    assert ClashesAt(cols, rows, row, 0, 0, 1);
  }

  /** INSERT: stores a prefix of the tuples' rows under consecutive new ids. It succeeds exactly when that
      is all of them; otherwise the next tuple is malformed, or its row is invalid or repeats an
      indexed value, and the rows before it stay stored. So a failed INSERT leaves the table as it was if and
      only if its first tuple is refused by the table as it was. */
  method InsertRows(tab: Table, names: seq<string>, tuples: seq<seq<Literal>>) returns (ok: bool, ghost added: seq<Row>)
    requires tab.Valid() && DefaultsInterned(tab.pool.strings, tab.cols)
    modifies tab, tab.Repr, tab.pool
    ensures tab.Valid() && fresh(tab.Repr - old(tab.Repr)) && old(tab.pool.strings) <= tab.pool.strings
    ensures PoolOk(tab.pool.strings) && Describe(tab.cols, tab.pool.strings, names, tuples, added)
    ensures forall k | 0 <= k < |added| :: TupleInterned(tab.pool.strings, tuples[k])
    ensures AllAdmissible(tab.cols, old(tab.rows), old(tab.nextRid), added)
    ensures tab.rows == AddRows(old(tab.rows), old(tab.nextRid), added) && tab.nextRid == old(tab.nextRid) + |added|
    ensures AddedRows(old(tab.rows), old(tab.nextRid), added, tab.rows)
    ensures |added| <= |tuples| && forall k | 0 <= k < |added| :: TupleRow(tab.cols, tab.pool.strings, names, tuples[k], added[k])
    ensures ok <==> |added| == |tuples|
    ensures !ok ==> Refused(tab.cols, tab.pool.strings, names, tuples[|added|], tab.rows)
    ensures |old(tab.pool.strings)| > 0
    ensures !ok ==>
              (tab.rows == old(tab.rows) && tab.nextRid == old(tab.nextRid) <==>
               Refused(tab.cols, old(tab.pool.strings), names, tuples[0], old(tab.rows)))
  {
    hide *;
    ghost var start, rows, next := tab.pool.strings, tab.rows, tab.nextRid;
    added := [];
    InsertStarts(tab, names, tuples);
    for k := 0 to |tuples|
      invariant tab.Valid() && fresh(tab.Repr - old(tab.Repr)) && old(tab.pool.strings) <= tab.pool.strings
      invariant |added| == k && DefaultsInterned(tab.pool.strings, tab.cols)
      invariant Inserting(tab.cols, tab.pool.strings, rows, next, names, tuples, added, tab.rows, tab.nextRid)
    {
      ghost var before := tab.pool.strings;
      ok, added := InsertTuple(tab, names, tuples, tuples[k], rows, next, added);
      InsertingIs(tab.cols, tab.pool.strings, rows, next, names, tuples, added, tab.rows, tab.nextRid);
      if !ok {
        FailedInsertIff(start, tab.pool.strings, tab.cols, rows, next, names, tuples, added, tab.rows);
        InsertMeans(tab.cols, tab.pool.strings, rows, next, names, tuples, added, tab.rows, tab.nextRid);
        return;
      }
      DefaultsStay(before, tab.pool.strings, tab.cols);
    }
    InsertingIs(tab.cols, tab.pool.strings, rows, next, names, tuples, added, tab.rows, tab.nextRid);
    InsertMeans(tab.cols, tab.pool.strings, rows, next, names, tuples, added, tab.rows, tab.nextRid);
    ok := true;
  }

  lemma InsertStarts(tab: Table, names: seq<string>, tuples: seq<seq<Literal>>)
    requires tab.Valid() && DefaultsInterned(tab.pool.strings, tab.cols)
    ensures PoolOk(tab.pool.strings) && |tab.pool.strings| > 0 && Storable(tab.pool.strings, tab.cols, tab.rows)
    ensures Inserting(tab.cols, tab.pool.strings, tab.rows, tab.nextRid, names, tuples, [], tab.rows, tab.nextRid)
    ensures forall r | r in tab.rows :: r < tab.nextRid
  {
    ValidIsUnique(tab);
    PoolNotEmpty(tab.pool.strings);
  }

  lemma InsertingIs(cols: seq<ColumnDef>, pool: seq<string>, rows: Rows, next: nat, names: seq<string>,
                    tuples: seq<seq<Literal>>, added: seq<Row>, now: Rows, nowNext: nat)
    requires Inserting(cols, pool, rows, next, names, tuples, added, now, nowNext)
    ensures PoolOk(pool) && |pool| > 0 && Describe(cols, pool, names, tuples, added) && |added| <= |tuples|
    ensures forall j | 0 <= j < |added| :: TupleInterned(pool, tuples[j])
    ensures AllAdmissible(cols, rows, next, added) && now == AddRows(rows, next, added) && nowNext == next + |added|
  {
    hide RowOf, TupleInterned, AllAdmissible, AddRows;
  }

  lemma InsertMeans(cols: seq<ColumnDef>, pool: seq<string>, rows: Rows, next: nat, names: seq<string>,
                    tuples: seq<seq<Literal>>, added: seq<Row>, now: Rows, nowNext: nat)
    requires Inserting(cols, pool, rows, next, names, tuples, added, now, nowNext) && forall r | r in rows :: r < next
    ensures AddedRows(rows, next, added, now)
    ensures |added| <= |tuples| && forall k | 0 <= k < |added| :: TupleRow(cols, pool, names, tuples[k], added[k])
  {
    hide RowOf, TupleInterned, AllAdmissible, AddRows, AddedRows, PoolOk, TupleRow;
    AddRowsAre(rows, next, added);
    PoolNotEmpty(pool);
    forall k | 0 <= k < |added|
      ensures TupleRow(cols, pool, names, tuples[k], added[k])
    {
      RowOfMeans(cols, pool, names, tuples[k], added[k]);
    }
  }

  lemma DefaultExampleCells(cols: seq<ColumnDef>, pool: seq<string>, names: seq<string>, tup: seq<Literal>, id: nat)
    requires cols == ProductCols() && names == ["id", "title"] && tup == [IntLit(4), StrLit("Water")]
    requires |pool| > 0 && id == SlotOf(pool, "Water")
    ensures SetsKnown(cols, Zip(names, tup)) && CellsOf(cols, pool, Zip(names, tup)) == [(0, Int(4)), (1, Value.Str(id))]
  {
    hide ColumnIndex, SlotOf, ProductCols;
    ProductColumns();
    var sets := Zip(names, tup);
    assert sets[0] == ("id", IntLit(4)) && sets[1] == ("title", StrLit("Water"));
    var cells := CellsOf(cols, pool, sets);
    assert cells[0] == (0, Int(4)) && cells[1] == (1, Value.Str(id));
  }

  lemma ProductColumns()
    ensures ColumnIndex(ProductCols(), "id") == 0 && ColumnIndex(ProductCols(), "title") == 1 && |ProductCols()| == 3
  {
    hide ColumnIndex;
    NamesIs(ProductCols(), "id");
    NamesIs(ProductCols(), "title");
    assert Names(ProductCols(), "id", 0) && Names(ProductCols(), "title", 1);
  }

  function ProductCols(): seq<ColumnDef> {
    [ColumnDef("id", IntCol, true, true, None), ColumnDef("title", StringCol, true, false, None),
     ColumnDef("price", IntCol, false, false, Some(Int(0)))]
  }

  /** A tuple that leaves out a column with a default: (4, "Water") for id and title is stored with the price 0. */
  lemma DefaultFillsIn(pool: seq<string>)
    requires PoolOk(pool) && |pool| > 0
    ensures RowOf(ProductCols(), pool, ["id", "title"], [IntLit(4), StrLit("Water")]) ==
              Some([Int(4), Value.Str(SlotOf(pool, "Water")), Int(0)])
  {
    var cols, id := ProductCols(), SlotOf(pool, "Water");
    var names, tup := ["id", "title"], [IntLit(4), StrLit("Water")];
    DefaultExampleCells(cols, pool, names, tup, id);
    var first: (nat, Value) := (0, Int(4));
    var second: (nat, Value) := (1, Value.Str(id));
    var row := Nulls(3);
    AssignStep(row, [first, second]);
    assert [first, second][1..] == [second];
    AssignOne(row[0 := Int(4)], second);
    hide Assign, SlotOf, SetsKnown, CellsOf;
    var filled := row[0 := Int(4)][1 := Value.Str(id)];
    assert WithDefaults(cols, filled) == [Int(4), Value.Str(id), Int(0)];
  }

  lemma DefaultsStay(pool: seq<string>, bigger: seq<string>, cols: seq<ColumnDef>)
    requires pool <= bigger && DefaultsInterned(pool, cols)
    ensures DefaultsInterned(bigger, cols)
  {
  }
}
