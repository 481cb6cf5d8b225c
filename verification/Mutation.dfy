/** DELETE and UPDATE on a table object (src/exec/executor.cpp:290-325): loops that change the table row by
    row, and the changes to the whole table that they amount to. */
module Mutation {
  import opened Values
  import opened StringPools
  import opened TableSpec
  import opened UpdateSpec
  import opened PartialUpdates
  import opened WhereSyntax
  import opened WhereEval
  import opened Query
  import opened Selection
  import opened Denotations
  import opened Tables
  import opened Execution

  // ----- DELETE

  lemma DropNext(rows: Rows, ids: seq<nat>, k: nat)
    requires k < |ids| && Distinct(ids)
    ensures rows - Members(ids[..k]) - {ids[k]} == rows - Members(ids[..k + 1])
    ensures ids[k] !in Members(ids[..k])
  {
    assert ids[..k + 1] == ids[..k] + [ids[k]];
    MembersIff(ids[..k]);
    MembersIff(ids[..k + 1]);
    assert Members(ids[..k + 1]) == Members(ids[..k]) + {ids[k]};
  }

  /** Removes the listed rows one by one. */
  method DeleteAll(tab: Table, ids: seq<nat>) returns (ok: bool)
    requires tab.Valid() && Stored(tab.rows, ids) && Distinct(ids)
    modifies tab, tab.Repr
    ensures tab.Valid() && ok && tab.rows == old(tab.rows) - Members(ids) && tab.nextRid == old(tab.nextRid)
    ensures tab.Repr == old(tab.Repr)
  {
    hide Table.Valid;
    ghost var rows := tab.rows;
    assert Members(ids[..0]) == {};
    for k := 0 to |ids|
      invariant tab.Valid() && tab.rows == rows - Members(ids[..k])
      invariant tab.nextRid == old(tab.nextRid) && tab.Repr == old(tab.Repr)
    {
      DropNext(rows, ids, k);
      ok := tab.DeleteRow(ids[k]);
      if !ok {
        return;
      }
    }
    assert ids[..|ids|] == ids;
    ok := true;
  }

  /** DELETE: it always succeeds and leaves exactly the rows that it did not pick; for a definite clause those
      picked are the rows selected alone. */
  method DeleteRows(tab: Table, w: seq<WhereNode>, root: int, ghost c: Clause, like: LikeFn)
    returns (ok: bool, ghost picked: set<nat>)
    requires tab.Valid() && w == NodesOf(c) && root == RootOf(c)
    modifies tab, tab.Repr, tab.pool
    ensures tab.Valid() && ok && tab.nextRid == old(tab.nextRid) && tab.Repr == old(tab.Repr)
    ensures old(tab.pool.strings) <= tab.pool.strings
    ensures var env := Env(tab.cols, old(tab.pool.strings), like);
            && Wide(env, old(tab.rows))
            && Picks(env, old(tab.rows), c, picked)
            && tab.rows == old(tab.rows) - picked
            && picked <= Selected(env, old(tab.rows), c) == Meant(env, old(tab.rows), c)
            && (Definite(env, old(tab.rows), c) ==> picked == Selected(env, old(tab.rows), c))
  {
    ghost var env := Env(tab.cols, tab.pool.strings, like);
    ghost var rows := tab.rows;
    TableGrounded(tab, like);
    assert Wide(env, rows) && forall r | r in rows :: InternedRow(env.pool, rows[r]);
    hide Table.Valid, Proposed, Complete, Picks, Definite, Selected, FilterRows, Grounded;
    var ids := CandidateRows(tab, w, root, c, like);
    ProposedSelects(env, rows, c, ids);
    var del, err := FilterIds(tab, w, root, c, ids, like, env.pool);
    FilterWithin(env, rows, c, ids, None);
    picked := Members(del);
    ProposalPicks(env, rows, c, ids);
    SelectedIsMeant(env, rows, c);
    ok := DeleteAll(tab, del);
  }

  // ----- UPDATE

  type Sets = seq<(string, Literal)>

  /** Every column of the SET list exists. */
  predicate SetsKnown(cols: seq<ColumnDef>, sets: Sets) {
    forall k | 0 <= k < |sets| :: ColumnIndex(cols, sets[k].0) >= 0
  }

  /** The literals of the SET list are in the pool already. */
  predicate SetsInterned(pool: seq<string>, sets: Sets)
    requires |pool| > 0
  {
    forall k | 0 <= k < |sets| :: PoolWith(pool, sets[k].1) == pool
  }

  /** The cells that the SET list assigns. */
  function CellsOf(cols: seq<ColumnDef>, pool: seq<string>, sets: Sets): (cells: Cells)
    requires |pool| > 0 && SetsKnown(cols, sets)
    ensures |cells| == |sets| && InWidth(cells, |cols|)
    ensures forall k | 0 <= k < |sets| :: cells[k] == (ColumnIndex(cols, sets[k].0), LitValue(pool, sets[k].1))
  {
    seq(|sets|, k requires 0 <= k < |sets| =>
      assert ColumnIndex(cols, sets[k].0) >= 0;
      (ColumnIndex(cols, sets[k].0), LitValue(pool, sets[k].1)))
  }

  function ColumnsIn(sets: Sets): (names: seq<string>)
    ensures |names| == |sets| && forall k | 0 <= k < |sets| :: names[k] == sets[k].0
  {
    seq(|sets|, k requires 0 <= k < |sets| => sets[k].0)
  }

  function LiteralsIn(sets: Sets): (lits: seq<Literal>)
    ensures |lits| == |sets| && forall k | 0 <= k < |sets| :: lits[k] == sets[k].1
  {
    seq(|sets|, k requires 0 <= k < |sets| => sets[k].1)
  }

  lemma SetsKnownIff(cols: seq<ColumnDef>, sets: Sets)
    ensures SetsKnown(cols, sets) <==> forall k | 0 <= k < |sets| :: !Unknown(cols, sets[k].0)
  {
    hide ColumnIndex, Unknown;
    forall k | 0 <= k < |sets|
      ensures ColumnIndex(cols, sets[k].0) >= 0 <==> !Unknown(cols, sets[k].0)
    {
      NamesIs(cols, sets[k].0);
    }
  }

  /** The cells assigned, column by column: the last literal given for it, or what was there before. */
  lemma AssignedIs(cols: seq<ColumnDef>, pool: seq<string>, sets: Sets, row: Row, i: nat)
    requires PoolOk(pool) && |pool| > 0 && SetsKnown(cols, sets) && SetsInterned(pool, sets) && |row| == |cols| && i < |cols|
    ensures var after := Assign(row, CellsOf(cols, pool, sets));
      && (Unset(cols, ColumnsIn(sets), i) ==> after[i] == row[i])
      && (forall k: nat | LastFor(cols, ColumnsIn(sets), i, k) ::
            after[i] == LitValue(pool, sets[k].1) && Denotes(pool, after[i], sets[k].1))
  {
    hide ColumnIndex, LitValue, PoolWith, Denotes, Assign, PoolOk;
    var cells := CellsOf(cols, pool, sets);
    forall k | 0 <= k < |sets|
      ensures cells[k].0 == i <==> Names(cols, sets[k].0, i)
    {
      NamesIs(cols, sets[k].0);
    }
    AssignCell(row, row, cells, i);
    forall k: nat | LastFor(cols, ColumnsIn(sets), i, k)
      ensures Assign(row, cells)[i] == LitValue(pool, sets[k].1) && Denotes(pool, LitValue(pool, sets[k].1), sets[k].1)
    {
      AssignLast(row, cells, i, k);
      LitValueDenotes(pool, sets[k].1);
    }
  }

  lemma AssignedMeans(cols: seq<ColumnDef>, pool: seq<string>, sets: Sets, row: Row)
    requires PoolOk(pool) && |pool| > 0 && SetsKnown(cols, sets) && SetsInterned(pool, sets) && |row| == |cols|
    ensures NewVersion(cols, pool, ColumnsIn(sets), LiteralsIn(sets), row, Assign(row, CellsOf(cols, pool, sets)))
  {
    forall i | 0 <= i < |cols|
      ensures Unset(cols, ColumnsIn(sets), i) ==> Assign(row, CellsOf(cols, pool, sets))[i] == row[i]
      ensures forall k: nat | LastFor(cols, ColumnsIn(sets), i, k) ::
                Denotes(pool, Assign(row, CellsOf(cols, pool, sets))[i], LiteralsIn(sets)[k])
    {
      hide *;
      AssignedIs(cols, pool, sets, row, i);
    }
    hide Assign, Denotes, LastFor, Unset;
  }

  lemma CellsStable(cols: seq<ColumnDef>, pool: seq<string>, bigger: seq<string>, sets: Sets)
    requires PoolOk(pool) && PoolOk(bigger) && pool <= bigger && SetsKnown(cols, sets) && SetsInterned(pool, sets)
    ensures CellsOf(cols, bigger, sets) == CellsOf(cols, pool, sets)
    ensures SetsInterned(bigger, sets)
  {
    forall k | 0 <= k < |sets|
      ensures LitValue(bigger, sets[k].1) == LitValue(pool, sets[k].1) && PoolWith(bigger, sets[k].1) == bigger
    {
      assert PoolWith(pool, sets[k].1) == pool;
      LitStaysInterned(pool, bigger, sets[k].1);
      LitValueKept(pool, bigger, sets[k].1);
    }
  }

  lemma LitStaysInterned(pool: seq<string>, bigger: seq<string>, l: Literal)
    requires PoolOk(pool) && PoolOk(bigger) && pool <= bigger && PoolWith(pool, l) == pool
    ensures PoolWith(bigger, l) == bigger
  {
    if l.StrLit? {
      InternKeepsPool(pool, l.s);
      SlotStable(pool, bigger, l.s);
    }
  }

  lemma LitInternedAfter(pool: seq<string>, l: Literal)
    requires PoolOk(pool)
    ensures PoolWith(PoolWith(pool, l), l) == PoolWith(pool, l)
  {
    if l.StrLit? { InternKeepsPool(pool, l.s); }
  }

  lemma AssignStep(row: Row, cells: Cells)
    requires InWidth(cells, |row|) && cells != []
    ensures InWidth(cells[1..], |row|) && cells[0].0 < |row|
    ensures Assign(row, cells) == Assign(row[cells[0].0 := cells[0].1], cells[1..])
  {
    assert forall k | 0 <= k < |cells[1..]| :: cells[1..][k] == cells[k + 1];
  }

  lemma AssignOne(row: Row, x: (nat, Value))
    requires x.0 < |row|
    ensures InWidth([x], |row|) && Assign(row, [x]) == row[x.0 := x.1]
  {
    AssignStep(row, [x]);
  }

  lemma {:induction false} AssignAppend(row: Row, a: Cells, x: (nat, Value))
    requires InWidth(a, |row|) && x.0 < |row|
    ensures InWidth(a + [x], |row|)
    ensures Assign(row, a + [x]) == Assign(row, a)[x.0 := x.1]
    decreases a
  {
    if a == [] {
      assert a + [x] == [x];
      AssignOne(row, x);
    } else {
      hide Assign;
      assert (a + [x])[1..] == a[1..] + [x] && (a + [x])[0] == a[0];
      AssignStep(row, a);
      AssignStep(row, a + [x]);
      AssignAppend(row[a[0].0 := a[0].1], a[1..], x);
    }
  }

  /** The new version after the first k assignments. */
  ghost predicate Assigning(cols: seq<ColumnDef>, pool: seq<string>, row: Row, sets: Sets, k: nat, r: Row) {
    && PoolOk(pool) && |row| == |cols| && k <= |sets|
    && SetsKnown(cols, sets[..k]) && SetsInterned(pool, sets[..k]) && InternedRow(pool, r)
    && r == Assign(row, CellsOf(cols, pool, sets[..k]))
  }

  lemma AssigningNext(cols: seq<ColumnDef>, pool: seq<string>, bigger: seq<string>, row: Row, sets: Sets, k: nat, r: Row)
    requires Assigning(cols, pool, row, sets, k, r) && k < |sets| && PoolOk(bigger)
    requires bigger == PoolWith(pool, sets[k].1) && pool <= bigger && Interned(bigger, LitValue(bigger, sets[k].1))
    requires ColumnIndex(cols, sets[k].0) >= 0 && |r| == |cols|
    ensures Assigning(cols, bigger, row, sets, k + 1, r[ColumnIndex(cols, sets[k].0) := LitValue(bigger, sets[k].1)])
  {
    hide Assign, LitValue, PoolWith, Interned;
    var x := (ColumnIndex(cols, sets[k].0), LitValue(bigger, sets[k].1));
    CellsStable(cols, pool, bigger, sets[..k]);
    LitInternedAfter(pool, sets[k].1);
    SetsNext(cols, bigger, sets, k);
    hide SetsKnown, SetsInterned, CellsOf, InternedRow, ColumnIndex;
    AssignAppend(row, CellsOf(cols, bigger, sets[..k]), x);
    InternedStays(pool, bigger, r);
    InternedUpdate(bigger, r, x.0, x.1);
  }

  lemma SetsNext(cols: seq<ColumnDef>, pool: seq<string>, sets: Sets, k: nat)
    requires |pool| > 0 && k < |sets| && SetsKnown(cols, sets[..k]) && SetsInterned(pool, sets[..k])
    requires ColumnIndex(cols, sets[k].0) >= 0 && PoolWith(pool, sets[k].1) == pool
    ensures SetsKnown(cols, sets[..k + 1]) && SetsInterned(pool, sets[..k + 1])
    ensures CellsOf(cols, pool, sets[..k + 1]) ==
              CellsOf(cols, pool, sets[..k]) + [(ColumnIndex(cols, sets[k].0), LitValue(pool, sets[k].1))]
  {
    hide LitValue, PoolWith, ColumnIndex;
    assert sets[..k + 1] == sets[..k] + [sets[k]];
  }

  /** The new version of a row, cell by cell; an unknown column stops it. */
  method AssignRow(tab: Table, row: Row, sets: Sets) returns (ok: bool, r: Row)
    requires tab.pool.Valid() && |row| == |tab.cols| && InternedRow(tab.pool.strings, row)
    modifies tab.pool
    ensures tab.pool.Valid() && old(tab.pool.strings) <= tab.pool.strings
    ensures ok <==> SetsKnown(tab.cols, sets)
    ensures ok ==> SetsInterned(tab.pool.strings, sets) && InternedRow(tab.pool.strings, r)
    ensures ok ==> r == Assign(row, CellsOf(tab.cols, tab.pool.strings, sets))
  {
    r := row;
    for k := 0 to |sets|
      invariant tab.pool.Valid() && old(tab.pool.strings) <= tab.pool.strings && |r| == |tab.cols|
      invariant Assigning(tab.cols, tab.pool.strings, row, sets, k, r)
    {
      hide Assign, LitValue, PoolWith, Assigning;
      ghost var before := tab.pool.strings;
      var ix := tab.ColumnNumber(sets[k].0);
      if ix < 0 {
        return false, row;
      }
      var v := LitToVal(sets[k].1, tab.pool);
      AssigningNext(tab.cols, before, tab.pool.strings, row, sets, k, r);
      r := r[ix := v];
    }
    assert sets[..|sets|] == sets;
    ok := true;
  }

  lemma InternedUpdate(pool: seq<string>, row: Row, i: nat, v: Value)
    requires InternedRow(pool, row) && i < |row| && Interned(pool, v)
    ensures InternedRow(pool, row[i := v])
  {
    hide Interned;
  }

  /** One turn of the update loop. */
  method UpdateOne(tab: Table, rid: nat, sets: Sets) returns (ok: bool)
    requires tab.Valid() && rid in tab.rows
    modifies tab, tab.Repr, tab.pool
    ensures tab.Valid() && fresh(tab.Repr - old(tab.Repr)) && tab.nextRid == old(tab.nextRid)
    ensures old(tab.pool.strings) <= tab.pool.strings && |old(tab.rows[rid])| == |tab.cols|
    ensures ok ==> SetsKnown(tab.cols, sets)
    ensures SetsKnown(tab.cols, sets) ==>
              var row := Assign(old(tab.rows[rid]), CellsOf(tab.cols, tab.pool.strings, sets));
              && SetsInterned(tab.pool.strings, sets)
              && (ok <==> ValidRow(tab.cols, row) && !Clashes(tab.cols, old(tab.rows), row, rid))
              && (ok ==> tab.rows == old(tab.rows)[rid := row])
    ensures !ok ==> tab.rows == old(tab.rows)
  {
    assert tab.pool !in tab.Repr;
    hide Clashes, ValidRow, Assign;
    var known, row := AssignRow(tab, tab.rows[rid], sets);
    tab.PoolGrew();
    hide Table.Valid;
    if !known {
      return false;
    }
    var fault;
    ok, fault := tab.UpdateRow(rid, row);
  }

  /** The state of the update loop after the rows `done` were overwritten. */
  ghost predicate Overwritten(cols: seq<ColumnDef>, pool: seq<string>, before: Rows, sets: Sets, done: seq<nat>, now: Rows)
    requires |pool| > 0
  {
    && (forall r | r in before :: |before[r]| == |cols|)
    && Stored(before, done) && now.Keys == before.Keys
    && (forall r | r in before && r !in done :: now[r] == before[r])
    && (done == [] ==> now == before)
    && (done != [] ==>
          && SetsKnown(cols, sets) && SetsInterned(pool, sets)
          && UpdateLoop(cols, before, CellsOf(cols, pool, sets), done) == Some(now))
  }

  lemma OverwrittenGrows(cols: seq<ColumnDef>, pool: seq<string>, bigger: seq<string>, before: Rows, sets: Sets,
                         done: seq<nat>, now: Rows)
    requires PoolOk(pool) && PoolOk(bigger) && pool <= bigger && Overwritten(cols, pool, before, sets, done, now)
    ensures Overwritten(cols, bigger, before, sets, done, now)
  {
    hide UpdateLoop;
    if done != [] { CellsStable(cols, pool, bigger, sets); }
  }

  /** One more row overwritten. */
  lemma OverwrittenNext(cols: seq<ColumnDef>, pool: seq<string>, before: Rows, sets: Sets, done: seq<nat>, now: Rows, rid: nat)
    requires |pool| > 0 && Overwritten(cols, pool, before, sets, done, now) && rid in before && rid !in done
    requires SetsKnown(cols, sets) && SetsInterned(pool, sets)
    ensures |now[rid]| == |cols|
    ensures var cells := CellsOf(cols, pool, sets);
            var row := Assign(now[rid], cells);
            && Stored(before, done + [rid])
            && (ValidRow(cols, row) && !Clashes(cols, now, row, rid) ==>
                  Overwritten(cols, pool, before, sets, done + [rid], now[rid := row]))
            && (!(ValidRow(cols, row) && !Clashes(cols, now, row, rid)) ==>
                  UpdateLoop(cols, before, cells, done + [rid]) == None)
  {
    var cells := CellsOf(cols, pool, sets);
    UpdateLoopAppend(cols, before, cells, done, [rid]);
    if done == [] {
      assert UpdateLoop(cols, before, cells, done) == Some(before);
    }
    hide UpdateLoop, ValidRow, Clashes, Assign;
    UpdateLoopOne(cols, now, cells, rid);
  }

  /** The verdict of the loop over all matched rows, in whatever order, is the verdict on their set. */
  lemma UpdateVerdict(cols: seq<ColumnDef>, before: Rows, cells: Cells, done: seq<nat>, rest: seq<nat>, matched: set<nat>)
    requires UniqueRows(cols, before) && InWidth(cells, |cols|) && Stored(before, done) && Stored(before, rest)
    requires Distinct(done + rest) && Members(done + rest) == matched
    ensures matched <= before.Keys
    ensures UpdateLoop(cols, before, cells, done) == None ==> !UpdateOk(cols, before, cells, matched)
    ensures rest == [] ==>
              var o := UpdateLoop(cols, before, cells, done);
              (o.Some? <==> UpdateOk(cols, before, cells, matched)) &&
              (o.Some? ==> o.value == Overwrite(before, cells, matched, |cols|))
  {
    UpdateLoopAppend(cols, before, cells, done, rest);
    hide UpdateLoop, UpdateOk, Members, Distinct, Overwrite;
    UpdateLoopIsOverwrite(cols, before, cells, done + rest);
    if rest == [] { assert done + rest == done; }
  }

  /** What UPDATE does to a set of matched rows: all of them overwritten, or, when it fails, those overwritten
      before the one that stopped it; an unknown column stops it before the first. */
  ghost predicate UpdateResult(cols: seq<ColumnDef>, pool: seq<string>, before: Rows, sets: Sets,
                               matched: set<nat>, ok: bool, after: Rows)
    requires |pool| > 0
  {
    && (forall r | r in before :: |before[r]| == |cols|) && matched <= before.Keys
    && (matched == {} ==> ok && after == before)
    && (matched != {} && ok ==> SetsInterned(pool, sets))
    && (matched != {} && !SetsKnown(cols, sets) ==> !ok)
    && (matched != {} && SetsKnown(cols, sets) ==>
          var cells := CellsOf(cols, pool, sets);
          && (ok <==> UpdateOk(cols, before, cells, matched))
          && (ok ==> after == Overwrite(before, cells, matched, |cols|))
          && (!ok ==> Interrupted(cols, before, cells, matched, after)))
    && (!SetsKnown(cols, sets) ==> after == before)
  }

  /** The loop ended: every matched row was overwritten. */
  lemma UpdateDone(cols: seq<ColumnDef>, pool: seq<string>, before: Rows, sets: Sets, done: seq<nat>, now: Rows)
    requires PoolOk(pool) && UniqueRows(cols, before) && Distinct(done)
    requires Overwritten(cols, pool, before, sets, done, now)
    ensures UpdateResult(cols, pool, before, sets, Members(done), true, now)
  {
    if done == [] {
      assert Members(done) == {};
    } else {
      assert done[0] in Members(done);
      assert done + [] == done;
      hide UpdateLoop, UpdateOk, Members, Distinct, Overwrite;
      UpdateVerdict(cols, before, CellsOf(cols, pool, sets), done, [], Members(done));
    }
  }

  /** The loop stopped at a matched row that could not be overwritten. */
  lemma UpdateStopped(cols: seq<ColumnDef>, pool: seq<string>, before: Rows, sets: Sets, done: seq<nat>, rid: nat,
                      rest: seq<nat>, now: Rows)
    requires PoolOk(pool) && UniqueRows(cols, before) && Distinct(done + [rid] + rest)
    requires Overwritten(cols, pool, before, sets, done, now) && rid in before && rid !in done && Stored(before, rest)
    requires |now[rid]| == |cols|
    requires SetsKnown(cols, sets) ==>
               && SetsInterned(pool, sets)
               && var row := Assign(now[rid], CellsOf(cols, pool, sets));
                  !(ValidRow(cols, row) && !Clashes(cols, now, row, rid))
    ensures UpdateResult(cols, pool, before, sets, Members(done + [rid] + rest), false, now)
  {
    var all := done + [rid] + rest;
    assert all[|done|] == rid && rid in Members(all);
    assert all[..|done|] == done;
    DonePart(all, |done|, Members(all));
    assert done == [] ==> UpdateLoop(cols, before, [], done) == Some(before);
    hide UpdateLoop, UpdateOk, Distinct, Overwrite, ValidRow, Clashes, Assign;
    assert Members(all) <= before.Keys by { StoredMembers(before, done, rid, rest); }
    if SetsKnown(cols, sets) {
      var cells := CellsOf(cols, pool, sets);
      OverwrittenNext(cols, pool, before, sets, done, now, rid);
      UpdateVerdict(cols, before, cells, done + [rid], rest, Members(all));
      OverwrittenLoop(cols, pool, before, sets, done, now);
      LoopInterrupted(cols, before, cells, Members(all), done, rid, now);
    }
  }

  lemma OverwrittenLoop(cols: seq<ColumnDef>, pool: seq<string>, before: Rows, sets: Sets, done: seq<nat>, now: Rows)
    requires |pool| > 0 && Overwritten(cols, pool, before, sets, done, now) && SetsKnown(cols, sets)
    ensures UpdateLoop(cols, before, CellsOf(cols, pool, sets), done) == Some(now)
  {
  }

  lemma StoredMembers(rows: Rows, a: seq<nat>, r: nat, b: seq<nat>)
    requires Stored(rows, a) && r in rows && Stored(rows, b)
    ensures Members(a + [r] + b) <= rows.Keys
  {
  }

  /** The update loop before its turn k: `done` were overwritten, and together with what the rest of the
      loop will select they are all the matched rows. */
  ghost predicate Going(env: Env, pool: seq<string>, rows: Rows, sets: Sets, c: Clause, ids: seq<nat>, k: nat,
                        done: seq<nat>, now: Rows, err: Err)
  {
    && Wide(env, rows) && Complete(env, rows, c, ids) && UniqueRows(env.cols, rows) && PoolOk(pool) && k <= |ids|
    && Overwritten(env.cols, pool, rows, sets, done, now)
    && (forall r | r in done :: r in ids[..k])
    && Stored(rows, ids[k..])
    && FilterRows(env, rows, c, ids, None).0 == done + FilterRows(env, rows, c, ids[k..], err).0
  }

  lemma GoingStart(env: Env, pool: seq<string>, rows: Rows, sets: Sets, c: Clause, ids: seq<nat>)
    requires Wide(env, rows) && Complete(env, rows, c, ids) && UniqueRows(env.cols, rows) && PoolOk(pool)
    ensures Going(env, pool, rows, sets, c, ids, 0, [], rows, None)
  {
    assert ids[0..] == ids;
    var total := FilterRows(env, rows, c, ids, None).0;
    assert [] + total == total;
    hide FilterRows, Complete, UniqueRows, EvalClause;
  }

  lemma GoingEnd(env: Env, pool: seq<string>, rows: Rows, sets: Sets, c: Clause, ids: seq<nat>, done: seq<nat>, now: Rows, err: Err)
    requires Going(env, pool, rows, sets, c, ids, |ids|, done, now, err)
    ensures Stored(rows, ids) && UpdateResult(env.cols, pool, rows, sets, Members(FilterRows(env, rows, c, ids, None).0), true, now)
  {
    hide UpdateResult, UpdateLoop, EvalClause;
    FilterNothing(env, rows, c, ids, err);
    assert done + [] == done;
    FilterWithin(env, rows, c, ids, None);
    UpdateDone(env.cols, pool, rows, sets, done, now);
  }

  /** The row of turn k is stored and not yet overwritten. */
  lemma GoingRow(env: Env, pool: seq<string>, rows: Rows, sets: Sets, c: Clause, ids: seq<nat>, k: nat,
                 done: seq<nat>, now: Rows, err: Err)
    requires Going(env, pool, rows, sets, c, ids, k, done, now, err) && k < |ids|
    ensures ids[k] in rows && ids[k] in now && now[ids[k]] == rows[ids[k]] && ids[k] !in done
    ensures |rows[ids[k]]| == |env.cols|
  {
    hide UpdateLoop, FilterRows, EvalClause;
    assert ids[k] !in ids[..k];
  }

  lemma GoingGrows(env: Env, pool: seq<string>, bigger: seq<string>, rows: Rows, sets: Sets, c: Clause, ids: seq<nat>,
                   k: nat, done: seq<nat>, now: Rows, err: Err)
    requires Going(env, pool, rows, sets, c, ids, k, done, now, err) && PoolOk(bigger) && pool <= bigger
    ensures Going(env, bigger, rows, sets, c, ids, k, done, now, err)
  {
    hide Overwritten, FilterRows, Complete, UniqueRows;
    OverwrittenGrows(env.cols, pool, bigger, rows, sets, done, now);
  }

  /** A row that the clause does not select. */
  lemma GoingSkip(env: Env, pool: seq<string>, rows: Rows, sets: Sets, c: Clause, ids: seq<nat>, k: nat,
                  done: seq<nat>, now: Rows, err: Err)
    requires Going(env, pool, rows, sets, c, ids, k, done, now, err) && k < |ids|
    requires |rows[ids[k]]| == |env.cols| && !EvalClause(env, rows[ids[k]], c, err).0
    ensures Going(env, pool, rows, sets, c, ids, k + 1, done, now, EvalClause(env, rows[ids[k]], c, err).1)
  {
    hide Overwritten, Complete, UniqueRows, EvalClause;
    StoredHere(env, pool, rows, sets, c, ids, k, done, now, err);
    FilterRowsStep(env, rows, c, ids, k, err);
    hide FilterRows;
    var rest := FilterRows(env, rows, c, ids[k + 1..], EvalClause(env, rows[ids[k]], c, err).1).0;
    assert [] + rest == rest;
    assert ids[..k + 1] == ids[..k] + [ids[k]];
  }

  lemma StoredHere(env: Env, pool: seq<string>, rows: Rows, sets: Sets, c: Clause, ids: seq<nat>, k: nat,
                   done: seq<nat>, now: Rows, err: Err)
    requires Going(env, pool, rows, sets, c, ids, k, done, now, err)
    ensures Stored(rows, ids) && Distinct(ids)
  {
  }

  /** A row that the clause selects and that was overwritten. */
  lemma GoingUpdate(env: Env, pool: seq<string>, rows: Rows, sets: Sets, c: Clause, ids: seq<nat>, k: nat,
                    done: seq<nat>, now: Rows, err: Err)
    requires Going(env, pool, rows, sets, c, ids, k, done, now, err) && k < |ids| && |now[ids[k]]| == |env.cols|
    requires |rows[ids[k]]| == |env.cols| && EvalClause(env, rows[ids[k]], c, err).0
    requires SetsKnown(env.cols, sets) && SetsInterned(pool, sets)
    requires var row := Assign(now[ids[k]], CellsOf(env.cols, pool, sets));
             ValidRow(env.cols, row) && !Clashes(env.cols, now, row, ids[k])
    ensures var row := Assign(now[ids[k]], CellsOf(env.cols, pool, sets));
            Going(env, pool, rows, sets, c, ids, k + 1, done + [ids[k]], now[ids[k] := row],
                  EvalClause(env, rows[ids[k]], c, err).1)
  {
    hide UniqueRows, EvalClause, Overwritten, Assign, ValidRow, Clashes, CellsOf;
    GoingRow(env, pool, rows, sets, c, ids, k, done, now, err);
    StoredHere(env, pool, rows, sets, c, ids, k, done, now, err);
    FilterRowsStep(env, rows, c, ids, k, err);
    OverwrittenNext(env.cols, pool, rows, sets, done, now, ids[k]);
    hide FilterRows, Complete;
    AppendAssoc(done, [ids[k]], FilterRows(env, rows, c, ids[k + 1..], EvalClause(env, rows[ids[k]], c, err).1).0);
    assert ids[..k + 1] == ids[..k] + [ids[k]];
  }

  /** A row that the clause selects and that could not be overwritten. */
  lemma GoingStop(env: Env, pool: seq<string>, rows: Rows, sets: Sets, c: Clause, ids: seq<nat>, k: nat,
                  done: seq<nat>, now: Rows, err: Err)
    requires Going(env, pool, rows, sets, c, ids, k, done, now, err) && k < |ids| && |now[ids[k]]| == |env.cols|
    requires |rows[ids[k]]| == |env.cols| && EvalClause(env, rows[ids[k]], c, err).0
    requires SetsKnown(env.cols, sets) ==>
               && SetsInterned(pool, sets)
               && var row := Assign(now[ids[k]], CellsOf(env.cols, pool, sets));
                  !(ValidRow(env.cols, row) && !Clashes(env.cols, now, row, ids[k]))
    ensures Stored(rows, ids)
    ensures UpdateResult(env.cols, pool, rows, sets, Members(FilterRows(env, rows, c, ids, None).0), false, now)
  {
    hide EvalClause, Overwritten, Assign, ValidRow, Clashes, CellsOf, UpdateResult, UniqueRows;
    GoingRow(env, pool, rows, sets, c, ids, k, done, now, err);
    StoredHere(env, pool, rows, sets, c, ids, k, done, now, err);
    FilterRowsStep(env, rows, c, ids, k, err);
    var e := EvalClause(env, rows[ids[k]], c, err).1;
    var rest := FilterRows(env, rows, c, ids[k + 1..], e).0;
    assert Distinct(ids[k + 1..]);
    FilterWithin(env, rows, c, ids[k + 1..], e);
    FilterWithin(env, rows, c, ids, None);
    AppendAssoc(done, [ids[k]], rest);
    hide FilterRows, Complete;
    UpdateStopped(env.cols, pool, rows, sets, done, ids[k], rest, now);
  }

  /** Turn k of the update loop. */
  method UpdateTurn(tab: Table, sets: Sets, w: seq<WhereNode>, root: int, ghost c: Clause, ids: seq<nat>, k: nat,
                    like: LikeFn, ghost start: seq<string>, ghost rows: Rows, ghost done: seq<nat>, err: Err)
    returns (ok: bool, e: Err, ghost more: seq<nat>)
    requires tab.Valid() && w == NodesOf(c) && root == RootOf(c) && start <= tab.pool.strings
    requires forall r | r in rows :: InternedRow(start, rows[r])
    requires k < |ids|
    requires Going(Env(tab.cols, start, like), tab.pool.strings, rows, sets, c, ids, k, done, tab.rows, err)
    modifies tab, tab.Repr, tab.pool
    ensures tab.Valid() && fresh(tab.Repr - old(tab.Repr)) && tab.nextRid == old(tab.nextRid)
    ensures old(tab.pool.strings) <= tab.pool.strings && |tab.pool.strings| > 0
    ensures var env := Env(tab.cols, start, like);
            && (ok ==> Going(env, tab.pool.strings, rows, sets, c, ids, k + 1, more, tab.rows, e))
            && (!ok ==>
                  && Wide(env, rows) && Complete(env, rows, c, ids)
                  && UpdateResult(tab.cols, tab.pool.strings, rows, sets,
                                  Members(FilterRows(env, rows, c, ids, None).0), false, tab.rows))
  {
    hide Table.Valid, EvalClause, UpdateResult, NodesOf, Assign, ValidRow, Clashes, CellsOf,
         SetsInterned, SetsKnown, InternedRow, Going, FilterRows;
    ghost var env := Env(tab.cols, start, like);
    ghost var strings := tab.pool.strings;
    GoingRow(env, strings, rows, sets, c, ids, k, done, tab.rows, err);
    GoingWide(env, strings, rows, sets, c, ids, k, done, tab.rows, err);
    var b;
    b, e := EvalRow(tab, w, root, c, ids[k], like, start, err);
    ghost var now := tab.rows;
    ValidIsUnique(tab);
    GoingGrows(env, strings, tab.pool.strings, rows, sets, c, ids, k, done, now, err);
    if !b {
      GoingSkip(env, tab.pool.strings, rows, sets, c, ids, k, done, now, err);
      return true, e, done;
    }
    strings := tab.pool.strings;
    ok := UpdateOne(tab, ids[k], sets);
    ValidIsUnique(tab);
    GoingGrows(env, strings, tab.pool.strings, rows, sets, c, ids, k, done, now, err);
    if ok {
      GoingUpdate(env, tab.pool.strings, rows, sets, c, ids, k, done, now, err);
      more := done + [ids[k]];
    } else {
      GoingStop(env, tab.pool.strings, rows, sets, c, ids, k, done, now, err);
      more := done;
    }
  }

  lemma GoingWide(env: Env, pool: seq<string>, rows: Rows, sets: Sets, c: Clause, ids: seq<nat>, k: nat,
                  done: seq<nat>, now: Rows, err: Err)
    requires Going(env, pool, rows, sets, c, ids, k, done, now, err)
    ensures Wide(env, rows) && Complete(env, rows, c, ids)
  {
  }

  /** The loop over the proposed rows. */
  method UpdateAll(tab: Table, sets: Sets, w: seq<WhereNode>, root: int, ghost c: Clause, ids: seq<nat>, like: LikeFn,
                   ghost start: seq<string>)
    returns (ok: bool)
    requires tab.Valid() && w == NodesOf(c) && root == RootOf(c) && start <= tab.pool.strings
    requires forall r | r in tab.rows :: InternedRow(start, tab.rows[r])
    requires Wide(Env(tab.cols, start, like), tab.rows) && Complete(Env(tab.cols, start, like), tab.rows, c, ids)
    modifies tab, tab.Repr, tab.pool
    ensures tab.Valid() && fresh(tab.Repr - old(tab.Repr)) && tab.nextRid == old(tab.nextRid)
    ensures old(tab.pool.strings) <= tab.pool.strings && |tab.pool.strings| > 0
    ensures UpdateResult(tab.cols, tab.pool.strings, old(tab.rows), sets,
                         Members(FilterRows(Env(tab.cols, start, like), old(tab.rows), c, ids, None).0), ok, tab.rows)
  {
    hide *;
    ghost var env, rows := Env(tab.cols, start, like), tab.rows;
    TableGrounded(tab, like);
    GroundedIs(Env(tab.cols, tab.pool.strings, like), rows);
    ghost var done: seq<nat> := [];
    var err: Err := None;
    GoingStart(env, tab.pool.strings, rows, sets, c, ids);
    for k := 0 to |ids|
      invariant tab.Valid() && fresh(tab.Repr - old(tab.Repr)) && tab.nextRid == old(tab.nextRid)
      invariant old(tab.pool.strings) <= tab.pool.strings && |tab.pool.strings| > 0
      invariant Going(env, tab.pool.strings, rows, sets, c, ids, k, done, tab.rows, err)
    {
      ok, err, done := UpdateTurn(tab, sets, w, root, c, ids, k, like, start, rows, done, err);
      if !ok {
        return;
      }
    }
    GoingEnd(env, tab.pool.strings, rows, sets, c, ids, done, tab.rows, err);
    ok := true;
  }

  /** An UPDATE that succeeded: the rows picked have their new versions, the others are as they were. */
  ghost predicate UpdatedRows(cols: seq<ColumnDef>, pool: seq<string>, sets: Sets, before: Rows, picked: set<nat>, after: Rows) {
    && after.Keys == before.Keys
    && (forall r | r in before && r !in picked :: after[r] == before[r])
    && (forall r | r in before && r in picked ::
          NewVersion(cols, pool, ColumnsIn(sets), LiteralsIn(sets), before[r], after[r]))
  }

  lemma UpdateMeans(cols: seq<ColumnDef>, pool: seq<string>, before: Rows, sets: Sets, picked: set<nat>, after: Rows)
    requires PoolOk(pool) && |pool| > 0 && UpdateResult(cols, pool, before, sets, picked, true, after)
    ensures UpdatedRows(cols, pool, sets, before, picked, after)
    ensures picked != {} ==> forall k | 0 <= k < |sets| :: !Unknown(cols, sets[k].0)
  {
    SetsKnownIff(cols, sets);
    hide Assign, SetsKnown, SetsInterned, UpdateOk, NewVersion, Unknown, PoolOk, Interrupted;
    if picked != {} {
      forall r | r in before && r in picked
        ensures NewVersion(cols, pool, ColumnsIn(sets), LiteralsIn(sets), before[r], after[r])
      {
        AssignedMeans(cols, pool, sets, before[r]);
      }
    }
  }

  /** UPDATE: it succeeds exactly when the bulk overwriting of the rows it picked is admissible, and then the
      table has been overwritten so; when it fails, the rows overwritten before the one that stopped it stay
      so. For a definite clause the rows picked are those selected alone, whatever order the rows are visited
      in, and also when the update changes the very cells that the clause tests. */
  method UpdateRows(tab: Table, sets: Sets, w: seq<WhereNode>, root: int, ghost c: Clause, like: LikeFn)
    returns (ok: bool, ghost picked: set<nat>)
    requires tab.Valid() && w == NodesOf(c) && root == RootOf(c)
    modifies tab, tab.Repr, tab.pool
    ensures tab.Valid() && fresh(tab.Repr - old(tab.Repr)) && tab.nextRid == old(tab.nextRid)
    ensures old(tab.pool.strings) <= tab.pool.strings && |tab.pool.strings| > 0
    ensures var env := Env(tab.cols, old(tab.pool.strings), like);
            && Wide(env, old(tab.rows))
            && Picks(env, old(tab.rows), c, picked)
            && UpdateResult(tab.cols, tab.pool.strings, old(tab.rows), sets, picked, ok, tab.rows)
            && (ok ==> UpdatedRows(tab.cols, tab.pool.strings, sets, old(tab.rows), picked, tab.rows))
            && picked <= Selected(env, old(tab.rows), c) == Meant(env, old(tab.rows), c)
            && (Definite(env, old(tab.rows), c) ==> picked == Selected(env, old(tab.rows), c))
  {
    hide *;
    ghost var start, rows := tab.pool.strings, tab.rows;
    ghost var env := Env(tab.cols, start, like);
    TableGrounded(tab, like);
    GroundedIs(env, rows);
    var ids := CandidateRows(tab, w, root, c, like);
    ProposedSelects(env, rows, c, ids);
    ProposalPicks(env, rows, c, ids);
    picked := Members(FilterRows(env, rows, c, ids, None).0);
    SelectedIsMeant(env, rows, c);
    ok := UpdateAll(tab, sets, w, root, c, ids, like, start);
    ValidIsUnique(tab);
    if ok { UpdateMeans(tab.cols, tab.pool.strings, rows, sets, picked, tab.rows); }
  }
}
