/** UPDATE that fails half-way (src/exec/executor.cpp:296-307): the rows overwritten before the one that stopped
    the loop stay overwritten. What is left, and exactly when nothing is. */
module PartialUpdates {
  import opened Values
  import opened TableSpec
  import opened UpdateSpec
  import opened Selection

  lemma {:induction false} UpdateLoopAppend(cols: seq<ColumnDef>, rows: Rows, cells: Cells, a: seq<nat>, b: seq<nat>)
    requires InWidth(cells, |cols|) && (forall r | r in rows :: |rows[r]| == |cols|)
    requires Stored(rows, a) && Stored(rows, b)
    ensures Stored(rows, a + b)
    ensures var o := UpdateLoop(cols, rows, cells, a);
            && (o.Some? ==> o.value.Keys == rows.Keys && forall r | r in o.value :: |o.value[r]| == |cols|)
            && UpdateLoop(cols, rows, cells, a + b) ==
                 if o.None? then None else UpdateLoop(cols, o.value, cells, b)
    decreases |a|
  {
    if a == [] {
      assert a + b == b;
    } else {
      assert (a + b)[0] == a[0] && (a + b)[1..] == a[1..] + b;
      UpdateLoopStep(cols, rows, cells, a);
      UpdateLoopStep(cols, rows, cells, a + b);
      hide UpdateLoop, ValidRow, Clashes, Assign;
      UpdateLoopAppend(cols, rows[a[0] := Assign(rows[a[0]], cells)], cells, a[1..], b);
    }
  }

  lemma UpdateLoopOne(cols: seq<ColumnDef>, rows: Rows, cells: Cells, rid: nat)
    requires InWidth(cells, |cols|) && (forall r | r in rows :: |rows[r]| == |cols|) && rid in rows
    ensures var row := Assign(rows[rid], cells);
            UpdateLoop(cols, rows, cells, [rid]) ==
              if ValidRow(cols, row) && !Clashes(cols, rows, row, rid) then Some(rows[rid := row]) else None
  {
    UpdateLoopStep(cols, rows, cells, [rid]);
  }

  /** The new version of a stored row may replace it. */
  ghost predicate Admits(cols: seq<ColumnDef>, rows: Rows, cells: Cells, rid: nat)
    requires InWidth(cells, |cols|) && rid in rows && |rows[rid]| == |cols|
  {
    ValidRow(cols, Assign(rows[rid], cells)) && !Clashes(cols, rows, Assign(rows[rid], cells), rid)
  }

  ghost predicate FullWidth(cols: seq<ColumnDef>, rows: Rows) {
    forall r | r in rows :: |rows[r]| == |cols|
  }

  /** The loop overwrote the rows `done`, fewer than all matched ones, and stopped at the matched row rid,
      which it could not overwrite. */
  ghost predicate StoppedAt(cols: seq<ColumnDef>, before: Rows, cells: Cells, matched: set<nat>, done: seq<nat>, rid: nat,
                            after: Rows)
    requires InWidth(cells, |cols|) && FullWidth(cols, before)
  {
    && Distinct(done) && Stored(before, done) && Members(done) < matched && rid in matched && rid !in done
    && UpdateLoop(cols, before, cells, done) == Some(after)
    && after == Overwrite(before, cells, Members(done), |cols|)
    && rid in before && rid in after && after[rid] == before[rid] && !Admits(cols, after, cells, rid)
  }

  ghost predicate Interrupted(cols: seq<ColumnDef>, before: Rows, cells: Cells, matched: set<nat>, after: Rows)
    requires InWidth(cells, |cols|) && FullWidth(cols, before)
  {
    exists done, rid :: StoppedAt(cols, before, cells, matched, done, rid, after)
  }

  /** Where the loop over a list stops. */
  lemma {:induction false} StopPoint(cols: seq<ColumnDef>, rows: Rows, cells: Cells, ids: seq<nat>) returns (k: nat, after: Rows)
    requires InWidth(cells, |cols|) && FullWidth(cols, rows) && Stored(rows, ids)
    requires UpdateLoop(cols, rows, cells, ids) == None
    ensures k < |ids| && Stored(rows, ids[..k]) && UpdateLoop(cols, rows, cells, ids[..k]) == Some(after)
    ensures ids[k] in after && |after[ids[k]]| == |cols| && !Admits(cols, after, cells, ids[k])
    ensures ids[0] in rows && (Admits(cols, rows, cells, ids[0]) ==> k > 0)
    decreases |ids|
  {
    assert ids != [];
    var n := |ids| - 1;
    var front := ids[..n];
    assert ids == front + [ids[n]];
    assert n == 0 ==> front == [] && UpdateLoop(cols, rows, cells, front) == Some(rows);
    UpdateLoopAppend(cols, rows, cells, front, [ids[n]]);
    hide UpdateLoop;
    if UpdateLoop(cols, rows, cells, front) == None {
      k, after := StopPoint(cols, rows, cells, front);
      assert front[..k] == ids[..k];
    } else {
      k, after := n, UpdateLoop(cols, rows, cells, front).value;
      UpdateLoopOne(cols, after, cells, ids[n]);
    }
  }

  /** A loop that stops leaves the table interrupted. */
  lemma LoopInterrupted(cols: seq<ColumnDef>, before: Rows, cells: Cells, matched: set<nat>, done: seq<nat>, rid: nat, after: Rows)
    requires InWidth(cells, |cols|) && UniqueRows(cols, before) && Distinct(done) && Stored(before, done)
    requires UpdateLoop(cols, before, cells, done) == Some(after)
    requires Members(done) <= matched <= before.Keys && rid in matched && rid !in done
    requires rid in after && |after[rid]| == |cols| && !Admits(cols, after, cells, rid)
    ensures FullWidth(cols, before) && StoppedAt(cols, before, cells, matched, done, rid, after)
  {
    UpdateLoopIsOverwrite(cols, before, cells, done);
    MembersIff(done);
    hide UpdateLoop, UpdateOk, Admits, Members, Distinct, ValidRow, Clashes;
    assert rid !in Members(done);
  }

  /** While every row it meets is idle (not admitted, or already as SET wants it), the loop changes nothing. */
  lemma {:induction false} IdleLoop(cols: seq<ColumnDef>, rows: Rows, cells: Cells, ids: seq<nat>)
    requires InWidth(cells, |cols|) && FullWidth(cols, rows) && Stored(rows, ids)
    requires forall k | 0 <= k < |ids| :: Idle(cols, rows, cells, ids[k])
    ensures UpdateLoop(cols, rows, cells, ids) in {None, Some(rows)}
    decreases |ids|
  {
    if ids != [] {
      assert Idle(cols, rows, cells, ids[0]);
      assert forall k | 0 <= k < |ids[1..]| :: ids[1..][k] == ids[k + 1];
      UpdateLoopStep(cols, rows, cells, ids);
      IdleLoop(cols, rows, cells, ids[1..]);
      hide UpdateLoop;
      assert Assign(rows[ids[0]], cells) == rows[ids[0]] ==> rows[ids[0] := rows[ids[0]]] == rows;
    }
  }

  ghost predicate Idle(cols: seq<ColumnDef>, rows: Rows, cells: Cells, rid: nat)
    requires InWidth(cells, |cols|) && FullWidth(cols, rows) && rid in rows
  {
    Assign(rows[rid], cells) == rows[rid] || !Admits(cols, rows, cells, rid)
  }

  lemma IdleMembers(cols: seq<ColumnDef>, rows: Rows, cells: Cells, matched: set<nat>, ids: seq<nat>)
    requires InWidth(cells, |cols|) && FullWidth(cols, rows) && matched <= rows.Keys && Members(ids) <= matched
    requires forall r | r in matched :: Idle(cols, rows, cells, r)
    ensures Stored(rows, ids) && forall k | 0 <= k < |ids| :: Idle(cols, rows, cells, ids[k])
  {
    hide Idle;
    forall k | 0 <= k < |ids|
      ensures ids[k] in matched
    {
      assert ids[k] in Members(ids);
    }
  }

  /** When a failing update is atomic: it leaves the table unchanged, whatever order it visits rows in, if and
      only if each matched row on its own either could not be overwritten or already has the values. */
  lemma FailedUpdateAtomicIff(cols: seq<ColumnDef>, rows: Rows, cells: Cells, matched: set<nat>)
    requires UniqueRows(cols, rows) && InWidth(cells, |cols|) && matched <= rows.Keys
    requires !UpdateOk(cols, rows, cells, matched)
    ensures (forall after | Interrupted(cols, rows, cells, matched, after) :: after == rows) <==>
              forall r | r in matched ::
                Assign(rows[r], cells) == rows[r] ||
                !(ValidRow(cols, Assign(rows[r], cells)) && !Clashes(cols, rows, Assign(rows[r], cells), r))
  {
    assert FullWidth(cols, rows);
    if forall r | r in matched :: Idle(cols, rows, cells, r) {
      forall after | Interrupted(cols, rows, cells, matched, after)
        ensures after == rows
      {
        var done, rid :| StoppedAt(cols, rows, cells, matched, done, rid, after);
        hide Idle, Interrupted, UpdateOk;
        IdleMembers(cols, rows, cells, matched, done);
        IdleLoop(cols, rows, cells, done);
      }
    } else {
      var r :| r in matched && !Idle(cols, rows, cells, r);
      assert Assign(rows[r], cells) != rows[r];
      var after := BusyFirst(cols, rows, cells, matched, r);
      hide *;
      assert Interrupted(cols, rows, cells, matched, after) && after != rows;
    }
  }

  /** If some row on its own would be overwritten with something new, the order that starts with it leaves the
      table changed. */
  lemma BusyFirst(cols: seq<ColumnDef>, rows: Rows, cells: Cells, matched: set<nat>, r: nat) returns (after: Rows)
    requires UniqueRows(cols, rows) && InWidth(cells, |cols|) && matched <= rows.Keys
    requires !UpdateOk(cols, rows, cells, matched) && r in matched
    requires FullWidth(cols, rows) && !Idle(cols, rows, cells, r)
    ensures Interrupted(cols, rows, cells, matched, after) && after != rows
  {
    var rest := AnyOrder(matched - {r});
    var ids := [r] + rest;
    OrderedFrom(rows, matched, r, rest);
    UpdateLoopIsOverwrite(cols, rows, cells, ids);
    var k;
    k, after := StopPoint(cols, rows, cells, ids);
    var done := ids[..k];
    DonePart(ids, k, matched);
    assert done[0] == r;
    hide Idle, UpdateOk, UpdateLoop, Admits;
    LoopInterrupted(cols, rows, cells, matched, done, ids[k], after);
    MembersIff(done);
    assert r in Members(done);
    BusyChanges(cols, rows, cells, done, r, after);
  }

  lemma BusyChanges(cols: seq<ColumnDef>, rows: Rows, cells: Cells, done: seq<nat>, r: nat, after: Rows)
    requires InWidth(cells, |cols|) && FullWidth(cols, rows) && r in rows && !Idle(cols, rows, cells, r)
    requires r in Members(done) && after == Overwrite(rows, cells, Members(done), |cols|)
    ensures after != rows
  {
    assert after[r] == Assign(rows[r], cells);
  }

  lemma OrderedFrom(rows: Rows, matched: set<nat>, r: nat, rest: seq<nat>)
    requires r in matched && matched <= rows.Keys && Distinct(rest) && forall x :: x in rest <==> x in matched - {r}
    ensures Distinct([r] + rest) && Stored(rows, [r] + rest) && Members([r] + rest) == matched
  {
    forall k | 0 <= k < |rest|
      ensures rest[k] in rows
    {
      assert rest[k] in rest;
    }
    assert r !in rest;
    ConsDistinct(rows, r, rest);
    MembersIff([r] + rest);
  }

  lemma DonePart(ids: seq<nat>, k: nat, matched: set<nat>)
    requires k < |ids| && Distinct(ids) && Members(ids) == matched
    ensures Distinct(ids[..k]) && Members(ids[..k]) <= matched && ids[k] in matched && ids[k] !in ids[..k]
  {
    MembersIff(ids);
    MembersIff(ids[..k]);
    assert forall x | x in ids[..k] :: x in ids;
  }

  /** SET a = 3 on two rows with a indexed: the first row visited keeps its new value although the statement
      fails. */
  lemma UpdateKeepsPart()
    ensures var cols := [ColumnDef("a", IntCol, true, true, None)];
      var rows: Rows := map[1 := [Int(1)], 2 := [Int(2)]];
      var cells: Cells := [(0, Int(3))];
      && UniqueRows(cols, rows) && InWidth(cells, |cols|) && FullWidth(cols, rows)
      && !UpdateOk(cols, rows, cells, {1, 2})
      && Interrupted(cols, rows, cells, {1, 2}, rows[1 := [Int(3)]])
  {
    var cols := [ColumnDef("a", IntCol, true, true, None)];
    var rows: Rows := map[1 := [Int(1)], 2 := [Int(2)]];
    var cells: Cells := [(0, Int(3))];
    var after := rows[1 := [Int(3)]];
    assert UniqueRows(cols, rows) && InWidth(cells, |cols|);
    AssignAll(cells, [Int(1)], Int(3));
    AssignAll(cells, [Int(2)], Int(3));
    assert TouchesIndex(cols, cells) by { assert Touches(cells, 0); }
    assert |{1, 2}| == 2;
    assert !Clashes(cols, rows, [Int(3)], 1);
    UpdateLoopOne(cols, rows, cells, 1);
    assert ClashesAt(cols, after, [Int(3)], 2, 0, 1);
    hide UpdateLoop, Assign, Clashes;
    MembersIff([1]);
    assert Members([1]) == {1};
    LoopInterrupted(cols, rows, cells, {1, 2}, [1], 2, after);
  }

  lemma AssignAll(cells: Cells, row: Row, v: Value)
    requires cells == [(0, v)] && |row| == 1
    ensures InWidth(cells, 1) && Assign(row, cells) == [v]
  {
    assert cells[1..] == [];
    assert Assign(row, cells) == Assign(row[0 := v], cells[1..]);
  }
}
