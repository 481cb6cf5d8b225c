/** What UPDATE does to a table, whatever order it visits rows in (src/exec/executor.cpp:290-308 over
    src/core/table.cpp:91-116): the loop that overwrites one row at a time, and the bulk overwriting that it
    amounts to. */
module UpdateSpec {
  import opened Values
  import opened TableSpec

  /** The cells a SET list assigns, in order: column number and value. */
  type Cells = seq<(nat, Value)>

  predicate InWidth(cells: Cells, n: nat) {
    forall k | 0 <= k < |cells| :: cells[k].0 < n
  }

  /** The row with the cells assigned one after the other. */
  function Assign(row: Row, cells: Cells): (r: Row)
    requires InWidth(cells, |row|)
    ensures |r| == |row|
    decreases cells
  {
    if cells == [] then row
    else
      assert InWidth(cells[1..], |row|) by { assert forall k | 0 <= k < |cells[1..]| :: cells[1..][k] == cells[k + 1]; }
      Assign(row[cells[0].0 := cells[0].1], cells[1..])
  }

  predicate Touches(cells: Cells, i: nat) {
    exists k :: 0 <= k < |cells| && cells[k].0 == i
  }

  predicate TouchesIndex(cols: seq<ColumnDef>, cells: Cells) {
    exists i :: 0 <= i < |cols| && cols[i].indexed && Touches(cells, i)
  }

  lemma TouchesTail(cells: Cells, i: nat)
    requires cells != []
    ensures Touches(cells, i) <==> cells[0].0 == i || Touches(cells[1..], i)
  {
    assert forall k | 0 <= k < |cells[1..]| :: cells[1..][k] == cells[k + 1];
    if Touches(cells, i) && cells[0].0 != i {
      var k :| 0 <= k < |cells| && cells[k].0 == i;
      assert cells[1..][k - 1].0 == i;
    }
  }

  /** A cell that is not assigned keeps its value; one that is gets the same value in every row. */
  lemma {:induction false} AssignCell(row: Row, other: Row, cells: Cells, i: nat)
    requires InWidth(cells, |row|) && |other| == |row| && i < |row|
    ensures !Touches(cells, i) ==> Assign(row, cells)[i] == row[i]
    ensures Touches(cells, i) || row[i] == other[i] ==> Assign(row, cells)[i] == Assign(other, cells)[i]
    decreases cells
  {
    if cells != [] {
      assert forall k | 0 <= k < |cells[1..]| :: cells[1..][k] == cells[k + 1];
      TouchesTail(cells, i);
      AssignCell(row[cells[0].0 := cells[0].1], other[cells[0].0 := cells[0].1], cells[1..], i);
    }
  }

  /** Of several assignments to one cell the last one stays. */
  lemma {:induction false} AssignLast(row: Row, cells: Cells, i: nat, k: nat)
    requires InWidth(cells, |row|) && k < |cells| && cells[k].0 == i && forall l | k < l < |cells| :: cells[l].0 != i
    ensures i < |row| && Assign(row, cells)[i] == cells[k].1
    decreases cells
  {
    assert forall l | 0 <= l < |cells[1..]| :: cells[1..][l] == cells[l + 1];
    var next := row[cells[0].0 := cells[0].1];
    if k == 0 {
      AssignCell(next, next, cells[1..], i);
    } else {
      AssignLast(next, cells[1..], i, k - 1);
    }
  }

  /** Stored rows have full width and no two share a value in an indexed column. */
  ghost predicate UniqueRows(cols: seq<ColumnDef>, rows: Rows) {
    && (forall r | r in rows :: |rows[r]| == |cols|)
    && (forall i, r, s | 0 <= i < |cols| && cols[i].indexed && r in rows && s in rows && r != s ::
          rows[r][i] != rows[s][i])
  }

  /** The loop: each row in turn is overwritten, unless its new version is invalid or clashes with the
      table as it is by then. */
  ghost function UpdateLoop(cols: seq<ColumnDef>, rows: Rows, cells: Cells, ids: seq<nat>): Option<Rows>
    requires InWidth(cells, |cols|)
    requires forall r | r in rows :: |rows[r]| == |cols|
    requires forall k | 0 <= k < |ids| :: ids[k] in rows
    decreases |ids|
  {
    if ids == [] then Some(rows)
    else
      var row := Assign(rows[ids[0]], cells);
      if ValidRow(cols, row) && !Clashes(cols, rows, row, ids[0]) then
        UpdateLoop(cols, rows[ids[0] := row], cells, ids[1..])
      else None
  }

  /** Whether the update succeeds, said without any order: every matched row stays valid, and if an indexed
      column is assigned, at most one row matched and its new version clashes with no other row. */
  ghost predicate UpdateOk(cols: seq<ColumnDef>, rows: Rows, cells: Cells, matched: set<nat>)
    requires InWidth(cells, |cols|)
    requires forall r | r in rows :: |rows[r]| == |cols|
    requires matched <= rows.Keys
  {
    && (forall r | r in matched :: ValidRow(cols, Assign(rows[r], cells)))
    && (TouchesIndex(cols, cells) ==>
          |matched| <= 1 && forall r | r in matched :: !Clashes(cols, rows, Assign(rows[r], cells), r))
  }

  /** The table with the cells assigned in all matched rows at once. */
  function Overwrite(rows: Rows, cells: Cells, matched: set<nat>, width: nat): Rows
    requires InWidth(cells, width) && forall r | r in rows :: |rows[r]| == width
  {
    map r | r in rows :: if r in matched then Assign(rows[r], cells) else rows[r]
  }

  function Members(ids: seq<nat>): set<nat> {
    set k | 0 <= k < |ids| :: ids[k]
  }

  predicate Distinct(ids: seq<nat>) {
    forall i, j | 0 <= i < j < |ids| :: ids[i] != ids[j]
  }

  /** Without an indexed column among the assigned ones, a new version clashes with nothing. */
  lemma NoClashUntouched(cols: seq<ColumnDef>, rows: Rows, cells: Cells, r: nat)
    requires UniqueRows(cols, rows) && InWidth(cells, |cols|) && r in rows && !TouchesIndex(cols, cells)
    ensures !Clashes(cols, rows, Assign(rows[r], cells), r)
  {
    var row := Assign(rows[r], cells);
    forall i: nat, s: nat | i < |cols| && cols[i].indexed && s in rows && s != r
      ensures row[i] != rows[s][i]
    {
      AssignCell(rows[r], rows[r], cells, i);
    }
  }

  lemma StepUnique(cols: seq<ColumnDef>, rows: Rows, r: nat, row: Row)
    requires UniqueRows(cols, rows) && r in rows && |row| == |cols| && !Clashes(cols, rows, row, r)
    ensures UniqueRows(cols, rows[r := row])
  {
    var after := rows[r := row];
    forall i, a, b | 0 <= i < |cols| && cols[i].indexed && a in after && b in after && a != b
      ensures after[a][i] != after[b][i]
    {
      if a == r { assert !ClashesAt(cols, rows, row, r, i, b); }
      if b == r { assert !ClashesAt(cols, rows, row, r, i, a); }
    }
  }

  /** With an indexed column assigned, the second matched row repeats the first one's value. */
  lemma SecondClashes(cols: seq<ColumnDef>, rows: Rows, cells: Cells, first: nat, second: nat)
    requires forall r | r in rows :: |rows[r]| == |cols|
    requires InWidth(cells, |cols|) && TouchesIndex(cols, cells)
    requires first in rows && second in rows && first != second
    ensures var after := rows[first := Assign(rows[first], cells)];
            Clashes(cols, after, Assign(rows[second], cells), second)
  {
    var i :| 0 <= i < |cols| && cols[i].indexed && Touches(cells, i);
    AssignCell(rows[first], rows[second], cells, i);
    var after := rows[first := Assign(rows[first], cells)];
    assert ClashesAt(cols, after, Assign(rows[second], cells), second, i, first);
  }

  lemma MembersTail(ids: seq<nat>)
    requires ids != [] && Distinct(ids)
    ensures Members(ids) == {ids[0]} + Members(ids[1..]) && ids[0] !in Members(ids[1..])
    ensures |Members(ids)| == |Members(ids[1..])| + 1 && Distinct(ids[1..])
  {
    assert forall k | 0 <= k < |ids[1..]| :: ids[1..][k] == ids[k + 1];
    forall x | x in Members(ids)
      ensures x in {ids[0]} + Members(ids[1..])
    {
      var k :| 0 <= k < |ids| && ids[k] == x;
      if k > 0 { assert ids[1..][k - 1] == x; }
    }
    assert Members(ids) == {ids[0]} + Members(ids[1..]);
  }

  /** One turn of the loop and the verdict on the rest agree with the verdict on the whole. */
  lemma UpdateOkStep(cols: seq<ColumnDef>, rows: Rows, cells: Cells, ids: seq<nat>)
    requires UniqueRows(cols, rows) && InWidth(cells, |cols|) && ids != [] && Distinct(ids)
    requires forall k | 0 <= k < |ids| :: ids[k] in rows
    ensures var r := ids[0];
            var row := Assign(rows[r], cells);
            && Members(ids) <= rows.Keys && Members(ids[1..]) <= rows[r := row].Keys
            && (UpdateOk(cols, rows, cells, Members(ids)) <==>
                  && ValidRow(cols, row) && !Clashes(cols, rows, row, r)
                  && UpdateOk(cols, rows[r := row], cells, Members(ids[1..])))
  {
    var r := ids[0];
    var row := Assign(rows[r], cells);
    var rest := Members(ids[1..]);
    var after := rows[r := row];
    MembersTail(ids);
    hide ValidRow, Clashes, Members, Distinct, InWidth;
    assert r in Members(ids);
    assert forall x | x in rest :: x in Members(ids) && after[x] == rows[x];
    if !TouchesIndex(cols, cells) {
      NoClashUntouched(cols, rows, cells, r);
    } else if rest == {} {
      assert Members(ids) == {r};
    } else {
      var s :| s in rest;
      SecondClashes(cols, rows, cells, r, s);
    }
  }

  lemma OverwriteStep(cols: seq<ColumnDef>, rows: Rows, cells: Cells, r: nat, rest: set<nat>)
    requires InWidth(cells, |cols|) && r in rows && r !in rest && forall x | x in rows :: |rows[x]| == |cols|
    ensures Overwrite(rows[r := Assign(rows[r], cells)], cells, rest, |cols|) ==
              Overwrite(rows, cells, {r} + rest, |cols|)
  {
    hide Assign;
  }

  lemma OverwriteNothing(rows: Rows, cells: Cells, width: nat)
    requires InWidth(cells, width) && forall r | r in rows :: |rows[r]| == width
    ensures Overwrite(rows, cells, {}, width) == rows
  {
  }

  lemma UpdateLoopStep(cols: seq<ColumnDef>, rows: Rows, cells: Cells, ids: seq<nat>)
    requires InWidth(cells, |cols|) && ids != []
    requires forall r | r in rows :: |rows[r]| == |cols|
    requires forall k | 0 <= k < |ids| :: ids[k] in rows
    ensures var row := Assign(rows[ids[0]], cells);
            var after := rows[ids[0] := row];
            && (forall r | r in after :: |after[r]| == |cols|)
            && (forall k | 0 <= k < |ids[1..]| :: ids[1..][k] in after)
            && UpdateLoop(cols, rows, cells, ids) ==
                 if ValidRow(cols, row) && !Clashes(cols, rows, row, ids[0]) then UpdateLoop(cols, after, cells, ids[1..])
                 else None
  {
    hide ValidRow, Clashes, Assign;
    assert forall k | 0 <= k < |ids[1..]| :: ids[1..][k] == ids[k + 1];
  }

  /** UPDATE does not depend on the order it visits rows in: whichever way the matched rows are listed, the
      loop succeeds exactly when `UpdateOk` holds of their set, and then it has overwritten exactly them. */
  lemma {:induction false} UpdateLoopIsOverwrite(cols: seq<ColumnDef>, rows: Rows, cells: Cells, ids: seq<nat>)
    requires UniqueRows(cols, rows) && InWidth(cells, |cols|) && Distinct(ids)
    requires forall k | 0 <= k < |ids| :: ids[k] in rows
    ensures Members(ids) <= rows.Keys
    ensures UpdateLoop(cols, rows, cells, ids) ==
              if UpdateOk(cols, rows, cells, Members(ids)) then Some(Overwrite(rows, cells, Members(ids), |cols|))
              else None
    decreases |ids|
  {
    if ids == [] {
      assert Members(ids) == {};
      OverwriteNothing(rows, cells, |cols|);
    } else {
      hide UpdateOk, UpdateLoop, ValidRow, Clashes, Members, Distinct, InWidth, Assign, Overwrite;
      var r := ids[0];
      var row := Assign(rows[r], cells);
      UpdateOkStep(cols, rows, cells, ids);
      MembersTail(ids);
      UpdateLoopStep(cols, rows, cells, ids);
      if ValidRow(cols, row) && !Clashes(cols, rows, row, r) {
        StepUnique(cols, rows, r, row);
        UpdateLoopIsOverwrite(cols, rows[r := row], cells, ids[1..]);
        OverwriteStep(cols, rows, cells, r, Members(ids[1..]));
      }
    }
  }
}
