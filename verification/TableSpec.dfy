/** Tables as values (src/core/table.cpp): rows, columns, and when a row may be stored. */
module TableSpec {
  import opened Values

  datatype Option<+T> = None | Some(value: T)

  datatype ColType = IntCol | StringCol
  datatype ColumnDef = ColumnDef(name: string, ty: ColType, notNull: bool, indexed: bool, default: Option<Value>)

  type Row = seq<Value>
  type Rows = map<nat, Row>

  datatype Fault = Width | NullIn(col: string) | TypeMismatch(col: string) | Duplicate(col: string) | NoSuchRow

  /** The first column with the name, or -1. */
  function ColumnIndex(cols: seq<ColumnDef>, name: string): (i: int)
    ensures -1 <= i < |cols|
    ensures i >= 0 ==> cols[i].name == name
    ensures forall j | 0 <= j < (if i < 0 then |cols| else i) :: cols[j].name != name
  {
    if cols == [] then -1
    else if cols[0].name == name then 0
    else
      var i := ColumnIndex(cols[1..], name);
      if i < 0 then -1 else i + 1
  }

  /** What validation says of one cell. */
  function CellFault(c: ColumnDef, v: Value): Option<Fault> {
    if (c.notNull || c.indexed) && v.Null? then Some(NullIn(c.name))
    else if !v.Null? && c.ty.IntCol? && !v.Int? then Some(TypeMismatch(c.name))
    else if !v.Null? && c.ty.StringCol? && !v.Str? then Some(TypeMismatch(c.name))
    else None
  }

  predicate ValidRow(cols: seq<ColumnDef>, row: Row) {
    |row| == |cols| && forall i | 0 <= i < |cols| :: CellFault(cols[i], row[i]) == None
  }

  /** NULL only where it may be, and otherwise a value of the column's type. */
  predicate ConformsAt(c: ColumnDef, v: Value) {
    && (v.Null? ==> !c.notNull && !c.indexed)
    && (v.Int? ==> c.ty.IntCol?)
    && (v.Str? ==> c.ty.StringCol?)
  }

  predicate Conforms(cols: seq<ColumnDef>, row: Row) {
    |row| == |cols| && forall i | 0 <= i < |cols| :: ConformsAt(cols[i], row[i])
  }

  /** Validation accepts exactly the rows that fit, and blames a NULL or a wrong type. */
  lemma ValidRowConforms(cols: seq<ColumnDef>, row: Row)
    ensures ValidRow(cols, row) <==> Conforms(cols, row)
    ensures |row| == |cols| ==>
              forall i | 0 <= i < |cols| ::
                CellFault(cols[i], row[i]) ==
                  if ConformsAt(cols[i], row[i]) then None
                  else if row[i] == Null then Some(NullIn(cols[i].name))
                  else Some(TypeMismatch(cols[i].name))
  {
    if |row| == |cols| {
      forall i | 0 <= i < |cols|
        ensures CellFault(cols[i], row[i]) == None <==> ConformsAt(cols[i], row[i])
      {
      }
    }
  }

  predicate InternedRow(pool: seq<string>, row: Row) {
    forall v | v in row :: Interned(pool, v)
  }

  /** A stored row other than `except` has the same value in an indexed column. */
  ghost predicate Clashes(cols: seq<ColumnDef>, rows: Rows, row: Row, except: nat) {
    exists i, rid :: ClashesAt(cols, rows, row, except, i, rid)
  }

  ghost predicate ClashesAt(cols: seq<ColumnDef>, rows: Rows, row: Row, except: nat, i: nat, rid: nat) {
    && i < |cols| && i < |row| && cols[i].indexed
    && rid in rows && rid != except && i < |rows[rid]| && rows[rid][i] == row[i]
  }

  // ----- what each index holds

  /** The column of an index as a map from its values to the rows holding them. */
  type Column = map<Value, nat>

  function With(col: Column, v: Value, rid: nat): Column {
    col[v := rid]
  }

  /** The map lists exactly the values in column i of the stored rows, each with its one row. */
  ghost predicate Lists(rows: Rows, i: nat, col: Column) {
    && (forall rid | rid in rows :: i < |rows[rid]| && rows[rid][i] in col && col[rows[rid][i]] == rid)
    && (forall v | v in col :: col[v] in rows && i < |rows[col[v]]| && rows[col[v]][i] == v)
  }

  /** Every indexed column is listed. */
  ghost predicate Agree(cols: seq<ColumnDef>, rows: Rows, columns: seq<Column>) {
    |columns| == |cols| && forall i | 0 <= i < |cols| && cols[i].indexed :: Lists(rows, i, columns[i])
  }

  ghost predicate WellStored(cols: seq<ColumnDef>, pool: seq<string>, rows: Rows, next: nat) {
    && next >= 1
    && forall rid | rid in rows :: 1 <= rid < next && ValidRow(cols, rows[rid]) && InternedRow(pool, rows[rid])
  }

  /** No two rows share a value in an indexed column. */
  lemma AgreeUnique(cols: seq<ColumnDef>, rows: Rows, columns: seq<Column>, i: nat, r: nat, s: nat)
    requires Agree(cols, rows, columns) && i < |cols| && cols[i].indexed
    requires r in rows && s in rows && r != s
    ensures i < |rows[r]| && i < |rows[s]| && rows[r][i] != rows[s][i]
  {
    assert Lists(rows, i, columns[i]);
  }

  /** The columns after the row's values in the first n indexed columns were added. */
  function AddTo(cols: seq<ColumnDef>, columns: seq<Column>, row: Row, rid: nat, n: nat): (r: seq<Column>)
    requires n <= |cols| == |columns| == |row|
    ensures |r| == |columns|
    ensures forall i | 0 <= i < |r| ::
              r[i] == if i < n && cols[i].indexed && !row[i].Null? then With(columns[i], row[i], rid) else columns[i]
  {
    seq(|columns|, i requires 0 <= i < |columns| =>
      if i < n && cols[i].indexed && !row[i].Null? then With(columns[i], row[i], rid) else columns[i])
  }

  /** The columns after the row's values in the first n indexed columns were taken out. */
  function TakeFrom(cols: seq<ColumnDef>, columns: seq<Column>, row: Row, rid: nat, n: nat): (r: seq<Column>)
    requires n <= |cols| == |columns| == |row|
    ensures |r| == |columns|
    ensures forall i | 0 <= i < |r| ::
              r[i] == if i < n && cols[i].indexed && row[i] in columns[i] && columns[i][row[i]] == rid && !row[i].Null?
                      then columns[i] - {row[i]} else columns[i]
  {
    seq(|columns|, i requires 0 <= i < |columns| =>
      if i < n && cols[i].indexed && row[i] in columns[i] && columns[i][row[i]] == rid && !row[i].Null?
      then columns[i] - {row[i]} else columns[i])
  }

  lemma ListsAdd(rows: Rows, i: nat, col: Column, rid: nat, row: Row)
    requires Lists(rows, i, col) && rid !in rows && i < |row| && row[i] !in col
    ensures Lists(rows[rid := row], i, With(col, row[i], rid))
  {
  }

  lemma ListsRemove(rows: Rows, i: nat, col: Column, rid: nat)
    requires Lists(rows, i, col) && rid in rows
    ensures i < |rows[rid]| && rows[rid][i] in col && col[rows[rid][i]] == rid
    ensures Lists(rows - {rid}, i, col - {rows[rid][i]})
  {
  }

  /** Storing a new row that clashes with none keeps the indexes in agreement. */
  lemma AgreeInsert(cols: seq<ColumnDef>, rows: Rows, columns: seq<Column>, rid: nat, row: Row)
    requires Agree(cols, rows, columns) && rid !in rows && ValidRow(cols, row)
    requires forall i | 0 <= i < |cols| && cols[i].indexed :: row[i] !in columns[i]
    ensures Agree(cols, rows[rid := row], AddTo(cols, columns, row, rid, |cols|))
  {
    var after := AddTo(cols, columns, row, rid, |cols|);
    forall i | 0 <= i < |cols| && cols[i].indexed
      ensures Lists(rows[rid := row], i, after[i])
    {
      assert CellFault(cols[i], row[i]) == None;
      assert Lists(rows, i, columns[i]);
      hide Lists;
      ListsAdd(rows, i, columns[i], rid, row);
    }
  }

  lemma AgreeDelete(cols: seq<ColumnDef>, rows: Rows, columns: seq<Column>, rid: nat)
    requires Agree(cols, rows, columns) && rid in rows && ValidRow(cols, rows[rid])
    ensures Agree(cols, rows - {rid}, TakeFrom(cols, columns, rows[rid], rid, |cols|))
  {
    var after := TakeFrom(cols, columns, rows[rid], rid, |cols|);
    forall i | 0 <= i < |cols| && cols[i].indexed
      ensures Lists(rows - {rid}, i, after[i])
    {
      assert CellFault(cols[i], rows[rid][i]) == None;
      assert Lists(rows, i, columns[i]);
      hide Lists;
      ListsRemove(rows, i, columns[i], rid);
    }
  }

  /** A row clashes with another than `except` exactly when an index lists one of its values for it. */
  lemma ClashesIff(cols: seq<ColumnDef>, rows: Rows, columns: seq<Column>, row: Row, except: nat)
    requires Agree(cols, rows, columns) && |row| == |cols|
    ensures Clashes(cols, rows, row, except) <==>
              exists i: nat :: i < |cols| && cols[i].indexed && row[i] in columns[i] && columns[i][row[i]] != except
  {
    forall i: nat, rid: nat | ClashesAt(cols, rows, row, except, i, rid)
      ensures row[i] in columns[i] && columns[i][row[i]] != except
    {
      assert Lists(rows, i, columns[i]);
    }
    forall i: nat | i < |cols| && cols[i].indexed && row[i] in columns[i] && columns[i][row[i]] != except
      ensures Clashes(cols, rows, row, except)
    {
      assert Lists(rows, i, columns[i]);
      assert ClashesAt(cols, rows, row, except, i, columns[i][row[i]]);
    }
  }
}
