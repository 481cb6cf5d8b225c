/** Tables (src/core/table.cpp): rows by id, and a B+ tree index for each indexed column, changed in place
    and kept in agreement. */
module Tables {
  import opened Values
  import opened StringPools
  import opened FlatIndex
  import opened FlatMap
  import opened TableSpec
  import opened BPlusTree

  class Table {
    const cols: seq<ColumnDef>
    const pool: StringPool
    const indexes: seq<BPlusTreeIndex?>
    var rows: Rows
    var nextRid: nat

    /** The indexes and their nodes. */
    ghost var Repr: set<object>
    /** What each index lists. */
    ghost var columns: seq<Column>

    ghost predicate Separate(i: nat, j: nat)
      requires i < |indexes| && j < |indexes|
      reads indexes[i], indexes[j]
    {
      indexes[i] != null && indexes[j] != null && i != j ==>
        indexes[i] != indexes[j] && indexes[i].Repr !! indexes[j].Repr
    }

    /** Index i is valid and stands for the map `col`. */
    ghost predicate Stands(i: nat, col: Column)
      requires i < |indexes|
      reads this`Repr, Repr, pool
    {
      indexes[i] != null ==>
        && indexes[i] in Repr && indexes[i].Repr <= Repr
        && indexes[i].pool == pool && indexes[i].Shaped() && indexes[i].Valid()
        && Represents(pool.strings, indexes[i].View(), col)
    }

    ghost predicate IndexesOk()
      reads this`Repr, this`columns, Repr, pool
    {
      && |indexes| == |cols| == |columns| && this !in Repr && pool !in Repr
      && (forall i | 0 <= i < |cols| :: indexes[i] != null <==> cols[i].indexed)
      && (forall i {:trigger Stands(i, columns[i])} | 0 <= i < |cols| :: Stands(i, columns[i]))
      && (forall i, j {:trigger Separate(i, j)} | 0 <= i < |cols| && 0 <= j < |cols| ::
            (indexes[i] != null ==> indexes[i] in Repr) && (indexes[j] != null ==> indexes[j] in Repr) && Separate(i, j))
    }

    ghost predicate Valid()
      reads this, Repr, pool
    {
      && IndexesOk() && pool.Valid()
      && WellStored(cols, pool.strings, rows, nextRid)
      && Agree(cols, rows, columns)
    }

    lemma ValidIs()
      requires Valid()
      ensures IndexesOk() && pool.Valid() && WellStored(cols, pool.strings, rows, nextRid) && Agree(cols, rows, columns)
      ensures pool !in Repr && this !in Repr && |columns| == |cols|
    {
    }

    lemma MakesValid()
      requires IndexesOk() && pool.Valid() && WellStored(cols, pool.strings, rows, nextRid) && Agree(cols, rows, columns)
      ensures Valid()
    {
    }

    constructor (cols: seq<ColumnDef>, pool: StringPool)
      requires pool.Valid()
      ensures Valid() && fresh(Repr)
      ensures this.cols == cols && this.pool == pool && rows == map[] && nextRid == 1
    {
      var ixs, objs := MakeIndexes(cols, pool);
      this.cols, this.pool, this.indexes := cols, pool, ixs;
      rows, nextRid := map[], 1;
      Repr := objs;
      columns := seq(|cols|, _ => map[]);
      new;
      hide BPlusTreeIndex.Valid, BPlusTreeIndex.View, Represents;
      forall i | 0 <= i < |cols|
        ensures Stands(i, columns[i])
      {
        assert FreshIndex(ixs[i], cols[i], pool, objs);
      }
      forall i, j | 0 <= i < |cols| && 0 <= j < |cols|
        ensures (indexes[i] != null ==> indexes[i] in Repr) && (indexes[j] != null ==> indexes[j] in Repr)
        ensures Separate(i, j)
      {
        assert FreshIndex(ixs[i], cols[i], pool, objs) && FreshIndex(ixs[j], cols[j], pool, objs);
      }
    }

    static ghost predicate FreshIndex(ix: BPlusTreeIndex?, c: ColumnDef, pool: StringPool, objs: set<object>)
      reads ix, objs, pool
    {
      && (ix != null <==> c.indexed)
      && (ix != null ==>
            && ix in objs && ix.Repr == {} && ix.pool == pool && ix.Shaped() && ix.Valid()
            && Represents(pool.strings, ix.View(), map[]))
    }

    static method MakeIndexes(cols: seq<ColumnDef>, pool: StringPool)
      returns (ixs: seq<BPlusTreeIndex?>, ghost objs: set<object>)
      requires pool.Valid()
      ensures |ixs| == |cols| && fresh(objs)
      ensures forall i {:trigger ixs[i]} | 0 <= i < |cols| :: FreshIndex(ixs[i], cols[i], pool, objs)
      ensures forall i, j | 0 <= i < j < |cols| && ixs[i] != null && ixs[j] != null :: ixs[i] != ixs[j]
    {
      hide BPlusTreeIndex.Valid, BPlusTreeIndex.View, Represents;
      ixs, objs := [], {};
      EmptyRepresents(pool.strings);
      for k := 0 to |cols|
        invariant |ixs| == k && fresh(objs)
        invariant forall i {:trigger ixs[i]} | 0 <= i < k :: FreshIndex(ixs[i], cols[i], pool, objs)
        invariant forall i, j | 0 <= i < j < k && ixs[i] != null && ixs[j] != null :: ixs[i] != ixs[j]
      {
        if cols[k].indexed {
          var ix := new BPlusTreeIndex(pool, 32);
          ValidIsShaped(ix);
          EmptyIndexRepr(ix);
          ixs, objs := ixs + [ix], objs + {ix};
        } else {
          ixs := ixs + [null];
        }
      }
    }

    /** Nothing but index i and its nodes has changed, and the nodes it gained are new. */
    twostate predicate OnlyIndex(i: nat, before: set<object>)
      requires i < |indexes|
      reads this, before, indexes[i], (if indexes[i] == null then {} else indexes[i].Repr)
    {
      && before == old(Repr) && indexes[i] != null && old(indexes[i].Repr) <= before
      && fresh(indexes[i].Repr - old(indexes[i].Repr))
      && (forall o | o in before && o != indexes[i] && o !in old(indexes[i].Repr) :: unchanged(o))
      && Repr == before + indexes[i].Repr
    }

    twostate lemma OtherStands(new i: nat, new j: nat, new col: Column)
      requires i < |indexes| && j < |indexes| && j != i && unchanged(pool)
      requires OnlyIndex(i, old(Repr)) && old(Stands(j, col)) && old(Separate(i, j))
      ensures Stands(j, col)
    {
      hide BPlusTreeIndex.Valid, BPlusTreeIndex.View, Represents;
    }

    twostate lemma StillSeparate(new i: nat, new j: nat, new k: nat)
      requires i < |indexes| && j < |indexes| && k < |indexes| && OnlyIndex(i, old(Repr))
      requires indexes[j] != null ==> indexes[j] in old(Repr) && old(indexes[j].Repr) <= old(Repr)
      requires indexes[k] != null ==> indexes[k] in old(Repr) && old(indexes[k].Repr) <= old(Repr)
      requires old(Separate(j, k)) && old(Separate(i, j)) && old(Separate(i, k))
      ensures Separate(j, k)
    {
    }

    twostate lemma AllStand(new i: nat, new col: Column)
      requires old(IndexesOk()) && i < |cols| && OnlyIndex(i, old(Repr)) && unchanged(pool)
      requires columns == old(columns)[i := col] && Stands(i, col)
      ensures forall j {:trigger Stands(j, columns[j])} | 0 <= j < |cols| :: Stands(j, columns[j])
    {
      forall j | 0 <= j < |cols|
        ensures Stands(j, columns[j])
      {
        assert old(Separate(i, j)) && old(Stands(j, columns[j]));
        hide Stands, Separate;
        if j != i { OtherStands(i, j, columns[j]); }
      }
    }

    /** After a change to index i alone the indexes are in order again. */
    twostate lemma IndexChanged(new i: nat, new col: Column)
      requires old(IndexesOk()) && i < |cols| && OnlyIndex(i, old(Repr)) && unchanged(pool)
      requires columns == old(columns)[i := col] && Stands(i, col)
      ensures IndexesOk()
    {
      AllStand(i, col);
      forall a, b | 0 <= a < |cols| && 0 <= b < |cols|
        ensures (indexes[a] != null ==> indexes[a] in Repr) && (indexes[b] != null ==> indexes[b] in Repr)
        ensures Separate(a, b)
      {
        assert old(Separate(a, b)) && old(Separate(i, a)) && old(Separate(i, b));
        assert old(Stands(a, columns[a])) && old(Stands(b, columns[b]));
        StillSeparate(i, a, b);
      }
    }

    lemma IndexIs(i: nat)
      requires IndexesOk() && i < |cols| && indexes[i] != null
      ensures |indexes| == |cols| == |columns| && this !in Repr && pool !in Repr
      ensures var ix := indexes[i];
        && ix in Repr && ix.Repr <= Repr && ix.pool == pool && ix.Shaped() && ix.Valid()
        && Represents(pool.strings, ix.View(), columns[i])
    {
      hide BPlusTreeIndex.Valid, BPlusTreeIndex.View, Represents;
      assert Stands(i, columns[i]);
    }

    lemma MakesStand(i: nat, col: Column)
      requires i < |indexes| && indexes[i] != null
      requires var ix := indexes[i];
        && ix in Repr && ix.Repr <= Repr && ix.pool == pool && ix.Valid() && ix.Shaped()
        && Represents(pool.strings, ix.View(), col)
      ensures Stands(i, col)
    {
      hide BPlusTreeIndex.Valid, BPlusTreeIndex.View, Represents;
    }

    /** Adds one pair to one index; the others stay as they are. */
    method IndexInsert(i: nat, key: Value, rid: nat)
      requires IndexesOk() && i < |cols| && indexes[i] != null
      requires Interned(pool.strings, key) && key !in columns[i]
      modifies Repr, this`columns, this`Repr
      ensures IndexesOk() && fresh(Repr - old(Repr)) && old(Repr) <= Repr
      ensures columns == old(columns)[i := With(old(columns)[i], key, rid)]
    {
      hide IndexesOk, Stands, Separate, BPlusTreeIndex.Valid, BPlusTreeIndex.Shaped, BPlusTreeIndex.View, Represents,
           FlatIndex.Insert, Interned;
      IndexIs(i);
      var ix := indexes[i];
      InsertRefines(pool.strings, ix.order, ix.View(), columns[i], Entry(key, rid));
      ix.Insert(key, rid);
      ValidIsShaped(ix);
      Repr := Repr + ix.Repr;
      columns := columns[i := With(columns[i], key, rid)];
      MakesStand(i, columns[i]);
      IndexChanged(i, columns[i]);
    }

    /** Takes one pair out of one index, if it is there. */
    method IndexErase(i: nat, key: Value, rid: nat)
      requires IndexesOk() && i < |cols| && indexes[i] != null
      requires Interned(pool.strings, key)
      modifies Repr, this`columns
      ensures IndexesOk() && Repr == old(Repr)
      ensures columns == old(columns)[i := Removed(old(columns)[i], key, rid)]
    {
      hide IndexesOk, Stands, Separate, BPlusTreeIndex.Valid, BPlusTreeIndex.Shaped, BPlusTreeIndex.View, Represents,
           FlatIndex.Erase, Erases, Removed, Interned;
      IndexIs(i);
      var ix := indexes[i];
      EraseRefines(pool.strings, ix.View(), columns[i], key, rid);
      var _ := ix.Erase(key, rid);
      ValidIsShaped(ix);
      columns := columns[i := Removed(columns[i], key, rid)];
      MakesStand(i, columns[i]);
      IndexChanged(i, columns[i]);
    }

    method IndexFind(i: nat, key: Value) returns (ids: seq<nat>)
      requires IndexesOk() && i < |cols| && indexes[i] != null && Interned(pool.strings, key)
      ensures ids == if key in columns[i] then [columns[i][key]] else []
    {
      hide BPlusTreeIndex.Valid, BPlusTreeIndex.View, Represents, FlatIndex.FindEqual;
      assert Stands(i, columns[i]);
      FindEqualRefines(pool.strings, indexes[i].View(), columns[i], key);
      ids := indexes[i].FindEqual(key);
    }

    method ColumnNumber(colName: string) returns (r: int)
      ensures r == ColumnIndex(cols, colName)
    {
      for i := 0 to |cols|
        invariant forall j | 0 <= j < i :: cols[j].name != colName
      {
        if cols[i].name == colName {
          return i;
        }
      }
      return -1;
    }

    /** The first fault of a row, if it has any. */
    method ValidateRow(row: Row) returns (fault: Option<Fault>)
      ensures fault == None <==> ValidRow(cols, row)
      ensures fault == None <==> Conforms(cols, row)
      ensures |row| == |cols| && fault != None ==>
                exists i :: 0 <= i < |cols| && !ConformsAt(cols[i], row[i]) && (forall j | 0 <= j < i :: ConformsAt(cols[j], row[j])) &&
                            fault == Some(if row[i] == Null then NullIn(cols[i].name) else TypeMismatch(cols[i].name))
      ensures |row| != |cols| ==> fault == Some(Width)
      ensures |row| == |cols| && fault != None ==>
                exists i :: 0 <= i < |cols| && CellFault(cols[i], row[i]) == fault &&
                            forall j | 0 <= j < i :: CellFault(cols[j], row[j]) == None
    {
      ValidRowConforms(cols, row);
      if |row| != |cols| {
        return Some(Width);
      }
      for i := 0 to |cols|
        invariant forall j | 0 <= j < i :: CellFault(cols[j], row[j]) == None
      {
        if cols[i].notNull || cols[i].indexed {
          if row[i].Null? {
            return Some(NullIn(cols[i].name));
          }
        }
        if !row[i].Null? {
          if cols[i].ty.IntCol? && !row[i].Int? {
            return Some(TypeMismatch(cols[i].name));
          }
          if cols[i].ty.StringCol? && !row[i].Str? {
            return Some(TypeMismatch(cols[i].name));
          }
        }
      }
      return None;
    }

    method IndexRemoveRow(rid: nat, row: Row)
      requires IndexesOk() && |row| == |cols| && InternedRow(pool.strings, row)
      modifies Repr, this`columns
      ensures IndexesOk() && Repr == old(Repr)
      ensures columns == TakeFrom(cols, old(columns), row, rid, |cols|)
    {
      hide Stands, Separate;
      ghost var before := columns;
      for i := 0 to |cols|
        invariant IndexesOk() && Repr == old(Repr) && columns == TakeFrom(cols, before, row, rid, i)
      {
        if indexes[i] != null && !row[i].Null? {
          IndexErase(i, row[i], rid);
        }
        assert columns == TakeFrom(cols, before, row, rid, i + 1);
      }
    }

    method IndexInsertRow(rid: nat, row: Row)
      requires IndexesOk() && |row| == |cols| && InternedRow(pool.strings, row)
      requires forall i | 0 <= i < |cols| && cols[i].indexed :: row[i] !in columns[i]
      modifies Repr, this`columns, this`Repr
      ensures IndexesOk() && fresh(Repr - old(Repr)) && old(Repr) <= Repr
      ensures columns == AddTo(cols, old(columns), row, rid, |cols|)
    {
      hide Stands, Separate;
      ghost var before := columns;
      for i := 0 to |cols|
        invariant IndexesOk() && fresh(Repr - old(Repr)) && old(Repr) <= Repr
        invariant columns == AddTo(cols, before, row, rid, i)
      {
        if indexes[i] != null && !row[i].Null? {
          IndexInsert(i, row[i], rid);
        }
        assert columns == AddTo(cols, before, row, rid, i + 1);
      }
    }

    /** An indexed column whose index lists the row's value, or -1. */
    method FindDuplicate(row: Row) returns (r: int)
      requires IndexesOk() && ValidRow(cols, row) && InternedRow(pool.strings, row)
      ensures r < |cols|
      ensures r >= 0 ==> cols[r].indexed && row[r] in columns[r]
      ensures r < 0 ==> forall i | 0 <= i < |cols| && cols[i].indexed :: row[i] !in columns[i]
    {
      hide Stands, Separate;
      for i := 0 to |cols|
        invariant forall j | 0 <= j < i && cols[j].indexed :: row[j] !in columns[j]
      {
        assert CellFault(cols[i], row[i]) == None;
        if indexes[i] != null && !row[i].Null? {
          var ex := IndexFind(i, row[i]);
          if ex != [] {
            return i;
          }
        }
      }
      return -1;
    }

    /** An indexed column whose index lists the row's value for a row other than rid, or -1. */
    method FindDuplicateElsewhere(rid: nat, row: Row) returns (r: int)
      requires IndexesOk() && ValidRow(cols, row) && InternedRow(pool.strings, row)
      ensures r < |cols|
      ensures r >= 0 ==> cols[r].indexed && row[r] in columns[r] && columns[r][row[r]] != rid
      ensures r < 0 ==> forall i | 0 <= i < |cols| && cols[i].indexed && row[i] in columns[i] :: columns[i][row[i]] == rid
    {
      hide Stands, Separate;
      for i := 0 to |cols|
        invariant forall j | 0 <= j < i && cols[j].indexed && row[j] in columns[j] :: columns[j][row[j]] == rid
      {
        assert CellFault(cols[i], row[i]) == None;
        if indexes[i] != null && !row[i].Null? {
          var ex := IndexFind(i, row[i]);
          for x := 0 to |ex|
            invariant forall y | 0 <= y < x :: ex[y] == rid
          {
            if ex[x] != rid {
              return i;
            }
          }
          assert row[i] in columns[i] ==> ex[0] == rid;
        }
      }
      return -1;
    }

    /** Stores a new row under a fresh id, or, when it is invalid or repeats an indexed value, changes
        nothing and returns 0. */
    method InsertRow(row: Row) returns (rid: nat, fault: Option<Fault>)
      requires Valid() && InternedRow(pool.strings, row)
      modifies this, Repr
      ensures Valid() && fresh(Repr - old(Repr))
      ensures rid != 0 <==> ValidRow(cols, row) && !Clashes(cols, old(rows), row, 0)
      ensures rid != 0 <==> Conforms(cols, row) && !Clashes(cols, old(rows), row, 0)
      ensures rid != 0 <==> fault == None
      ensures rid != 0 ==> rid == old(nextRid) && rid !in old(rows) && rows == old(rows)[rid := row] && nextRid == rid + 1
      ensures rid == 0 ==> rows == old(rows) && nextRid == old(nextRid) && columns == old(columns)
    {
      ValidRowConforms(cols, row);
      fault := ValidateRow(row);
      if fault != None {
        return 0, fault;
      }
      hide Clashes;
      var dup := FindDuplicate(row);
      InsertVerdict(cols, rows, columns, row, dup);
      if dup >= 0 {
        return 0, Some(Duplicate(cols[dup].name));
      }
      assert pool !in Repr && this !in Repr;
      hide IndexesOk;
      AgreeInsert(cols, rows, columns, nextRid, row);
      ghost var after := AddTo(cols, columns, row, nextRid, |cols|);
      IndexInsertRow(nextRid, row);
      rid := nextRid;
      nextRid := nextRid + 1;
      rows := rows[rid := row];
    }

    /** Replaces a stored row, or changes nothing and returns false when there is none, or the new row is
        invalid or repeats a value that another row has in an indexed column. */
    method UpdateRow(rid: nat, newRow: Row) returns (ok: bool, fault: Option<Fault>)
      requires Valid() && InternedRow(pool.strings, newRow)
      modifies this, Repr
      ensures Valid() && fresh(Repr - old(Repr)) && nextRid == old(nextRid)
      ensures ok <==> rid in old(rows) && ValidRow(cols, newRow) && !Clashes(cols, old(rows), newRow, rid)
      ensures ok <==> rid in old(rows) && Conforms(cols, newRow) && !Clashes(cols, old(rows), newRow, rid)
      ensures ok <==> fault == None
      ensures ok ==> rows == old(rows)[rid := newRow]
      ensures !ok ==> rows == old(rows) && columns == old(columns)
    {
      hide *;
      ValidIs();
      ValidRowConforms(cols, newRow);
      if rid !in rows {
        return false, Some(NoSuchRow);
      }
      fault := ValidateRow(newRow);
      if fault != None {
        return false, fault;
      }
      var oldRow := rows[rid];
      var dup := FindDuplicateElsewhere(rid, newRow);
      UpdateVerdict(cols, rows, columns, rid, newRow, dup);
      if dup >= 0 {
        return false, Some(Duplicate(cols[dup].name));
      }
      UpdateAgrees(cols, pool.strings, rows, nextRid, columns, rid, newRow);
      IndexRemoveRow(rid, oldRow);
      rows := rows[rid := newRow];
      IndexInsertRow(rid, newRow);
      ok := true;
      MakesValid();
    }

    /** Removes a stored row. */
    method DeleteRow(rid: nat) returns (ok: bool)
      requires Valid()
      modifies this, Repr
      ensures Valid() && Repr == old(Repr) && nextRid == old(nextRid)
      ensures ok <==> rid in old(rows)
      ensures rows == old(rows) - {rid}
    {
      if rid !in rows {
        assert rows - {rid} == rows;
        return false;
      }
      assert pool !in Repr && this !in Repr;
      hide IndexesOk;
      AgreeDelete(cols, rows, columns, rid);
      IndexRemoveRow(rid, rows[rid]);
      rows := rows - {rid};
      return true;
    }

    /** All row ids, in some order. */
    method AllRowIds() returns (ids: seq<nat>)
      ensures forall rid :: rid in ids <==> rid in rows
      ensures forall i, j | 0 <= i < j < |ids| :: ids[i] != ids[j]
    {
      ids := [];
      var left := rows.Keys;
      while left != {}
        invariant left <= rows.Keys
        invariant forall rid :: rid in ids <==> rid in rows.Keys - left
        invariant forall i, j | 0 <= i < j < |ids| :: ids[i] != ids[j]
        decreases |left|
      {
        var rid :| rid in left;
        ids := ids + [rid];
        left := left - {rid};
      }
    }

    /** Strings interned by others leave the table and all its indexes valid. */
    twostate lemma PoolGrew()
      requires old(Valid()) && unchanged(this) && (forall o | o in old(Repr) :: unchanged(o))
      requires pool.Valid() && old(pool.strings) <= pool.strings
      ensures Valid()
    {
      forall i | 0 <= i < |cols|
        ensures Stands(i, columns[i])
      {
        assert old(Stands(i, columns[i]));
        if indexes[i] != null {
          GrowRefines(old(pool.strings), pool.strings, indexes[i].View(), columns[i]);
        }
      }
      forall i, j | 0 <= i < |cols| && 0 <= j < |cols|
        ensures (indexes[i] != null ==> indexes[i] in Repr) && (indexes[j] != null ==> indexes[j] in Repr)
        ensures Separate(i, j)
      {
        assert old(Separate(i, j));
      }
    }
  }

  lemma InsertVerdict(cols: seq<ColumnDef>, rows: Rows, columns: seq<Column>, row: Row, dup: int)
    requires Agree(cols, rows, columns) && |row| == |cols| && 0 !in rows && dup < |cols|
    requires dup >= 0 ==> cols[dup].indexed && row[dup] in columns[dup]
    requires dup < 0 ==> forall i | 0 <= i < |cols| && cols[i].indexed :: row[i] !in columns[i]
    ensures dup >= 0 <==> Clashes(cols, rows, row, 0)
  {
    ClashesIff(cols, rows, columns, row, 0);
    if dup >= 0 {
      assert Lists(rows, dup, columns[dup]);
    }
  }

  /** Once a row's values are taken out, no index lists a value that only this row may hold. */
  lemma FreedKeys(cols: seq<ColumnDef>, rows: Rows, columns: seq<Column>, rid: nat, newRow: Row)
    requires Agree(cols, rows, columns) && rid in rows && ValidRow(cols, rows[rid]) && |newRow| == |cols|
    requires forall i | 0 <= i < |cols| && cols[i].indexed && newRow[i] in columns[i] :: columns[i][newRow[i]] == rid
    ensures forall i | 0 <= i < |cols| && cols[i].indexed ::
              newRow[i] !in TakeFrom(cols, columns, rows[rid], rid, |cols|)[i]
  {
    forall i | 0 <= i < |cols| && cols[i].indexed
      ensures newRow[i] !in TakeFrom(cols, columns, rows[rid], rid, |cols|)[i]
    {
      assert Lists(rows, i, columns[i]);
      assert CellFault(cols[i], rows[rid][i]) == None;
    }
  }

  lemma UpdateVerdict(cols: seq<ColumnDef>, rows: Rows, columns: seq<Column>, rid: nat, row: Row, dup: int)
    requires Agree(cols, rows, columns) && |row| == |cols| == |columns| && dup < |cols|
    requires dup >= 0 ==> cols[dup].indexed && row[dup] in columns[dup] && columns[dup][row[dup]] != rid
    requires dup < 0 ==> forall i | 0 <= i < |cols| && cols[i].indexed && row[i] in columns[i] :: columns[i][row[i]] == rid
    ensures dup >= 0 <==> Clashes(cols, rows, row, rid)
  {
    ClashesIff(cols, rows, columns, row, rid);
    hide Clashes;
  }

  /** Taking the old row's values out and putting the new row's in keeps the indexes in agreement. */
  lemma UpdateAgrees(cols: seq<ColumnDef>, pool: seq<string>, rows: Rows, next: nat, columns: seq<Column>, rid: nat, row: Row)
    requires WellStored(cols, pool, rows, next) && Agree(cols, rows, columns) && |columns| == |cols| && rid in rows
    requires ValidRow(cols, row) && InternedRow(pool, row) && |row| == |cols|
    requires forall i | 0 <= i < |cols| && cols[i].indexed && row[i] in columns[i] :: columns[i][row[i]] == rid
    ensures |rows[rid]| == |cols| && InternedRow(pool, rows[rid]) && WellStored(cols, pool, rows[rid := row], next)
    ensures var less := TakeFrom(cols, columns, rows[rid], rid, |cols|);
      && Agree(cols, rows[rid := row], AddTo(cols, less, row, rid, |cols|))
      && forall i | 0 <= i < |cols| && cols[i].indexed :: row[i] !in less[i]
  {
    hide Agree, TakeFrom, AddTo, CellFault;
    var less := TakeFrom(cols, columns, rows[rid], rid, |cols|);
    AgreeDelete(cols, rows, columns, rid);
    FreedKeys(cols, rows, columns, rid, row);
    AgreeInsert(cols, rows - {rid}, less, rid, row);
    assert (rows - {rid})[rid := row] == rows[rid := row];
  }

  lemma ValidIsShaped(ix: BPlusTreeIndex)
    requires ix.Valid()
    ensures ix.Shaped()
  {
  }

  lemma EmptyIndexRepr(ix: BPlusTreeIndex)
    requires ix.Shaped() && ix.View() == EMPTY
    ensures ix.Repr == {}
  {
  }
}
