/** Statements executed on a table object (src/exec/executor.cpp:176-209, 266-352, 377-413 and
    src/sql/where_eval.cpp): evaluation interns literals into the pool that the table's indexes read. */
module Execution {
  import opened Values
  import opened StringPools
  import opened TableSpec
  import opened UpdateSpec
  import opened WhereSyntax
  import opened WhereEval
  import opened Query
  import opened Selection
  import opened Denotations
  import opened Tables

  lemma LitValueKept(pool: seq<string>, bigger: seq<string>, l: Literal)
    requires PoolOk(pool) && PoolOk(bigger) && PoolWith(pool, l) <= bigger
    ensures LitValue(bigger, l) == LitValue(pool, l) && Interned(bigger, LitValue(bigger, l))
  {
    if l.StrLit? {
      InternKeepsPool(pool, l.s);
      SlotStable(PoolWith(pool, l), bigger, l.s);
    }
  }

  method LitToVal(lit: Literal, pool: StringPool) returns (v: Value)
    requires pool.Valid()
    modifies pool
    ensures pool.Valid() && old(pool.strings) <= pool.strings == PoolWith(old(pool.strings), lit)
    ensures v == LitValue(old(pool.strings), lit) == LitValue(pool.strings, lit) && Interned(pool.strings, v)
  {
    match lit
    case NullLit => v := Null;
    case IntLit(n) => v := Int(n);
    case StrLit(s) =>
      InternKeepsPool(pool.strings, s);
      var id := pool.Intern(s);
      v := Value.Str(id);
  }

  /** Compares a cell with a literal by interning the literal first. */
  method CompareLiteral(cell: Value, lit: Literal, pool: StringPool) returns (c: int)
    requires pool.Valid() && Interned(pool.strings, cell)
    modifies pool
    ensures pool.Valid() && old(pool.strings) <= pool.strings
    ensures c == LitCmp(old(pool.strings), cell, lit)
  {
    var v := LitToVal(lit, pool);
    LitCmpIsCmp(old(pool.strings), pool.strings, cell, lit);
    c := pool.Compare(cell, v);
  }

  method EvalTest(tab: Table, p: Pred, row: Row, like: LikeFn, err: Err) returns (b: bool, e: Err)
    requires tab.pool.Valid() && |row| == |tab.cols| && InternedRow(tab.pool.strings, row)
    modifies tab.pool
    ensures tab.pool.Valid() && old(tab.pool.strings) <= tab.pool.strings
    ensures (b, e) == Settle(EvalPred(Env(tab.cols, old(tab.pool.strings), like), row, p), err)
    ensures b <==> PredTrue(tab.cols, Data(old(tab.pool.strings), row), like, p)
    ensures forall x :: PredRaises(tab.cols, Data(old(tab.pool.strings), row), like, p, x) ==> e == Some(x)
    ensures e == err || exists x :: PredRaises(tab.cols, Data(old(tab.pool.strings), row), like, p, x)
  {
    hide LitCmp, Cmp, PredTrue, PredRaises;
    ghost var env := Env(tab.cols, tab.pool.strings, like);
    PredMeans(env, row, p);
    var i := tab.ColumnNumber(p.col);
    assert i >= 0 ==> row[i] in row;
    match p
    case Compare(c, op, rhs) =>
      if i < 0 {
        return false, Some(UnknownColumn(c));
      }
      match rhs {
        case ColumnRef(d) =>
          var j := tab.ColumnNumber(d);
          if j < 0 {
            return false, Some(UnknownColumn(d));
          }
          return OpHolds(op, tab.pool.Compare(row[i], row[j])), err;
        case Const(l) =>
          var s := CompareLiteral(row[i], l, tab.pool);
          return OpHolds(op, s), err;
      }
    case Between(_, lo, hi) =>
      if i < 0 {
        return false, Some(UnknownInBetween);
      }
      var s := CompareLiteral(row[i], lo, tab.pool);
      LitCmpStable(env.pool, tab.pool.strings, row[i], hi);
      var t := CompareLiteral(row[i], hi, tab.pool);
      return s >= 0 && t <= 0, err;
    case Like(_, pattern) =>
      if i < 0 || !row[i].Str? {
        return false, Some(LikeNeedsString);
      }
      var text := tab.pool.ResolveId(row[i].id);
      match like(pattern, text) {
        case Match => return true, err;
        case NoMatch => return false, err;
        case BadRegex => return false, Some(InvalidRegex);
      }
  }

  lemma LitCmpStable(pool: seq<string>, bigger: seq<string>, v: Value, l: Literal)
    requires pool <= bigger && Interned(pool, v)
    ensures LitCmp(bigger, v, l) == LitCmp(pool, v, l) && Interned(bigger, v)
  {
  }

  /** `eval_node`: recursion over node indexes. */
  method EvalNode(tab: Table, w: seq<WhereNode>, idx: int, row: Row, like: LikeFn, err: Err) returns (b: bool, e: Err)
    requires tab.pool.Valid() && |row| == |tab.cols| && InternedRow(tab.pool.strings, row) && ChildrenBefore(w, 0)
    modifies tab.pool
    ensures tab.pool.Valid() && old(tab.pool.strings) <= tab.pool.strings
    ensures (b, e) == EvalFlat(Env(tab.cols, old(tab.pool.strings), like), row, w, idx, err)
    decreases if idx < 0 then 0 else idx + 1
  {
    hide EvalPred;
    if idx < 0 || idx >= |w| {
      return false, Some(BadNode);
    }
    ghost var env := Env(tab.cols, tab.pool.strings, like);
    match w[idx]
    case ParenNode(c) =>
      assert HasChild(w[idx], c);
      b, e := EvalNode(tab, w, c, row, like, err);
    case BoolNode(isAnd, l, r) =>
      assert HasChild(w[idx], l) && HasChild(w[idx], r);
      var lb, le := EvalNode(tab, w, l, row, like, err);
      if le != None {
        return false, le;
      }
      InternedStays(env.pool, tab.pool.strings, row);
      EvalFlatStable(env, tab.pool.strings, row, w, r, le);
      var rb, re := EvalNode(tab, w, r, row, like, le);
      if re != None {
        return false, re;
      }
      return if isAnd then lb && rb else lb || rb, None;
    case TestNode(p) =>
      b, e := EvalTest(tab, p, row, like, err);
  }

  lemma InternedStays(pool: seq<string>, bigger: seq<string>, row: Row)
    requires pool <= bigger && InternedRow(pool, row)
    ensures InternedRow(bigger, row)
  {
  }

  /** Evaluates the clause on a stored row; only the pool changes, and the outcome is what it would have
      been with the pool as it was when the statement began. */
  method EvalRow(tab: Table, w: seq<WhereNode>, root: int, ghost c: Clause, rid: nat, like: LikeFn,
                 ghost start: seq<string>, err: Err) returns (b: bool, e: Err)
    requires tab.Valid() && rid in tab.rows && w == NodesOf(c) && root == RootOf(c)
    requires start <= tab.pool.strings && InternedRow(start, tab.rows[rid])
    modifies tab.pool
    ensures tab.Valid() && old(tab.pool.strings) <= tab.pool.strings
    ensures |tab.rows[rid]| == |tab.cols|
    ensures (b, e) == EvalClause(Env(tab.cols, start, like), tab.rows[rid], c, err)
    ensures err == None ==> (b <==> Satisfies(tab.cols, Data(start, tab.rows[rid]), like, c))
  {
    hide Satisfies;
    var row := tab.rows[rid];
    assert tab.pool !in tab.Repr;
    ghost var env := Env(tab.cols, tab.pool.strings, like);
    ClauseMeans(Env(tab.cols, start, like), row, c);
    ClauseStable(Env(tab.cols, start, like), tab.pool.strings, row, c, err);
    if root < 0 {
      return true, err;
    }
    ClauseIsTree(env, row, c.value, err);
    hide Table.Valid, EvalFlat, EvalTree;
    b, e := EvalNode(tab, w, root, row, like, err);
    tab.PoolGrew();
  }

  /** `extract_index_eq`. */
  method ExtractIndexEq(tab: Table, w: seq<WhereNode>, idx: int) returns (found: bool, ci: nat, key: Value)
    requires tab.pool.Valid() && ChildrenBefore(w, 0)
    modifies tab.pool
    ensures tab.pool.Valid() && old(tab.pool.strings) <= tab.pool.strings
    ensures found <==> ExtractFlat(tab.cols, w, idx).Some?
    ensures found ==>
              var (i, lit) := ExtractFlat(tab.cols, w, idx).value;
              && ci == i < |tab.cols| && tab.cols[ci].indexed
              && PoolWith(old(tab.pool.strings), lit) <= tab.pool.strings
              && key == LitValue(old(tab.pool.strings), lit)
    ensures !found ==> tab.pool.strings == old(tab.pool.strings)
    decreases if idx < 0 then 0 else idx + 1
  {
    ci, key := 0, Null;
    if idx < 0 || idx >= |w| {
      return false, ci, key;
    }
    match w[idx]
    case ParenNode(c) =>
      assert HasChild(w[idx], c);
      found, ci, key := ExtractIndexEq(tab, w, c);
    case BoolNode(isAnd, l, r) =>
      assert HasChild(w[idx], l) && HasChild(w[idx], r);
      if !isAnd {
        return false, ci, key;
      }
      found, ci, key := ExtractIndexEq(tab, w, l);
      if !found {
        found, ci, key := ExtractIndexEq(tab, w, r);
      }
    case TestNode(p) =>
      if p.Compare? && p.op.OpEq? && p.rhs.Const? {
        var i := tab.ColumnNumber(p.col);
        if i >= 0 && tab.cols[i].indexed {
          ci := i;
          key := LitToVal(p.rhs.lit, tab.pool);
          return true, ci, key;
        }
      }
      return false, ci, key;
  }

  /** The index lists the key exactly if some stored row has the value of the equality, and then it names the one
      row that has. */
  lemma IndexAnswers(env: Env, rows: Rows, columns: seq<Column>, e: Expr, key: Value)
    requires Grounded(env, rows) && Agree(env.cols, rows, columns) && Extract(env.cols, e).Some?
    requires |env.pool| > 0 && key == LitValue(env.pool, Extract(env.cols, e).value.1)
    ensures var ci := Extract(env.cols, e).value.0;
      && ci < |env.cols| && env.cols[ci].indexed
      && (key in columns[ci] <==> Answered(env, rows, Some(e)))
      && (key in columns[ci] ==> Proposed(env, rows, Some(e), [columns[ci][key]]))
  {
    ExtractIndexed(env.cols, e);
    var ci := Extract(env.cols, e).value.0;
    assert Lists(rows, ci, columns[ci]);
    if key in columns[ci] { EqualRowIs(env, rows, Some(e), columns[ci][key]); }
    if Answered(env, rows, Some(e)) {
      var r :| AnsweredBy(env, rows, Some(e), r);
      EqualRowIs(env, rows, Some(e), r);
    }
  }

  lemma NotAnswered(env: Env, rows: Rows, c: Clause, ids: seq<nat>)
    requires Wide(env, rows) && Distinct(ids) && (forall r :: r in ids <==> r in rows)
    requires !Answered(env, rows, c)
    ensures Proposed(env, rows, c, ids)
  {
    MembersIff(ids);
    forall k | 0 <= k < |ids|
      ensures ids[k] in rows
    {
      assert ids[k] in ids;
    }
    assert forall r | r in Members(ids) :: r in rows;
    assert Members(ids) == rows.Keys;
  }

  /** `candidate_rows`: the row that an index finds for an equality the clause implies, or all rows when there
      is no such equality or the index finds none. */
  method CandidateRows(tab: Table, w: seq<WhereNode>, root: int, ghost c: Clause, ghost like: LikeFn)
    returns (ids: seq<nat>)
    requires tab.Valid() && w == NodesOf(c) && root == RootOf(c)
    modifies tab.pool
    ensures tab.Valid() && old(tab.pool.strings) <= tab.pool.strings
    ensures var env := Env(tab.cols, old(tab.pool.strings), like);
      && Grounded(env, tab.rows) && Proposed(env, tab.rows, c, ids) && Complete(env, tab.rows, c, ids)
      && IndexRowOrAll(env, tab.rows, c, ids)
  {
    ghost var env := Env(tab.cols, tab.pool.strings, like);
    TableGrounded(tab, like);
    assert tab.pool !in tab.Repr;
    ghost var rows := tab.rows;
    hide Proposed, Complete, Answered, Grounded, IndexRowOrAll;
    if root >= 0 {
      ExtractFlatOfClause(tab.cols, c.value);
      var answered;
      answered, ids := AskIndex(tab, w, root, c, like);
      if answered {
        ProposedComplete(env, rows, c, ids);
        ProposedIsRowOrAll(env, rows, c, ids);
        return;
      }
    } else {
      NoEquality(env, rows, c);
    }
    ids := tab.AllRowIds();
    NotAnswered(env, rows, c, ids);
    ProposedComplete(env, rows, c, ids);
    ProposedIsRowOrAll(env, rows, c, ids);
  }

  lemma NoEquality(env: Env, rows: Rows, c: Clause)
    requires Wide(env, rows) && (c.None? || Extract(env.cols, c.value).None?)
    ensures !Answered(env, rows, c)
  {
  }

  lemma ValidIsUnique(tab: Table)
    requires tab.Valid()
    ensures UniqueRows(tab.cols, tab.rows)
    ensures forall r | r in tab.rows :: InternedRow(tab.pool.strings, tab.rows[r])
    ensures PoolOk(tab.pool.strings)
  {
    forall i, r, s | 0 <= i < |tab.cols| && tab.cols[i].indexed && r in tab.rows && s in tab.rows && r != s
      ensures tab.rows[r][i] != tab.rows[s][i]
    {
      AgreeUnique(tab.cols, tab.rows, tab.columns, i, r, s);
    }
  }

  lemma TableGrounded(tab: Table, like: LikeFn)
    requires tab.Valid()
    ensures Grounded(Env(tab.cols, tab.pool.strings, like), tab.rows) && |tab.pool.strings| > 0
    ensures Agree(tab.cols, tab.rows, tab.columns)
  {
    ValidIsUnique(tab);
  }

  /** Looks for an equality and asks its index; `answered` says that the index found a row. */
  method AskIndex(tab: Table, w: seq<WhereNode>, root: int, ghost c: Clause, ghost like: LikeFn)
    returns (answered: bool, ids: seq<nat>)
    requires tab.Valid() && ChildrenBefore(w, 0) && c.Some?
    requires ExtractFlat(tab.cols, w, root) == Extract(tab.cols, c.value)
    modifies tab.pool
    ensures tab.Valid() && old(tab.pool.strings) <= tab.pool.strings
    ensures var env := Env(tab.cols, old(tab.pool.strings), like);
      && Wide(env, tab.rows) && (answered <==> Answered(env, tab.rows, c))
      && (answered ==> Proposed(env, tab.rows, c, ids))
  {
    ghost var env := Env(tab.cols, tab.pool.strings, like);
    ghost var rows, columns := tab.rows, tab.columns;
    TableGrounded(tab, like);
    assert Wide(env, rows) && tab.pool !in tab.Repr;
    hide Proposed, Answered, Grounded, Agree, ExtractFlat, Extract;
    var found, ci, key := ExtractIndexEq(tab, w, root);
    tab.PoolGrew();
    ids := [];
    if !found {
      NoEquality(env, rows, c);
      return false, ids;
    }
    IndexAnswers(env, rows, columns, c.value, key);
    LitCmpIsCmp(env.pool, tab.pool.strings, Null, Extract(tab.cols, c.value).value.1);
    ids := tab.IndexFind(ci, key);
    answered := ids != [];
  }

  lemma ExtractFlatOfClause(cols: seq<ColumnDef>, e: Expr)
    ensures ChildrenBefore(Flatten(e, 0), 0)
    ensures ExtractFlat(cols, Flatten(e, 0), |Flatten(e, 0)| - 1) == Extract(cols, e)
  {
    FlattenIsPostOrder(e, 0);
    var w := Flatten(e, 0);
    assert w[0..0 + |w|] == w;
    ExtractFlatIsExtract(cols, w, 0, e);
  }

  lemma FilterRowsStep(env: Env, rows: Rows, c: Clause, ids: seq<nat>, k: nat, err: Err)
    requires Wide(env, rows) && Stored(rows, ids) && k < |ids|
    ensures var v := EvalClause(env, rows[ids[k]], c, err);
            && Stored(rows, ids[k..]) && Stored(rows, ids[k + 1..])
            && FilterRows(env, rows, c, ids[k..], err) ==
                 ((if v.0 then [ids[k]] else []) + FilterRows(env, rows, c, ids[k + 1..], v.1).0,
                  FilterRows(env, rows, c, ids[k + 1..], v.1).1)
  {
    hide EvalClause;
    assert ids[k..][0] == ids[k] && ids[k..][1..] == ids[k + 1..];
  }

  lemma AppendAssoc<T>(a: seq<T>, b: seq<T>, c: seq<T>)
    ensures a + (b + c) == (a + b) + c
  {
  }

  /** The rows among `ids` on which the clause evaluates to true, one after the other. */
  method FilterIds(tab: Table, w: seq<WhereNode>, root: int, ghost c: Clause, ids: seq<nat>, like: LikeFn,
                   ghost start: seq<string>) returns (hits: seq<nat>, err: Err)
    requires tab.Valid() && w == NodesOf(c) && root == RootOf(c)
    requires start <= tab.pool.strings && forall r | r in tab.rows :: InternedRow(start, tab.rows[r])
    requires Stored(tab.rows, ids)
    modifies tab.pool
    ensures tab.Valid() && old(tab.pool.strings) <= tab.pool.strings
    ensures Wide(Env(tab.cols, start, like), tab.rows)
    ensures (hits, err) == FilterRows(Env(tab.cols, start, like), tab.rows, c, ids, None)
  {
    ghost var env := Env(tab.cols, start, like);
    assert Wide(env, tab.rows);
    hide Table.Valid, EvalClause, FilterRows, Wide, NodesOf, InternedRow;
    hits, err := [], None;
    assert ids[0..] == ids;
    ghost var total := FilterRows(env, tab.rows, c, ids, None);
    assert [] + total.0 == total.0;
    for k := 0 to |ids|
      invariant tab.Valid() && old(tab.pool.strings) <= tab.pool.strings
      invariant Stored(tab.rows, ids[k..])
      invariant total.0 == hits + FilterRows(env, tab.rows, c, ids[k..], err).0
      invariant total.1 == FilterRows(env, tab.rows, c, ids[k..], err).1
    {
      FilterRowsStep(env, tab.rows, c, ids, k, err);
      var b, e := EvalRow(tab, w, root, c, ids[k], like, start, err);
      AppendAssoc(hits, if b then [ids[k]] else [], FilterRows(env, tab.rows, c, ids[k + 1..], e).0);
      hits := hits + if b then [ids[k]] else [];
      err := e;
    }
    FilterNothing(env, tab.rows, c, ids, err);
    assert hits + [] == hits;
  }

  lemma FilterNothing(env: Env, rows: Rows, c: Clause, ids: seq<nat>, err: Err)
    requires Wide(env, rows) && Stored(rows, ids)
    ensures FilterRows(env, rows, c, ids[|ids|..], err) == ([], err)
  {
  }

  /** SELECT without aggregates: the ids of the rows it lists, with index assistance. For a definite clause
      these are exactly the rows selected alone, that is, those whose contents satisfy the clause, each once; for any
      clause they are some of them. */
  method SelectIds(tab: Table, w: seq<WhereNode>, root: int, ghost c: Clause, like: LikeFn) returns (hits: seq<nat>)
    requires tab.Valid() && w == NodesOf(c) && root == RootOf(c)
    modifies tab.pool
    ensures tab.Valid() && old(tab.pool.strings) <= tab.pool.strings
    ensures var env := Env(tab.cols, old(tab.pool.strings), like);
            && Wide(env, tab.rows)
            && Distinct(hits) && Picks(env, tab.rows, c, Members(hits))
            && Members(hits) <= Selected(env, tab.rows, c) == Meant(env, tab.rows, c)
            && (Definite(env, tab.rows, c) ==>
                  && Members(hits) == Selected(env, tab.rows, c)
                  && |hits| == |Selected(env, tab.rows, c)|)
  {
    ghost var env := Env(tab.cols, tab.pool.strings, like);
    TableGrounded(tab, like);
    assert Wide(env, tab.rows) && forall r | r in tab.rows :: InternedRow(env.pool, tab.rows[r]);
    var ids := CandidateRows(tab, w, root, c, like);
    var err;
    ProposedSelects(env, tab.rows, c, ids);
    hits, err := FilterIds(tab, w, root, c, ids, like, env.pool);
    FilterWithin(env, tab.rows, c, ids, None);
    hide *;
    DistinctSize(hits);
    ProposalPicks(env, tab.rows, c, ids);
    SelectedIsMeant(env, tab.rows, c);
  }

  lemma ProposalPicks(env: Env, rows: Rows, c: Clause, ids: seq<nat>)
    requires Wide(env, rows) && Proposed(env, rows, c, ids) && Stored(rows, ids)
    ensures Picks(env, rows, c, Members(FilterRows(env, rows, c, ids, None).0))
  {
    hide Proposed, FilterRows;
    assert PickedFrom(env, rows, c, ids, Members(FilterRows(env, rows, c, ids, None).0));
  }

  /** COUNT: the number of rows on which the clause evaluates to true, looking at all rows in some order. For a
      steady clause it is the number of rows that SELECT lists. */
  method CountRows(tab: Table, w: seq<WhereNode>, root: int, ghost c: Clause, like: LikeFn)
    returns (n: nat, ghost ids: seq<nat>)
    requires tab.Valid() && w == NodesOf(c) && root == RootOf(c)
    modifies tab.pool
    ensures tab.Valid() && old(tab.pool.strings) <= tab.pool.strings
    ensures var env := Env(tab.cols, old(tab.pool.strings), like);
            && Wide(env, tab.rows) && Listing(tab.rows, ids)
            && n == |FilterRows(env, tab.rows, c, ids, None).0| <= |Selected(env, tab.rows, c)|
            && (Steady(env, tab.rows, c) ==> n == |Selected(env, tab.rows, c)| == |Meant(env, tab.rows, c)|)
  {
    ghost var env := Env(tab.cols, tab.pool.strings, like);
    var all := tab.AllRowIds();
    ids := all;
    ghost var rows := tab.rows;
    assert Wide(env, rows) && Distinct(ids) && Stored(rows, ids);
    var hits, err := FilterIds(tab, w, root, c, all, like, env.pool);
    n := |hits|;
    hide FilterRows, Selected, Steady, Table.Valid;
    ListingCounts(env, rows, c, ids);
    SelectedIsMeant(env, rows, c);
  }

  lemma ListingCounts(env: Env, rows: Rows, c: Clause, ids: seq<nat>)
    requires Wide(env, rows) && Distinct(ids) && Stored(rows, ids) && forall r :: r in ids <==> r in rows
    ensures Listing(rows, ids)
    ensures var hits := FilterRows(env, rows, c, ids, None).0;
      |hits| <= |Selected(env, rows, c)| && (Steady(env, rows, c) ==> |hits| == |Selected(env, rows, c)|)
  {
    var hits := FilterRows(env, rows, c, ids, None).0;
    MembersIff(ids);
    assert Members(ids) == rows.Keys;
    FilterWithin(env, rows, c, ids, None);
    MembersIff(hits);
    DistinctSize(hits);
    if Steady(env, rows, c) {
      SteadyUnhidden(env, rows, c, ids);
      FilterIsSelected(env, rows, c, ids);
    }
    assert forall r | r in Selected(env, rows, c) :: r in ids;
    hide *;
    assert Steady(env, rows, c) ==> Members(hits) == Selected(env, rows, c);
    SubsetSize(Members(hits), Selected(env, rows, c));
  }

  lemma SubsetSize(a: set<nat>, b: set<nat>)
    requires a <= b
    ensures |a| <= |b|
  {
    assert b == a + (b - a);
  }
}
