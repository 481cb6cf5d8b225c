/** Statements executed live, journaled and replayed (src/exec/executor.cpp:147-157, 421-449): a failed statement is
    not journaled, so REVERT reproduces a run exactly if its failed statements left nothing behind. */
module LiveReplay {
  import opened Values
  import opened StringPools
  import opened TableSpec
  import opened WhereSyntax
  import opened WhereEval
  import opened Insertion
  import opened Statements
  import opened Outcomes
  import opened Databases
  import opened Journals
  import opened Replay

  // ----- runs with failed statements

  ghost predicate HarmlessAt(parse: ParseFn, like: LikeFn, r: Record, pool: seq<string>, before: Tabs, ok: bool, after: Tabs) {
    if ok then FlawlessAt(parse, like, r, pool, before, ok) else after == before
  }

  /** Every statement that succeeded had a definite clause, and every statement that failed changed nothing. */
  ghost predicate Harmless(parse: ParseFn, like: LikeFn, rs: seq<Record>, tr: Trace)
    requires Followed(parse, like, rs, tr)
  {
    forall i | 0 <= i < |rs| :: HarmlessAt(parse, like, rs[i], tr.pools[i], tr.states[i], tr.oks[i], tr.states[i + 1])
  }

  /** The first n statements of a run without those that failed. */
  ghost function Prune(tr: Trace, n: nat): (p: Trace)
    requires n < |tr.states| && n <= |tr.pools| && n <= |tr.oks|
    ensures |p.states| == |p.pools| + 1 == |p.oks| + 1
  {
    if n == 0 then Trace([tr.states[0]], [], [])
    else
      var p := Prune(tr, n - 1);
      if tr.oks[n - 1] then Trace(p.states + [tr.states[n]], p.pools + [tr.pools[n - 1]], p.oks + [true]) else p
  }

  ghost predicate Pruned(parse: ParseFn, like: LikeFn, rs: seq<Record>, tr: Trace, n: nat) {
    && n <= |rs| && n < |tr.states| && n <= |tr.pools| && n <= |tr.oks|
    && var ks := Succeeded(rs[..n], tr.oks[..n]);
       var p := Prune(tr, n);
       && Followed(parse, like, ks, p) && Flawless(parse, like, ks, p)
       && p.states[0] == tr.states[0] && p.states[|ks|] == tr.states[n]
       && forall i | 0 <= i < |ks| :: p.pools[i] in tr.pools
  }

  lemma FlawlessNext(parse: ParseFn, like: LikeFn, ks: seq<Record>, p: Trace, r: Record, pool: seq<string>, after: Tabs)
    requires Followed(parse, like, ks, p) && Flawless(parse, like, ks, p)
    requires FollowedAt(parse, like, r, pool, p.states[|ks|], true, after)
    requires FlawlessAt(parse, like, r, pool, p.states[|ks|], true)
    ensures var q := Trace(p.states + [after], p.pools + [pool], p.oks + [true]);
      Followed(parse, like, ks + [r], q) && Flawless(parse, like, ks + [r], q)
  {
    hide FollowedAt, FlawlessAt;
    var all, q := ks + [r], Trace(p.states + [after], p.pools + [pool], p.oks + [true]);
    assert all[..|ks|] == ks && all[..|ks| + 1] == all;
    FollowedNext(parse, like, all, |ks|, p, pool, true, after);
    forall i | 0 <= i < |all|
      ensures FlawlessAt(parse, like, all[i], q.pools[i], q.states[i], q.oks[i])
    {
      if i < |ks| { assert FlawlessAt(parse, like, ks[i], p.pools[i], p.states[i], p.oks[i]); }
    }
  }

  /** Without its failed statements a harmless run is a flawless one that goes through the same states. */
  lemma {:induction false} PruneIsFlawless(parse: ParseFn, like: LikeFn, rs: seq<Record>, tr: Trace, n: nat)
    requires Followed(parse, like, rs, tr) && Harmless(parse, like, rs, tr) && n <= |rs|
    ensures Pruned(parse, like, rs, tr, n)
    decreases n
  {
    hide FollowedAt, FlawlessAt;
    if n == 0 {
      assert rs[..0] == [] && Succeeded(rs[..0], tr.oks[..0]) == [];
    } else {
      PruneIsFlawless(parse, like, rs, tr, n - 1);
      var i := n - 1;
      var ks, p := Succeeded(rs[..i], tr.oks[..i]), Prune(tr, i);
      assert tr.oks[..n] == tr.oks[..i] + [tr.oks[i]];
      SucceededNext(rs, tr.oks[..i], i, tr.oks[i]);
      assert FollowedAt(parse, like, rs[i], tr.pools[i], tr.states[i], tr.oks[i], tr.states[n]);
      assert HarmlessAt(parse, like, rs[i], tr.pools[i], tr.states[i], tr.oks[i], tr.states[n]);
      if tr.oks[i] {
        FlawlessNext(parse, like, ks, p, rs[i], tr.pools[i], tr.states[n]);
      } else {
        assert ks + [] == ks;
      }
    }
  }

  lemma {:induction false} PrunePrefix(rs: seq<Record>, tr: Trace, m: nat, n: nat)
    requires m <= n <= |rs| && n < |tr.states| && n <= |tr.pools| && n <= |tr.oks|
    ensures Prune(tr, m).states <= Prune(tr, n).states && Succeeded(rs[..m], tr.oks[..m]) <= Succeeded(rs[..n], tr.oks[..n])
    decreases n
  {
    if m < n {
      PrunePrefix(rs, tr, m, n - 1);
      assert tr.oks[..n] == tr.oks[..n - 1] + [tr.oks[n - 1]];
      SucceededNext(rs, tr.oks[..n - 1], n - 1, tr.oks[n - 1]);
      hide Succeeded;
    }
  }

  // ----- the records that are kept

  lemma {:induction false} SucceededWithin(rs: seq<Record>, oks: seq<bool>)
    requires |oks| == |rs| && Timed(rs)
    ensures (forall r | r in Succeeded(rs, oks) :: r in rs) && Timed(Succeeded(rs, oks))
    decreases |rs|
  {
    if rs != [] {
      var n := |rs| - 1;
      var front := Succeeded(rs[..n], oks[..n]);
      assert Succeeded(rs, oks) == front + if oks[n] then [rs[n]] else [];
      assert rs == rs[..n] + [rs[n]];
      assert forall r | r in rs[..n] :: r.ts < rs[n].ts;
      assert Timed(rs[..n]);
      SucceededWithin(rs[..n], oks[..n]);
      hide Succeeded;
      forall i | 0 <= i < |front|
        ensures front[i].ts < rs[n].ts
      {
        assert front[i] in front;
      }
    }
  }

  lemma {:induction false} AllChosen(rs: seq<Record>, name: string, upTo: nat)
    requires forall r | r in rs :: r.db == name && r.ts <= upTo
    ensures Chosen(rs, name, upTo) == rs
    decreases |rs|
  {
    if rs != [] {
      var n := |rs| - 1;
      assert rs[n] in rs && forall r | r in rs[..n] :: r in rs;
      assert rs == rs[..n] + [rs[n]];
      ChosenLast(rs, name, upTo);
      hide *;
      AllChosen(rs[..n], name, upTo);
    }
  }

  ghost predicate ChosenSucceed(rs: seq<Record>, oks: seq<bool>, name: string, upTo: nat)
    requires |oks| == |rs|
  {
    var m := |Chosen(rs, name, upTo)|;
    m <= |rs| && Chosen(Succeeded(rs, oks), name, upTo) == Succeeded(rs[..m], oks[..m])
  }

  lemma ChosenSkips(rs: seq<Record>, r: Record, name: string, upTo: nat)
    requires r.ts > upTo
    ensures Chosen(rs + [r], name, upTo) == Chosen(rs, name, upTo)
  {
    ChosenLast(rs + [r], name, upTo);
    assert (rs + [r])[..|rs|] == rs;
    hide Chosen;
    assert Chosen(rs, name, upTo) + [] == Chosen(rs, name, upTo);
  }

  lemma LateRecord(rs: seq<Record>, oks: seq<bool>, name: string, upTo: nat)
    requires |oks| == |rs| && rs != [] && rs[|rs| - 1].ts > upTo
    ensures var n := |rs| - 1;
      && Chosen(rs, name, upTo) == Chosen(rs[..n], name, upTo)
      && Chosen(Succeeded(rs, oks), name, upTo) == Chosen(Succeeded(rs[..n], oks[..n]), name, upTo)
  {
    hide *;
    var n := |rs| - 1;
    var ks := Succeeded(rs[..n], oks[..n]);
    SucceededLast(rs, oks);
    ChosenSkips(rs[..n], rs[n], name, upTo);
    ChosenSkips(ks, rs[n], name, upTo);
    assert rs[..n] + [rs[n]] == rs && ks + [] == ks;
  }

  lemma OneMore(rs: seq<Record>, oks: seq<bool>, name: string, upTo: nat)
    requires |oks| == |rs| && rs != []
    requires var n := |rs| - 1;
      && ChosenSucceed(rs[..n], oks[..n], name, upTo) && Chosen(rs, name, upTo) == Chosen(rs[..n], name, upTo)
      && Chosen(Succeeded(rs, oks), name, upTo) == Chosen(Succeeded(rs[..n], oks[..n]), name, upTo)
    ensures ChosenSucceed(rs, oks, name, upTo)
  {
    hide Chosen, Succeeded;
    var n, m := |rs| - 1, |Chosen(rs, name, upTo)|;
    assert rs[..n][..m] == rs[..m] && oks[..n][..m] == oks[..m];
  }

  lemma EarlyRecords(rs: seq<Record>, oks: seq<bool>, name: string, upTo: nat)
    requires |oks| == |rs| && Timed(rs) && forall r | r in rs :: r.db == name && r.ts <= upTo
    ensures ChosenSucceed(rs, oks, name, upTo)
  {
    SucceededWithin(rs, oks);
    hide Succeeded, Chosen, Timed;
    AllChosen(rs, name, upTo);
    AllChosen(Succeeded(rs, oks), name, upTo);
    assert rs[..|rs|] == rs && oks[..|rs|] == oks;
  }

  lemma LastIsLatest(rs: seq<Record>)
    requires Timed(rs) && rs != []
    ensures Timed(rs[..|rs| - 1]) && forall r | r in rs :: r.ts <= rs[|rs| - 1].ts
  {
  }

  /** Of the journaled records those up to a time are the journaled ones among all statements up to it. */
  lemma {:induction false} ChosenSucceeded(rs: seq<Record>, oks: seq<bool>, name: string, upTo: nat)
    requires |oks| == |rs| && Timed(rs) && forall r | r in rs :: r.db == name
    ensures ChosenSucceed(rs, oks, name, upTo)
    decreases |rs|
  {
    hide *;
    if rs == [] {
      EarlyRecords(rs, oks, name, upTo);
    } else {
      var n := |rs| - 1;
      LastIsLatest(rs);
      if rs[n].ts <= upTo {
        EarlyRecords(rs, oks, name, upTo);
      } else {
        assert forall r | r in rs[..n] :: r in rs;
        ChosenSucceeded(rs[..n], oks[..n], name, upTo);
        LateRecord(rs, oks, name, upTo);
        OneMore(rs, oks, name, upTo);
      }
    }
  }

  lemma SucceededLast(rs: seq<Record>, oks: seq<bool>)
    requires |oks| == |rs| && rs != []
    ensures var n := |rs| - 1; Succeeded(rs, oks) == Succeeded(rs[..n], oks[..n]) + if oks[n] then [rs[n]] else []
  {
  }

  // ----- live, journaled, reverted

  predicate AllPlain(name: string, rs: seq<Record>) {
    forall i | 0 <= i < |rs| :: rs[i].db == name && rs[i].ts < TWO_64 && Plain(rs[i].db) && Plain(rs[i].sql)
  }

  lemma PlainIsRead(name: string, rs: seq<Record>)
    requires AllPlain(name, rs)
    ensures Records(Written(rs)) == rs && Chosen(rs, name, TWO_64) == rs
    ensures forall i | 0 <= i < |rs| :: rs[i].ts < TWO_64
  {
    hide Plain, Records, Written, Chosen;
    PlainSurvives(rs);
    AllChosen(rs, name, TWO_64);
  }

  lemma MakeReplayable(parse: ParseFn, like: LikeFn, name: string, rs: seq<Record>, tr: Trace, pool: seq<string>)
    requires Chosen(rs, name, TWO_64) == rs && (forall i | 0 <= i < |rs| :: rs[i].ts < TWO_64)
    requires Timed(rs) && Followed(parse, like, rs, tr) && |tr.states| == |rs| + 1 && |tr.pools| == |rs|
    requires Flawless(parse, like, rs, tr) && tr.states[0] == map[] && forall i | 0 <= i < |rs| :: tr.pools[i] <= pool
    ensures Replayable(parse, like, rs, name, rs, tr, pool)
  {
    hide Timed, Flawless, FollowedAt, Chosen;
  }

  /** Every statement was meant for the one database, at strictly increasing times, and those that succeeded are
      left alone by cleaning. */
  ghost predicate Journalable(name: string, rs: seq<Record>, oks: seq<bool>)
    requires |oks| == |rs|
  {
    Timed(rs) && (forall r | r in rs :: r.db == name) && AllPlain(name, Succeeded(rs, oks))
  }

  /** The journal of a harmless run holds the run without its failed statements. */
  lemma JournalHoldsRun(parse: ParseFn, like: LikeFn, name: string, rs: seq<Record>, tr: Trace, pool: seq<string>)
    requires Followed(parse, like, rs, tr) && Harmless(parse, like, rs, tr) && Journalable(name, rs, tr.oks)
    requires tr.states[0] == map[] && forall i | 0 <= i < |rs| :: tr.pools[i] <= pool
    ensures var ks := Succeeded(rs, tr.oks);
      Records(Written(ks)) == ks && Replayable(parse, like, ks, name, ks, Prune(tr, |rs|), pool)
  {
    var n := |rs|;
    var ks, p := Succeeded(rs, tr.oks), Prune(tr, n);
    PruneIsFlawless(parse, like, rs, tr, n);
    assert rs[..n] == rs && tr.oks[..n] == tr.oks;
    assert |p.pools| == |ks| && |p.states| == |ks| + 1;
    forall i | 0 <= i < |ks|
      ensures p.pools[i] <= pool
    {
      assert p.pools[i] in tr.pools;
    }
    SucceededWithin(rs, tr.oks);
    hide *;
    PlainIsRead(name, ks);
    MakeReplayable(parse, like, name, ks, p, pool);
  }

  /** In the run without its failed statements, the state after the statements up to a time is the state of the
      whole run then. */
  lemma StateAtTime(parse: ParseFn, like: LikeFn, name: string, rs: seq<Record>, tr: Trace, upTo: nat)
    requires Followed(parse, like, rs, tr) && Harmless(parse, like, rs, tr) && Journalable(name, rs, tr.oks)
    ensures var m, k := |Chosen(rs, name, upTo)|, |Chosen(Succeeded(rs, tr.oks), name, upTo)|;
      m <= |rs| && k < |Prune(tr, |rs|).states| && Prune(tr, |rs|).states[k] == tr.states[m]
  {
    var n, m := |rs|, |Chosen(rs, name, upTo)|;
    ChosenSucceeded(rs, tr.oks, name, upTo);
    PruneIsFlawless(parse, like, rs, tr, m);
    PrunePrefix(rs, tr, m, n);
    var k := |Succeeded(rs[..m], tr.oks[..m])|;
    hide Succeeded, Chosen, Flawless, FollowedAt;
    assert |Prune(tr, m).states| == k + 1;
    assert Prune(tr, n).states[k] == Prune(tr, m).states[k];
  }

  lemma StatementsUpTo(name: string, rs: seq<Record>, oks: seq<bool>, upTo: nat, m: nat)
    requires |oks| == |rs| && Journalable(name, rs, oks) && UpTo(rs, upTo, m)
    ensures m <= |rs| && |Chosen(rs, name, upTo)| == m
  {
    forall i | 0 <= i < |rs|
      ensures rs[i].db == name
    {
      assert rs[i] in rs;
    }
    ChosenUpTo(rs, name, upTo, m);
  }

  /** Live execution from an empty database with an empty journal, then REVERT to a time: if every failed statement
      changed nothing and every clause of the others was definite, the database is back where it was after the
      last statement up to that time. */
  method LiveThenRevert(name: string, rs: seq<Record>, hint: string, upTo: nat, parse: ParseFn, like: LikeFn)
    returns (db: Database, ok: bool, ghost tr: Trace)
    ensures db.Valid() && Followed(parse, like, rs, tr) && tr.states[0] == map[]
    ensures hint in tr.states[|rs|] && Journalable(name, rs, tr.oks) && Harmless(parse, like, rs, tr) ==>
              && ok && |Chosen(rs, name, upTo)| <= |rs| && db.View() == tr.states[|Chosen(rs, name, upTo)|]
              && forall m: nat | UpTo(rs, upTo, m) :: db.View() == tr.states[m]
  {
    hide UpTo, Database.Valid, Journalable, Replayable, FollowedAt, Harmless, Chosen, Records, Written, Succeeded, Prune;
    var pool := new StringPool();
    db := new Database(pool);
    var journal := new Journal([]);
    tr := RunLive(db, journal, rs, parse, like);
    ghost var ks, p := Succeeded(rs, tr.oks), Prune(tr, |rs|);
    assert [] + Written(ks) == Written(ks);
    if Journalable(name, rs, tr.oks) && Harmless(parse, like, rs, tr) {
      JournalHoldsRun(parse, like, name, rs, tr, db.pool.strings);
      StateAtTime(parse, like, name, rs, tr, upTo);
      forall m: nat | UpTo(rs, upTo, m)
        ensures m <= |rs| && |Chosen(rs, name, upTo)| == m
      {
        StatementsUpTo(name, rs, tr.oks, upTo, m);
      }
    }
    ok := Revert(db, journal, name, hint, upTo, parse, like, ks, p);
  }

  // ----- a failed statement that left something behind

  function HalfCols(): seq<ColumnDef> {
    [ColumnDef("a", IntCol, true, true, None)]
  }

  function HalfTables(rows: Rows, next: nat): Tabs {
    map["t" := TableState(HalfCols(), rows, next)]
  }

  function HalfInsert(): Statement {
    InsertInto("t", ["a"], [[IntLit(1)], [IntLit(1)]])
  }

  /** Two tuples with one indexed value: however the statement ends, it has failed and kept the first row. */
  lemma HalfInsertEnds(pool: seq<string>, like: LikeFn, ok: bool, after: Tabs)
    requires PoolOk(pool) && |pool| > 0 && TabsOk(pool, HalfTables(map[], 1))
    ensures Outcome(pool, like, HalfTables(map[], 1), HalfInsert(), ok, after) <==>
              !ok && after == HalfTables(map[1 := [Int(1)]], 2)
  {
    var t := TableState(HalfCols(), map[], 1);
    var left := TableState(HalfCols(), map[1 := [Int(1)]], 2);
    var tuples: seq<seq<Literal>> := [[IntLit(1)], [IntLit(1)]];
    var one: seq<Row> := [[Int(1)]];
    HalfInsertLeft(pool);
    if "t" in after && after == HalfTables(map[], 1)["t" := after["t"]] {
      var end := after["t"];
      forall added | InsertLeft(pool, t, ["a"], tuples, added, ok, end)
        ensures !ok && end == left
      {
        HalfInsertOnly(pool, added, ok, end);
      }
      hide InsertLeft, TableOk;
      assert RowOutcome(pool, like, t, HalfInsert(), ok, end) <==> !ok && end == left by {
        assert InsertLeft(pool, t, ["a"], tuples, one, false, left);
      }
    }
  }

  lemma HalfInsertLeft(pool: seq<string>)
    requires PoolOk(pool) && |pool| > 0
    ensures InsertLeft(pool, TableState(HalfCols(), map[], 1), ["a"], [[IntLit(1)], [IntLit(1)]], [[Int(1)]], false,
                       TableState(HalfCols(), map[1 := [Int(1)]], 2))
  {
    InsertKeepsPart(pool);
    hide Describe, AllAdmissible, Refused, AddRows;
  }

  /** The second of two equal rows may not be stored. */
  lemma HalfSecond(added: seq<Row>)
    ensures added == [[Int(1)], [Int(1)]] ==> !AllAdmissible(HalfCols(), map[], 1, added)
  {
    var row: Row := [Int(1)];
    var rows: Rows := map[1 := row];
    if added == [row, row] {
      assert added[..1] == [row] && [row][..0] == [] && AddRows(map[], 1, []) == map[];
      assert AddRows(map[], 1, added[..1]) == rows;
      assert ClashesAt(HalfCols(), rows, row, 0, 0, 1);
      assert !Admissible(HalfCols(), AddRows(map[], 1, added[..1]), added[1]);
    }
  }

  lemma HalfInsertOnly(pool: seq<string>, added: seq<Row>, ok: bool, end: TableState)
    requires PoolOk(pool) && |pool| > 0
    requires InsertLeft(pool, TableState(HalfCols(), map[], 1), ["a"], [[IntLit(1)], [IntLit(1)]], added, ok, end)
    ensures !ok && end == TableState(HalfCols(), map[1 := [Int(1)]], 2)
  {
    InsertKeepsPart(pool);
    HalfSecond(added);
    var one: seq<Row> := [[Int(1)]];
    assert RowOf(HalfCols(), pool, ["a"], [IntLit(1)]) == Some(one[0]);
    hide RowOf, AllAdmissible, Refused;
    assert AddRows(map[], 1, []) == map[];
    hide AddRows;
    assert forall k | 0 <= k < |added| :: added[k] == one[0];
    assert |added| != 2;
    assert |added| != 0;
    assert added == one;
  }

  /** CREATE TABLE, then the INSERT that fails half-way. */
  ghost predicate HalfRun(parse: ParseFn, like: LikeFn, rs: seq<Record>, tr: Trace) {
    && Followed(parse, like, rs, tr) && tr.states[0] == map[] && |rs| == 2
    && parse(rs[0].sql) == Some(CreateTable("t", [ColumnDecl("a", IntCol, true, true, None)]))
    && parse(rs[1].sql) == Some(HalfInsert())
  }

  lemma HalfRunStates(parse: ParseFn, like: LikeFn, rs: seq<Record>, tr: Trace)
    requires HalfRun(parse, like, rs, tr)
    ensures tr.oks == [true, false] && tr.states == [map[], HalfTables(map[], 1), HalfTables(map[1 := [Int(1)]], 2)]
    ensures |rs| == 2 && |tr.pools| == 2 && FlawlessAt(parse, like, rs[0], tr.pools[0], map[], true)
    ensures FollowedAt(parse, like, rs[0], tr.pools[0], map[], true, HalfTables(map[], 1))
  {
    assert FollowedAt(parse, like, rs[0], tr.pools[0], tr.states[0], tr.oks[0], tr.states[1]);
    assert FollowedAt(parse, like, rs[1], tr.pools[1], tr.states[1], tr.oks[1], tr.states[2]);
    assert ColumnsOf(tr.pools[0], [ColumnDecl("a", IntCol, true, true, None)]) == HalfCols();
    hide RowOutcome, ColumnsOf, TableOk, PoolOk;
    HalfInsertEnds(tr.pools[1], like, tr.oks[1], tr.states[2]);
  }

  lemma FirstSucceeded(rs: seq<Record>)
    requires |rs| == 2
    ensures Succeeded(rs, [true, false]) == [rs[0]]
  {
    assert rs[..1] == [rs[0]] && [true, false][..1] == [true] && [rs[0]][..0] == [] && [true][..0] == [];
    SucceededLast(rs, [true, false]);
    SucceededLast([rs[0]], [true]);
  }

  lemma SucceededArePlain(name: string, rs: seq<Record>, oks: seq<bool>)
    requires |oks| == |rs| && Journalable(name, rs, oks)
    ensures AllPlain(name, Succeeded(rs, oks))
  {
  }

  lemma OneReplayable(parse: ParseFn, like: LikeFn, name: string, r: Record, used: seq<string>, after: Tabs, pool: seq<string>)
    requires FollowedAt(parse, like, r, used, map[], true, after) && FlawlessAt(parse, like, r, used, map[], true)
    requires Chosen([r], name, TWO_64) == [r] && r.ts < TWO_64 && used <= pool
    ensures Replayable(parse, like, [r], name, [r], Trace([map[], after], [used], [true]), pool)
  {
    hide FollowedAt, FlawlessAt, Chosen;
  }

  /** The row that the failed INSERT kept is in the live table, but the journal holds CREATE TABLE alone: the run that
      REVERT can execute again ends in an empty table. */
  lemma HalfInsertLost(parse: ParseFn, like: LikeFn, name: string, rs: seq<Record>, tr: Trace, pool: seq<string>)
    requires HalfRun(parse, like, rs, tr) && Journalable(name, rs, tr.oks)
    requires forall i | 0 <= i < |rs| :: tr.pools[i] <= pool
    ensures tr.states[2] == HalfTables(map[1 := [Int(1)]], 2)
    ensures var all := Records(Written(Succeeded(rs, tr.oks)));
      var p := Trace([map[], HalfTables(map[], 1)], [tr.pools[0]], [true]);
      all == [rs[0]] && Replayable(parse, like, all, name, all, p, pool)
  {
    hide *;
    HalfRunStates(parse, like, rs, tr);
    FirstSucceeded(rs);
    SucceededArePlain(name, rs, tr.oks);
    PlainIsRead(name, [rs[0]]);
    assert rs[0] == [rs[0]][0];
    OneReplayable(parse, like, name, rs[0], tr.pools[0], HalfTables(map[], 1), pool);
  }
}
