/** Replaying the journal (src/exec/executor.cpp:147-157, 424-446): statements executed live and journaled
    when they succeed, and REVERT, which drops all tables and executes the journaled statements again up to
    a time. */
module Replay {
  import opened Values
  import opened TableSpec
  import opened WhereEval
  import opened Statements
  import opened Outcomes
  import opened Databases
  import opened Journals

  /** The statement parser; None for a text that it rejects. */
  type ParseFn = string -> Option<Statement>

  // ----- a run of statements

  /** What happened in a run: the tables before and after each statement, the pool after each, and whether
      it succeeded. */
  datatype Trace = Trace(states: seq<Tabs>, pools: seq<seq<string>>, oks: seq<bool>)

  ghost predicate FollowedAt(parse: ParseFn, like: LikeFn, r: Record, pool: seq<string>, before: Tabs, ok: bool, after: Tabs) {
    && TabsOk(pool, before)
    && match parse(r.sql)
       case None => !ok && after == before
       case Some(st) => Outcome(pool, like, before, st, ok, after)
  }

  ghost predicate Followed(parse: ParseFn, like: LikeFn, rs: seq<Record>, tr: Trace) {
    && |tr.states| == |rs| + 1 && |tr.pools| == |tr.oks| == |rs|
    && forall i | 0 <= i < |rs| :: FollowedAt(parse, like, rs[i], tr.pools[i], tr.states[i], tr.oks[i], tr.states[i + 1])
  }

  ghost predicate FlawlessAt(parse: ParseFn, like: LikeFn, r: Record, pool: seq<string>, before: Tabs, ok: bool) {
    TabsOk(pool, before) && ok && parse(r.sql).Some? && DefiniteOn(pool, like, before, parse(r.sql).value)
  }

  /** Every statement succeeded and every WHERE clause was definite. */
  ghost predicate Flawless(parse: ParseFn, like: LikeFn, rs: seq<Record>, tr: Trace)
    requires Followed(parse, like, rs, tr)
  {
    forall i | 0 <= i < |rs| :: FlawlessAt(parse, like, rs[i], tr.pools[i], tr.states[i], tr.oks[i])
  }

  /** The records of the statements that succeeded. */
  function Succeeded(rs: seq<Record>, oks: seq<bool>): seq<Record>
    requires |oks| == |rs|
  {
    if rs == [] then []
    else
      var n := |rs| - 1;
      Succeeded(rs[..n], oks[..n]) + if oks[n] then [rs[n]] else []
  }

  lemma SucceededNext(rs: seq<Record>, oks: seq<bool>, i: nat, ok: bool)
    requires i < |rs| && |oks| == i
    ensures Succeeded(rs[..i + 1], oks + [ok]) == Succeeded(rs[..i], oks) + if ok then [rs[i]] else []
  {
    assert rs[..i + 1][..i] == rs[..i] && (oks + [ok])[..i] == oks;
  }

  lemma WrittenNext(rs: seq<Record>, r: Record)
    ensures Written(rs + [r]) == Written(rs) + Written([r])
  {
    assert (rs + [r])[..|rs|] == rs && [r][..0] == [];
    assert Written([r]) == Body(r) + ['\n'];
    hide Body;
  }

  lemma FollowedNext(parse: ParseFn, like: LikeFn, rs: seq<Record>, i: nat, tr: Trace, pool: seq<string>, ok: bool, after: Tabs)
    requires i < |rs| && Followed(parse, like, rs[..i], tr)
    requires FollowedAt(parse, like, rs[i], pool, tr.states[i], ok, after)
    ensures Followed(parse, like, rs[..i + 1], Trace(tr.states + [after], tr.pools + [pool], tr.oks + [ok]))
  {
    hide FollowedAt;
    var more := Trace(tr.states + [after], tr.pools + [pool], tr.oks + [ok]);
    forall k | 0 <= k < i + 1
      ensures FollowedAt(parse, like, rs[..i + 1][k], more.pools[k], more.states[k], more.oks[k], more.states[k + 1])
    {
      if k < i { assert rs[..i + 1][k] == rs[..i][k]; }
    }
  }

  /** After i statements: tr is their run from `start` to `now`, and `written` is what it added to the journal. */
  ghost predicate RunTo(parse: ParseFn, like: LikeFn, rs: seq<Record>, i: nat, tr: Trace, start: Tabs, now: Tabs,
                        pool: seq<string>, written: string)
  {
    && i <= |rs| && Followed(parse, like, rs[..i], tr) && tr.states[0] == start && tr.states[i] == now
    && (forall k | 0 <= k < i :: tr.pools[k] <= pool) && written == Written(Succeeded(rs[..i], tr.oks))
  }

  lemma RunStarts(parse: ParseFn, like: LikeFn, rs: seq<Record>, start: Tabs, pool: seq<string>)
    ensures RunTo(parse, like, rs, 0, Trace([start], [], []), start, start, pool, [])
  {
    NothingWritten(rs[..0]);
    hide FollowedAt, Written, Succeeded;
  }

  lemma RunGoesOn(parse: ParseFn, like: LikeFn, rs: seq<Record>, i: nat, tr: Trace, start: Tabs, now: Tabs,
                  pool: seq<string>, written: string, bigger: seq<string>, ok: bool, after: Tabs)
    requires RunTo(parse, like, rs, i, tr, start, now, pool, written) && i < |rs| && pool <= bigger
    requires FollowedAt(parse, like, rs[i], bigger, now, ok, after)
    ensures RunTo(parse, like, rs, i + 1, Trace(tr.states + [after], tr.pools + [bigger], tr.oks + [ok]), start, after,
                  bigger, written + if ok then Written([rs[i]]) else [])
  {
    hide FollowedAt, Written, Succeeded;
    FollowedNext(parse, like, rs, i, tr, bigger, ok, after);
    SucceededNext(rs, tr.oks, i, ok);
    var ks := Succeeded(rs[..i], tr.oks);
    if ok {
      WrittenNext(ks, rs[i]);
    } else {
      assert ks + [] == ks && written + [] == written;
    }
  }

  lemma RunEnds(parse: ParseFn, like: LikeFn, rs: seq<Record>, tr: Trace, start: Tabs, now: Tabs,
                pool: seq<string>, written: string)
    requires RunTo(parse, like, rs, |rs|, tr, start, now, pool, written)
    ensures Followed(parse, like, rs, tr) && tr.states[0] == start && tr.states[|rs|] == now
    ensures (forall i | 0 <= i < |rs| :: tr.pools[i] <= pool) && written == Written(Succeeded(rs, tr.oks))
  {
    assert rs[..|rs|] == rs;
    hide FollowedAt, Written, Succeeded;
  }

  /** Executes statements one by one, journaling those that succeed. */
  method RunLive(db: Database, journal: Journal, rs: seq<Record>, parse: ParseFn, like: LikeFn) returns (ghost tr: Trace)
    requires db.Valid() && journal !in db.Repr
    modifies db, db.Repr, db.pool, journal
    ensures db.Valid() && fresh(db.Repr - old(db.Repr)) && old(db.pool.strings) <= db.pool.strings
    ensures Followed(parse, like, rs, tr) && tr.states[0] == old(db.View()) && tr.states[|rs|] == db.View()
    ensures forall i | 0 <= i < |rs| :: tr.pools[i] <= db.pool.strings
    ensures journal.data == old(journal.data) + Written(Succeeded(rs, tr.oks))
  {
    hide *;
    ghost var start, data, written := db.View(), journal.data, "";
    tr := Trace([start], [], []);
    RunStarts(parse, like, rs, start, db.pool.strings);
    assert data + written == data;
    for i := 0 to |rs|
      invariant db.Valid() && fresh(db.Repr - old(db.Repr)) && old(db.pool.strings) <= db.pool.strings
      invariant journal !in db.Repr && journal.data == data + written
      invariant RunTo(parse, like, rs, i, tr, start, db.View(), db.pool.strings, written)
    {
      ghost var before, pool := db.View(), db.pool.strings;
      var parsed := parse(rs[i].sql);
      var ok := false;
      if parsed.Some? {
        ok := db.Execute(parsed.value, like);
      } else {
        db.ViewOk();
      }
      FollowedHere(parse, like, rs[i], db.pool.strings, before, ok, db.View());
      RunGoesOn(parse, like, rs, i, tr, start, before, pool, written, db.pool.strings, ok, db.View());
      if ok {
        journal.Append(rs[i].ts, rs[i].db, rs[i].sql);
      }
      Associates(data, written, if ok then Written([rs[i]]) else []);
      tr := Trace(tr.states + [db.View()], tr.pools + [db.pool.strings], tr.oks + [ok]);
      written := written + if ok then Written([rs[i]]) else [];
    }
    RunEnds(parse, like, rs, tr, start, db.View(), db.pool.strings, written);
  }

  lemma NothingWritten(rs: seq<Record>)
    requires rs == []
    ensures Written(Succeeded(rs, [])) == []
  {
  }

  lemma FollowedHere(parse: ParseFn, like: LikeFn, r: Record, pool: seq<string>, before: Tabs, ok: bool, after: Tabs)
    requires TabsOk(pool, before)
    requires parse(r.sql).None? ==> !ok && after == before
    requires parse(r.sql).Some? ==> Outcome(pool, like, before, parse(r.sql).value, ok, after)
    ensures FollowedAt(parse, like, r, pool, before, ok, after)
  {
  }

  // ----- sorting

  predicate Timed(rs: seq<Record>) {
    forall i, j | 0 <= i < j < |rs| :: rs[i].ts < rs[j].ts
  }

  predicate InOrder(rs: seq<Record>) {
    forall i, j | 0 <= i < j < |rs| :: rs[i].ts <= rs[j].ts
  }

  function Place(r: Record, rs: seq<Record>): (out: seq<Record>)
    requires InOrder(rs)
    ensures InOrder(out) && multiset(out) == multiset(rs) + multiset{r}
  {
    if rs == [] || r.ts < rs[0].ts then [r] + rs
    else
      var rest := Place(r, rs[1..]);
      PlaceKeepsOrder(r, rs, rest);
      [rs[0]] + rest
  }

  lemma PlaceKeepsOrder(r: Record, rs: seq<Record>, rest: seq<Record>)
    requires InOrder(rs) && rs != [] && rs[0].ts <= r.ts
    requires InOrder(rest) && multiset(rest) == multiset(rs[1..]) + multiset{r}
    ensures InOrder([rs[0]] + rest) && multiset([rs[0]] + rest) == multiset(rs) + multiset{r}
  {
    assert rs == [rs[0]] + rs[1..];
    forall i | 0 <= i < |rest|
      ensures rs[0].ts <= rest[i].ts
    {
      assert rest[i] in multiset(rest);
      if rest[i] != r { assert rest[i] in rs[1..]; }
    }
  }

  /** Some sort by time: only that the result is an ordered permutation is used of it. */
  function SortByTime(rs: seq<Record>): (out: seq<Record>)
    ensures InOrder(out) && multiset(out) == multiset(rs)
  {
    if rs == [] then []
    else
      assert rs == [rs[0]] + rs[1..];
      Place(rs[0], SortByTime(rs[1..]))
  }

  lemma SameElements(a: seq<Record>, b: seq<Record>)
    requires multiset(a) == multiset(b)
    ensures |a| == |b| && forall r :: r in a <==> r in b
  {
    assert |multiset(a)| == |a| && |multiset(b)| == |b|;
    assert forall r :: r in a <==> r in multiset(a);
    assert forall r :: r in b <==> r in multiset(b);
  }

  lemma SameHead(rs: seq<Record>, out: seq<Record>)
    requires rs != [] && |out| == |rs| && Timed(rs) && InOrder(out)
    requires forall r :: r in rs <==> r in out
    ensures out[0] == rs[0]
  {
    assert out[0] in rs && rs[0] in out;
  }

  lemma SameTail(a: seq<Record>, b: seq<Record>)
    requires a != [] && b != [] && multiset(a) == multiset(b) && a[0] == b[0]
    ensures multiset(a[1..]) == multiset(b[1..]) && a == [a[0]] + a[1..] && b == [b[0]] + b[1..]
  {
    assert a == [a[0]] + a[1..] && b == [b[0]] + b[1..];
    assert multiset(a[1..]) == multiset(a) - multiset{a[0]};
    assert multiset(b[1..]) == multiset(b) - multiset{b[0]};
  }

  /** Records with strictly increasing times have only one ordered permutation. */
  lemma {:induction false} TimedSortsToItself(rs: seq<Record>, out: seq<Record>)
    requires Timed(rs) && InOrder(out) && multiset(out) == multiset(rs)
    ensures out == rs
    decreases |rs|
  {
    SameElements(rs, out);
    if rs != [] {
      assert Timed(rs[1..]) && InOrder(out[1..]);
      hide *;
      SameHead(rs, out);
      SameTail(rs, out);
      TimedSortsToItself(rs[1..], out[1..]);
    }
  }

  // ----- choosing records

  /** The records of one database up to a time. */
  function Chosen(rs: seq<Record>, name: string, upTo: nat): seq<Record> {
    if rs == [] then []
    else
      var r := rs[|rs| - 1];
      Chosen(rs[..|rs| - 1], name, upTo) + if r.db == name && r.ts <= upTo then [r] else []
  }

  lemma ChosenLast(rs: seq<Record>, name: string, upTo: nat)
    requires rs != []
    ensures var r := rs[|rs| - 1];
      Chosen(rs, name, upTo) == Chosen(rs[..|rs| - 1], name, upTo) + if r.db == name && r.ts <= upTo then [r] else []
  {
  }

  lemma ChosenNext(rs: seq<Record>, name: string, upTo: nat, i: nat)
    requires i < |rs|
    ensures Chosen(rs[..i + 1], name, upTo) ==
              Chosen(rs[..i], name, upTo) + if rs[i].db == name && rs[i].ts <= upTo then [rs[i]] else []
  {
    assert rs[..i + 1][..i] == rs[..i];
  }

  lemma {:induction false} ChosenSame(rs: seq<Record>, name: string, s: nat, t: nat)
    requires forall i | 0 <= i < |rs| :: rs[i].ts <= s && rs[i].ts <= t
    ensures Chosen(rs, name, s) == Chosen(rs, name, t)
    decreases |rs|
  {
    if rs != [] {
      var n := |rs| - 1;
      assert forall i | 0 <= i < n :: rs[..n][i].ts <= s && rs[..n][i].ts <= t;
      ChosenLast(rs, name, s);
      ChosenLast(rs, name, t);
      hide *;
      ChosenSame(rs[..n], name, s, t);
    }
  }

  lemma {:induction false} ChosenPrefix(rs: seq<Record>, name: string, upTo: nat, i: nat)
    requires i <= |rs|
    ensures Chosen(rs[..i], name, upTo) <= Chosen(rs, name, upTo)
    decreases |rs|
  {
    if i < |rs| {
      assert rs[..|rs| - 1][..i] == rs[..i];
      ChosenPrefix(rs[..|rs| - 1], name, upTo, i);
    } else {
      assert rs[..i] == rs;
    }
  }

  lemma TimedFrom(rs: seq<Record>, i: nat)
    requires Timed(rs) && i < |rs|
    ensures forall k | 0 <= k < i :: rs[..i][k].ts < rs[i].ts
  {
  }

  /** The next record replayed is the next one that was executed. */
  lemma ChosenAt(rs: seq<Record>, name: string, upTo: nat, all: nat, i: nat)
    requires i < |rs| && Timed(rs) && rs[i].db == name && rs[i].ts <= upTo && rs[i].ts <= all
    ensures var j := |Chosen(rs[..i], name, upTo)|;
      j < |Chosen(rs, name, all)| && Chosen(rs, name, all)[j] == rs[i] && |Chosen(rs[..i + 1], name, upTo)| == j + 1
  {
    TimedFrom(rs, i);
    ChosenSame(rs[..i], name, upTo, all);
    ChosenNext(rs, name, upTo, i);
    ChosenNext(rs, name, all, i);
    ChosenPrefix(rs, name, all, i + 1);
    hide Chosen;
  }

  /** The records chosen are those of the database up to the time, in their order. */
  lemma {:induction false} ChosenAre(rs: seq<Record>, name: string, upTo: nat)
    ensures forall r :: r in Chosen(rs, name, upTo) <==> r in rs && r.db == name && r.ts <= upTo
    ensures Timed(rs) ==> Timed(Chosen(rs, name, upTo))
    decreases |rs|
  {
    if rs != [] {
      var n := |rs| - 1;
      ChosenAre(rs[..n], name, upTo);
      ChosenLast(rs, name, upTo);
      assert rs == rs[..n] + [rs[n]];
      if Timed(rs) { TimedFrom(rs, n); }
    }
  }

  /** The first m statements are those up to the time. */
  predicate UpTo(rs: seq<Record>, upTo: nat, m: nat) {
    m <= |rs| && forall i | 0 <= i < |rs| :: rs[i].ts <= upTo <==> i < m
  }

  lemma {:induction false} ChosenUpTo(rs: seq<Record>, name: string, upTo: nat, m: nat)
    requires UpTo(rs, upTo, m) && forall i | 0 <= i < |rs| :: rs[i].db == name
    ensures Chosen(rs, name, upTo) == rs[..m]
    decreases |rs|
  {
    if rs != [] {
      var n := |rs| - 1;
      ChosenUpTo(rs[..n], name, upTo, if m > n then n else m);
    }
  }

  lemma {:induction false} ChosenTwice(all: seq<Record>, name: string, late: nat, upTo: nat)
    requires forall i | 0 <= i < |all| :: all[i].ts <= late
    ensures Chosen(Chosen(all, name, late), name, upTo) == Chosen(all, name, upTo)
    decreases |all|
  {
    if all != [] {
      var n := |all| - 1;
      ChosenTwice(all[..n], name, late, upTo);
      ChosenLast(all, name, late);
      ChosenLast(all, name, upTo);
      var front, r := Chosen(all[..n], name, late), all[n];
      if r.db == name {
        assert (front + [r])[..|front|] == front;
        ChosenLast(front + [r], name, upTo);
      } else {
        assert front + [] == front;
      }
      hide *;
    }
  }

  /** Of a journal that can be replayed, the records up to a time are the first m statements of its run. */
  lemma ReplayedUpTo(parse: ParseFn, like: LikeFn, all: seq<Record>, name: string, rs: seq<Record>, tr: Trace,
                     pool: seq<string>, upTo: nat, m: nat)
    requires Replayable(parse, like, all, name, rs, tr, pool) && UpTo(rs, upTo, m)
    ensures |Chosen(all, name, upTo)| == m <= |rs| < |tr.states|
  {
    assert Chosen(all, name, TWO_64) == rs && forall i | 0 <= i < |all| :: all[i].ts < TWO_64;
    ChosenTwice(all, name, TWO_64, upTo);
    ChosenAre(all, name, TWO_64);
    forall i | 0 <= i < |rs|
      ensures rs[i].db == name
    {
      assert rs[i] in rs;
    }
    ChosenUpTo(rs, name, upTo, m);
    hide Chosen, Timed, FollowedAt, FlawlessAt, Flawless, UpTo;
  }

  // ----- REVERT

  /** The journal's records, in their order; among them those of database `name` are the run rs, which was
      flawless, started without tables, and whose strings are in the pool. */
  ghost predicate Replayable(parse: ParseFn, like: LikeFn, all: seq<Record>, name: string, rs: seq<Record>, tr: Trace,
                             pool: seq<string>)
  {
    && Timed(all) && (forall i | 0 <= i < |all| :: all[i].ts < TWO_64) && Chosen(all, name, TWO_64) == rs
    && Followed(parse, like, rs, tr) && Flawless(parse, like, rs, tr) && tr.states[0] == map[]
    && forall i | 0 <= i < |rs| :: tr.pools[i] <= pool
  }

  /** How many statements of the run are replayed from the first i records. */
  function Done(all: seq<Record>, name: string, upTo: nat, i: nat): nat
    requires i <= |all|
  {
    |Chosen(all[..i], name, upTo)|
  }

  /** Before record i: the tables are those the live run had after the statements replayed so far. */
  ghost predicate Replaying(parse: ParseFn, like: LikeFn, all: seq<Record>, name: string, rs: seq<Record>, tr: Trace,
                            upTo: nat, i: nat, pool: seq<string>, now: Tabs)
  {
    && Replayable(parse, like, all, name, rs, tr, pool) && i <= |all|
    && Done(all, name, upTo, i) <= |rs| && now == tr.states[Done(all, name, upTo, i)]
  }

  lemma ReplaySkips(parse: ParseFn, like: LikeFn, all: seq<Record>, name: string, rs: seq<Record>, tr: Trace,
                    upTo: nat, i: nat, pool: seq<string>, now: Tabs)
    requires Replaying(parse, like, all, name, rs, tr, upTo, i, pool, now) && i < |all|
    requires all[i].db != name || all[i].ts > upTo
    ensures Replaying(parse, like, all, name, rs, tr, upTo, i + 1, pool, now)
  {
    ChosenNext(all, name, upTo, i);
    hide Replayable, Chosen;
    assert Chosen(all[..i], name, upTo) + [] == Chosen(all[..i], name, upTo);
  }

  /** What the live run did at its statement j. */
  lemma RunAt(parse: ParseFn, like: LikeFn, all: seq<Record>, name: string, rs: seq<Record>, tr: Trace, pool: seq<string>, j: nat)
    requires Replayable(parse, like, all, name, rs, tr, pool) && j < |rs|
    ensures |tr.states| == |rs| + 1 && |tr.pools| == |rs| && parse(rs[j].sql).Some?
    ensures var p := tr.pools[j]; var st := parse(rs[j].sql).value;
      && p <= pool && TabsOk(p, tr.states[j]) && DefiniteOn(p, like, tr.states[j], st)
      && Effect(p, like, tr.states[j], st) == Some(tr.states[j + 1]) && Settled(p, like, tr.states[j], st)
  {
    hide TabsOk, DefiniteOn, Effect, Settled, Outcome, Timed, Chosen;
    assert FollowedAt(parse, like, rs[j], tr.pools[j], tr.states[j], tr.oks[j], tr.states[j + 1]);
    assert FlawlessAt(parse, like, rs[j], tr.pools[j], tr.states[j], tr.oks[j]);
    OutcomeIsEffect(tr.pools[j], like, tr.states[j], parse(rs[j].sql).value, true, tr.states[j + 1]);
  }

  /** Executed again, the next statement succeeds and leads where it led before. */
  lemma ReplaySteps(parse: ParseFn, like: LikeFn, all: seq<Record>, name: string, rs: seq<Record>, tr: Trace,
                    upTo: nat, i: nat, pool: seq<string>, now: Tabs, bigger: seq<string>)
    requires Replaying(parse, like, all, name, rs, tr, upTo, i, pool, now) && i < |all|
    requires all[i].db == name && all[i].ts <= upTo && pool <= bigger && PoolOk(bigger)
    ensures parse(all[i].sql).Some? && TabsOk(bigger, now)
    ensures var st := parse(all[i].sql).value;
      && DefiniteOn(bigger, like, now, st) && Effect(bigger, like, now, st).Some?
      && Replaying(parse, like, all, name, rs, tr, upTo, i + 1, bigger, Effect(bigger, like, now, st).value)
  {
    assert Timed(all) && Chosen(all, name, TWO_64) == rs && all[i].ts < TWO_64;
    var j := Done(all, name, upTo, i);
    ChosenAt(all, name, upTo, TWO_64, i);
    RunAt(parse, like, all, name, rs, tr, pool, j);
    assert Replayable(parse, like, all, name, rs, tr, bigger);
    assert j < |rs| && rs[j] == all[i] && Done(all, name, upTo, i + 1) == j + 1 && now == tr.states[j];
    hide *;
    var st := parse(rs[j].sql).value;
    DefiniteStable(tr.pools[j], bigger, like, now, st);
    EffectStable(tr.pools[j], bigger, like, now, st);
    ReplayingIs(parse, like, all, name, rs, tr, upTo, i + 1, bigger, tr.states[j + 1]);
  }

  lemma ReplayingIs(parse: ParseFn, like: LikeFn, all: seq<Record>, name: string, rs: seq<Record>, tr: Trace,
                    upTo: nat, i: nat, pool: seq<string>, now: Tabs)
    requires Replayable(parse, like, all, name, rs, tr, pool) && i <= |all|
    requires Done(all, name, upTo, i) <= |rs| < |tr.states| && now == tr.states[Done(all, name, upTo, i)]
    ensures Replaying(parse, like, all, name, rs, tr, upTo, i, pool, now)
  {
  }

  /** Executed on the database, the next statement does what it did before. */
  lemma ReplayedOn(parse: ParseFn, like: LikeFn, all: seq<Record>, name: string, rs: seq<Record>, tr: Trace,
                   upTo: nat, i: nat, pool: seq<string>, now: Tabs, bigger: seq<string>, ok: bool, after: Tabs)
    requires Replaying(parse, like, all, name, rs, tr, upTo, i, pool, now) && i < |all|
    requires all[i].db == name && all[i].ts <= upTo && pool <= bigger && TabsOk(bigger, now) && parse(all[i].sql).Some?
    requires DefiniteOn(bigger, like, now, parse(all[i].sql).value) ==>
               Executed(bigger, like, now, parse(all[i].sql).value, ok, after)
    ensures ok && Replaying(parse, like, all, name, rs, tr, upTo, i + 1, bigger, after)
  {
    hide Replaying, TabsOk, DefiniteOn, Effect, Settled;
    PoolIsOk(bigger, now);
    ReplaySteps(parse, like, all, name, rs, tr, upTo, i, pool, now, bigger);
  }

  method DropAll(db: Database)
    requires db.Valid()
    modifies db`tables
    ensures db.Valid() && db.View() == map[]
  {
    hide Database.Valid;
    while db.tables.Keys != {}
      invariant db.Valid()
      decreases |db.tables.Keys|
    {
      ghost var before := db.tables.Keys;
      var name :| name in db.tables.Keys;
      var _ := db.RemoveTable(name);
      assert db.View().Keys == db.tables.Keys;
      assert db.tables.Keys == before - {name};
    }
  }

  /** Drops all tables and executes again the journal's statements for this database up to a time, stopping
      at the first that fails. If the journal holds a flawless run, the tables, rows and row ids are
      afterwards those that the run had after its last statement up to that time. */
  method Revert(db: Database, journal: Journal, name: string, hint: string, upTo: nat, parse: ParseFn, like: LikeFn,
                ghost rs: seq<Record>, ghost tr: Trace)
    returns (ok: bool)
    requires db.Valid()
    modifies db, db.Repr, db.pool
    ensures db.Valid() && fresh(db.Repr - old(db.Repr)) && old(db.pool.strings) <= db.pool.strings
    ensures hint !in old(db.tables) ==> !ok && db.View() == old(db.View())
    ensures var all := old(Records(journal.data));
      hint in old(db.tables) && Replayable(parse, like, all, name, rs, tr, old(db.pool.strings)) ==>
        && ok && |Chosen(all, name, upTo)| <= |rs| && db.View() == tr.states[|Chosen(all, name, upTo)|]
        && forall m: nat | UpTo(rs, upTo, m) :: m < |tr.states| && db.View() == tr.states[m]
  {
    hide *;
    if hint !in db.tables {
      return false;
    }
    var recs := journal.Read();
    var sorted := SortByTime(recs);
    DropAll(db);
    ghost var good := Replayable(parse, like, recs, name, rs, tr, db.pool.strings);
    if good {
      ReplayStarts(parse, like, recs, name, rs, tr, upTo, db.pool.strings);
      TimedSortsToItself(recs, sorted);
    }
    for i := 0 to |sorted|
      invariant db.Valid() && fresh(db.Repr - old(db.Repr)) && old(db.pool.strings) <= db.pool.strings
      invariant good ==> Replaying(parse, like, sorted, name, rs, tr, upTo, i, db.pool.strings, db.View())
    {
      var r := sorted[i];
      ghost var pool, now := db.pool.strings, db.View();
      if r.db != name || r.ts > upTo {
        if good { ReplaySkips(parse, like, sorted, name, rs, tr, upTo, i, pool, now); }
      } else {
        if good {
          db.ViewOk();
          PoolIsOk(pool, now);
          ReplaySteps(parse, like, sorted, name, rs, tr, upTo, i, pool, now, pool);
        }
        var parsed := parse(r.sql);
        if parsed.None? {
          return false;
        }
        ok := db.Execute(parsed.value, like);
        if good { ReplayedOn(parse, like, sorted, name, rs, tr, upTo, i, pool, now, db.pool.strings, ok, db.View()); }
        if !ok {
          return;
        }
      }
    }
    ok := true;
    if good {
      ReplayEnds(parse, like, sorted, name, rs, tr, upTo, db.pool.strings, db.View());
      forall m: nat | UpTo(rs, upTo, m)
        ensures |Chosen(sorted, name, upTo)| == m
      {
        ReplayedUpTo(parse, like, sorted, name, rs, tr, db.pool.strings, upTo, m);
      }
    }
  }

  lemma PoolIsOk(pool: seq<string>, tabs: Tabs)
    requires TabsOk(pool, tabs)
    ensures PoolOk(pool)
  {
  }

  lemma ReplayStarts(parse: ParseFn, like: LikeFn, all: seq<Record>, name: string, rs: seq<Record>, tr: Trace,
                     upTo: nat, pool: seq<string>)
    requires Replayable(parse, like, all, name, rs, tr, pool)
    ensures Replaying(parse, like, all, name, rs, tr, upTo, 0, pool, map[]) && Timed(all)
  {
    assert all[..0] == [];
    assert Chosen([], name, upTo) == [];
  }

  lemma ReplayEnds(parse: ParseFn, like: LikeFn, all: seq<Record>, name: string, rs: seq<Record>, tr: Trace,
                   upTo: nat, pool: seq<string>, now: Tabs)
    requires Replaying(parse, like, all, name, rs, tr, upTo, |all|, pool, now)
    ensures |Chosen(all, name, upTo)| <= |rs| < |tr.states| && now == tr.states[|Chosen(all, name, upTo)|]
    ensures Replayable(parse, like, all, name, rs, tr, pool)
  {
    assert all[..|all|] == all;
  }
}
