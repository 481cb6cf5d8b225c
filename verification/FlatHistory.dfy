/** Whole histories of an index: insertions, erasures and clearings, with strings interned in between. */
module FlatHistory {
  import opened Values
  import opened StringPools
  import opened FlatIndex
  import opened FlatSearch
  import opened FlatMap

  datatype Op = Ins(key: Value, row: nat) | Del(key: Value, row: nat) | Clear | Intern(s: string)
  datatype State = State(pool: seq<string>, flat: Flat)

  function Step(order: nat, st: State, op: Op): (r: State)
    requires Shape(st.flat) && |st.pool| > 0
    ensures Shape(r.flat) && |r.pool| > 0
  {
    match op
    case Ins(k, row) => st.(flat := Insert(st.pool, order, st.flat, Entry(k, row)))
    case Del(k, row) => st.(flat := Erase(st.pool, st.flat, k, row))
    case Clear => st.(flat := EMPTY)
    case Intern(s) => st.(pool := AfterIntern(st.pool, s))
  }

  function Run(order: nat, st: State, ops: seq<Op>): (r: State)
    requires Shape(st.flat) && |st.pool| > 0
    ensures Shape(r.flat) && |r.pool| > 0
    decreases ops
  {
    if ops == [] then st else Run(order, Step(order, st, ops[0]), ops[1..])
  }

  /** Keys are built from integers, NULL and ids that the pool has handed out. */
  predicate OpOk(pool: seq<string>, op: Op) {
    (op.Ins? || op.Del?) ==> Interned(pool, op.key)
  }

  predicate OpsOk(pool: seq<string>, ops: seq<Op>)
    requires |pool| > 0
    decreases ops
  {
    ops != [] ==>
      && OpOk(pool, ops[0])
      && OpsOk(if ops[0].Intern? then AfterIntern(pool, ops[0].s) else pool, ops[1..])
  }

  function InsertsSinceClear(n: nat, ops: seq<Op>): nat
    decreases ops
  {
    if ops == [] then n
    else InsertsSinceClear(if ops[0].Ins? then n + 1 else if ops[0].Clear? then 0 else n, ops[1..])
  }

  // ----- any history, duplicates included

  predicate Bounded(order: nat, f: Flat) {
    forall i | 0 <= i < |f.leaves| :: |f.leaves[i]| <= order
  }

  lemma InsertBounded(pool: seq<string>, order: nat, f: Flat, e: Entry)
    requires Shape(f) && Bounded(order, f) && order >= 1
    ensures Bounded(order, Insert(pool, order, f, e))
    ensures |Insert(pool, order, f, e).leaves| <= |f.leaves| + 1
  {
    hide Cmp, Route, Slot;
  }

  /** An insertion lengthens one leaf by one entry, or splits a full leaf into halves that differ by at most one entry;
      the other leaves stay. */
  lemma InsertHalves(pool: seq<string>, order: nat, f: Flat, e: Entry)
    requires Shape(f) && Bounded(order, f) && f.leaves != [] && order >= 1
    ensures var g := Insert(pool, order, f, e); var n := |f.leaves|;
      exists p: nat :: p < n && g.leaves[..p] == f.leaves[..p] &&
        if |f.leaves[p]| < order then
          |g.leaves| == n && |g.leaves[p]| == |f.leaves[p]| + 1 && g.leaves[p + 1..] == f.leaves[p + 1..]
        else
          && |g.leaves| == n + 1 && |g.leaves[p]| == (order + 1) / 2 && |g.leaves[p + 1]| == (order + 2) / 2
          && g.leaves[p + 2..] == f.leaves[p + 1..]
  {
    hide Cmp, Route, Slot;
    var g, p := Insert(pool, order, f, e), Route(pool, f.seps, e.key);
    assert |WithEntry(pool, f.leaves[p], e)| == |f.leaves[p]| + 1;
    assert g.leaves[..p] == f.leaves[..p];
  }

  lemma EraseBounded(pool: seq<string>, order: nat, f: Flat, k: Value, row: nat)
    requires Shape(f) && Bounded(order, f)
    ensures Bounded(order, Erase(pool, f, k, row))
    ensures |Erase(pool, f, k, row).leaves| == |f.leaves|
  {
    hide Cmp, Route;
    var p := Route(pool, f.seps, k);
    var r := Erase(pool, f, k, row);
    forall i | 0 <= i < |r.leaves|
      ensures |r.leaves[i]| <= order
    {
      if i >= p { EraseLeavesShape(pool, f.leaves[p..], k, row, i - p); }
    }
  }

  lemma EraseInterned(pool: seq<string>, f: Flat, k: Value, row: nat)
    requires Shape(f) && AllInterned(pool, f)
    ensures AllInterned(pool, Erase(pool, f, k, row))
  {
    EraseContents(pool, f, k, row);
    ContentsAround(pool, f, k);
    assert Erase(pool, f, k, row).seps == f.seps;
    hide Interned, Contents, Head, Tail, Erase;
    assert forall e | e in Contents(Erase(pool, f, k, row)) :: e in Contents(f);
  }

  predicate Sound(order: nat, st: State, n: nat) {
    && PoolOk(st.pool) && Sorted(st.pool, st.flat) && AllInterned(st.pool, st.flat)
    && Bounded(order, st.flat) && |st.flat.leaves| <= n
  }

  lemma StepSound(order: nat, st: State, op: Op, n: nat)
    requires Sound(order, st, n) && order >= 1 && OpOk(st.pool, op)
    ensures Sound(order, Step(order, st, op), InsertsSinceClear(n, [op]))
  {
    assert [op][1..] == [];
    match op
    case Ins(k, row) =>
      InsertSorted(st.pool, order, st.flat, Entry(k, row));
      InsertInterned(st.pool, order, st.flat, Entry(k, row));
      InsertBounded(st.pool, order, st.flat, Entry(k, row));
      hide Insert, Cmp;
    case Del(k, row) =>
      EraseSorted(st.pool, st.flat, k, row);
      EraseInterned(st.pool, st.flat, k, row);
      EraseBounded(st.pool, order, st.flat, k, row);
      hide Erase, Cmp;
    case Clear =>
    case Intern(s) =>
      InternKeepsPool(st.pool, s);
      GrowSorted(st.pool, AfterIntern(st.pool, s), st.flat);
  }

  /** Every history, with duplicate keys, erasures that miss and strings interned in between, keeps the
      index sorted between its separators with at most `order` entries a leaf, and has made no more
      leaves than there were insertions since the last clearing. */
  lemma {:induction false} HistorySound(order: nat, st: State, ops: seq<Op>, n: nat)
    requires Sound(order, st, n) && order >= 1 && OpsOk(st.pool, ops)
    ensures Sound(order, Run(order, st, ops), InsertsSinceClear(n, ops))
    decreases ops
  {
    if ops != [] {
      StepSound(order, st, ops[0], n);
      var m := InsertsSinceClear(n, [ops[0]]);
      assert [ops[0]][1..] == [];
      assert InsertsSinceClear(n, ops) == InsertsSinceClear(m, ops[1..]);
      assert OpsOk(Step(order, st, ops[0]).pool, ops[1..]);
      hide Sound, Step;
      HistorySound(order, Step(order, st, ops[0]), ops[1..], m);
    }
  }

  lemma WithoutMultiset<T>(s: seq<T>, m: nat)
    requires m < |s|
    ensures multiset(Without(s, m)) == multiset(s) - multiset{s[m]}
  {
    assert s == s[..m] + [s[m]] + s[m + 1..];
  }

  lemma SuffixWithoutMultiset<T>(a: seq<T>, b: seq<T>, m: nat)
    requires m < |b|
    ensures b[m] in multiset(a + b)
    ensures multiset(a + Without(b, m)) == multiset(a + b) - multiset{b[m]}
  {
    WithoutMultiset(a + b, |a| + m);
    WithoutAdd(a, b, m);
  }

  lemma EraseAccounts(pool: seq<string>, f: Flat, k: Value, row: nat)
    requires Shape(f)
    ensures var before, after := multiset(Contents(f)), multiset(Contents(Erase(pool, f, k, row)));
            if Erases(pool, f, k, row) then
              exists e :: e in before && Matches(pool, e, k, row) && after == before - multiset{e}
            else after == before
  {
    hide Cmp, Matches, Route, Concat, Contents, Erase, Head;
    EraseContents(pool, f, k, row);
    ContentsAround(pool, f, k);
    var head, tail := Head(pool, f, k), Concat(Tail(pool, f, k));
    var m := MatchPos(pool, tail, k, row);
    if m < |tail| {
      SuffixWithoutMultiset(head, tail, m);
    }
  }

  /** Each step changes the bag of entries by exactly one: an insertion adds its pair, an erasure that
      reports success takes out one pair with an equal key and the same row, one that reports failure
      changes nothing. */
  lemma StepAccounts(order: nat, st: State, op: Op)
    requires Shape(st.flat) && |st.pool| > 0
    ensures var before, after := multiset(Contents(st.flat)), multiset(Contents(Step(order, st, op).flat));
            match op
            case Ins(k, row) => after == before + multiset{Entry(k, row)}
            case Del(k, row) =>
              if Erases(st.pool, st.flat, k, row) then
                exists e :: e in before && Matches(st.pool, e, k, row) && after == before - multiset{e}
              else after == before
            case Clear => after == multiset{}
            case Intern(_) => after == before
  {
    hide Cmp;
    match op
    case Ins(k, row) =>
      var at := InsertContents(st.pool, order, st.flat, Entry(k, row));
    case Del(k, row) =>
      EraseAccounts(st.pool, st.flat, k, row);
    case Clear =>
    case Intern(s) =>
  }

  // ----- histories without two equal live keys

  function LiveStep(live: map<Value, nat>, op: Op): map<Value, nat> {
    match op
    case Ins(k, row) => live[k := row]
    case Del(k, row) => Removed(live, k, row)
    case Clear => map[]
    case Intern(_) => live
  }

  /** The plain map that the history describes. */
  function Live(live: map<Value, nat>, ops: seq<Op>): map<Value, nat>
    decreases ops
  {
    if ops == [] then live else Live(LiveStep(live, ops[0]), ops[1..])
  }

  /** No insertion of a key that is live at that moment. */
  predicate NoLiveDuplicates(live: map<Value, nat>, ops: seq<Op>)
    decreases ops
  {
    ops != [] ==>
      && (ops[0].Ins? ==> ops[0].key !in live)
      && NoLiveDuplicates(LiveStep(live, ops[0]), ops[1..])
  }

  lemma StepRefines(order: nat, st: State, live: map<Value, nat>, op: Op)
    requires Represents(st.pool, st.flat, live) && OpOk(st.pool, op) && (op.Ins? ==> op.key !in live)
    ensures Represents(Step(order, st, op).pool, Step(order, st, op).flat, LiveStep(live, op))
  {
    match op
    case Ins(k, row) => InsertRefines(st.pool, order, st.flat, live, Entry(k, row));
    case Del(k, row) => EraseRefines(st.pool, st.flat, live, k, row);
    case Clear => EmptyRepresents(st.pool);
    case Intern(s) =>
      InternKeepsPool(st.pool, s);
      GrowRefines(st.pool, AfterIntern(st.pool, s), st.flat, live);
  }

  /** Over every history without two equal live keys the index refines the plain map the history
      describes, whatever leaves were emptied, separators went stale and strings were interned. */
  lemma {:induction false} HistoryRefines(order: nat, st: State, live: map<Value, nat>, ops: seq<Op>)
    requires Represents(st.pool, st.flat, live) && OpsOk(st.pool, ops) && NoLiveDuplicates(live, ops)
    ensures Represents(Run(order, st, ops).pool, Run(order, st, ops).flat, Live(live, ops))
    decreases ops
  {
    if ops != [] {
      StepRefines(order, st, live, ops[0]);
      assert OpsOk(Step(order, st, ops[0]).pool, ops[1..]);
      hide Represents, Step;
      HistoryRefines(order, Step(order, st, ops[0]), LiveStep(live, ops[0]), ops[1..]);
    }
  }

  /** What a client sees after any such history that starts from a new index. */
  lemma SearchesAfterHistory(order: nat, pool: seq<string>, ops: seq<Op>, k: Value, row: nat)
    requires PoolOk(pool) && OpsOk(pool, ops) && NoLiveDuplicates(map[], ops)
    requires Interned(Run(order, State(pool, EMPTY), ops).pool, k)
    ensures var end := Run(order, State(pool, EMPTY), ops);
            var live := Live(map[], ops);
            && FindEqual(end.pool, end.flat, k) == (if k in live then [live[k]] else [])
            && (Erases(end.pool, end.flat, k, row) <==> k in live && live[k] == row)
  {
    EmptyRepresents(pool);
    hide Represents;
    HistoryRefines(order, State(pool, EMPTY), map[], ops);
    var end := Run(order, State(pool, EMPTY), ops);
    FindEqualRefines(end.pool, end.flat, Live(map[], ops), k);
    EraseRefines(end.pool, end.flat, Live(map[], ops), k, row);
  }

  // ----- with equal live keys the searches can miss entries

  /** Five insertions of one key at order 4 split its entries over two leaves; the search then sees only
      the right one, so `find_equal` and `range` return three of five rows and `erase` does not find a live
      pair. */
  lemma DuplicatesAreMissed(pool: seq<string>)
    requires |pool| > 0
    ensures var k := Int(7);
            var f := Run(4, State(pool, EMPTY), [Ins(k, 0), Ins(k, 1), Ins(k, 2), Ins(k, 3), Ins(k, 4)]).flat;
            && EqualRows(pool, Contents(f), k) == [4, 3, 2, 1, 0]
            && FindEqual(pool, f, k) == [2, 1, 0]
            && RowsWithin(pool, Contents(f), Bounds(k, k, true, true)) == [4, 3, 2, 1, 0]
            && Range(pool, f, Bounds(k, k, true, true)) == [2, 1, 0]
            && !Erases(pool, f, k, 4)
  {
    var left, right := [Entry(Int(7), 4), Entry(Int(7), 3)], [Entry(Int(7), 2), Entry(Int(7), 1), Entry(Int(7), 0)];
    hide *;
    DuplicatesRun(pool);
    SearchTwoLeaves(pool, Int(7), left, right);
    RangeTwoLeaves(pool, Int(7), left, right);
  }

  /** n entries with key 7, the newest first. */
  function Sevens(n: nat): Leaf {
    if n == 0 then [] else [Entry(Int(7), n - 1)] + Sevens(n - 1)
  }

  lemma DuplicatesRun(pool: seq<string>)
    requires |pool| > 0
    ensures var k := Int(7);
            Run(4, State(pool, EMPTY), [Ins(k, 0), Ins(k, 1), Ins(k, 2), Ins(k, 3), Ins(k, 4)]).flat ==
              Flat([[Entry(k, 4), Entry(k, 3)], [Entry(k, 2), Entry(k, 1), Entry(k, 0)]], [k])
  {
    var k := Int(7);
    hide Insert, Cmp, Sevens, Step;
    forall n: nat | n < 4
      ensures Insert(pool, 4, OneLeaf(n), Entry(k, n)) == OneLeaf(n + 1)
    {
      InsertSeven(pool, n);
    }
    InsertFifthSeven(pool);
    RunInsert(4, pool, OneLeaf(0), k, 0, [Ins(k, 1), Ins(k, 2), Ins(k, 3), Ins(k, 4)]);
    RunInsert(4, pool, OneLeaf(1), k, 1, [Ins(k, 2), Ins(k, 3), Ins(k, 4)]);
    RunInsert(4, pool, OneLeaf(2), k, 2, [Ins(k, 3), Ins(k, 4)]);
    RunInsert(4, pool, OneLeaf(3), k, 3, [Ins(k, 4)]);
    RunInsert(4, pool, OneLeaf(4), k, 4, []);
    assert [Ins(k, 4)] + [] == [Ins(k, 4)];
  }

  function OneLeaf(n: nat): (f: Flat)
    ensures Shape(f)
  {
    if n == 0 then EMPTY else Flat([Sevens(n)], [])
  }

  lemma {:induction false} SevensAreSeven(n: nat)
    ensures |Sevens(n)| == n && forall e | e in Sevens(n) :: e.key == Int(7)
  {
    if n > 0 { SevensAreSeven(n - 1); }
  }

  lemma InsertSeven(pool: seq<string>, n: nat)
    requires n < 4
    ensures Insert(pool, 4, OneLeaf(n), Entry(Int(7), n)) == OneLeaf(n + 1)
  {
    SevensAreSeven(n);
    if n > 0 {
      InsertSame(pool, Sevens(n), n);
    } else {
      assert Sevens(1) == [Entry(Int(7), 0)];
    }
  }

  lemma InsertFifthSeven(pool: seq<string>)
    ensures Insert(pool, 4, OneLeaf(4), Entry(Int(7), 4)) ==
              Flat([[Entry(Int(7), 4), Entry(Int(7), 3)], [Entry(Int(7), 2), Entry(Int(7), 1), Entry(Int(7), 0)]], [Int(7)])
  {
    SevensAreSeven(4);
    InsertSame(pool, Sevens(4), 4);
    assert Sevens(1) == [Entry(Int(7), 0)];
    assert Sevens(3) == [Entry(Int(7), 2), Entry(Int(7), 1), Entry(Int(7), 0)];
    var leaf := [Entry(Int(7), 4)] + Sevens(4);
    assert leaf == [Entry(Int(7), 4), Entry(Int(7), 3)] + Sevens(3);
    assert |leaf| == 5 && leaf[..2] == [Entry(Int(7), 4), Entry(Int(7), 3)] && leaf[2..] == Sevens(3);
  }

  lemma RunInsert(order: nat, pool: seq<string>, f: Flat, k: Value, row: nat, rest: seq<Op>)
    requires Shape(f) && |pool| > 0
    ensures Run(order, State(pool, f), [Ins(k, row)] + rest) ==
              Run(order, State(pool, Insert(pool, order, f, Entry(k, row))), rest)
  {
    assert ([Ins(k, row)] + rest)[1..] == rest;
  }

  /** Into a single leaf of equal keys the new entry goes first. */
  lemma InsertSame(pool: seq<string>, es: Leaf, row: nat)
    requires es != [] && forall e | e in es :: e.key == Int(7)
    ensures var leaf := [Entry(Int(7), row)] + es;
            Insert(pool, 4, Flat([es], []), Entry(Int(7), row)) ==
              if |leaf| <= 4 then Flat([leaf], [])
              else Flat([leaf[..|leaf| / 2], leaf[|leaf| / 2..]], [Int(7)])
  {
    assert es[0] in es;
    assert Slot(pool, es, Int(7)) == 0;
    assert WithEntry(pool, es, Entry(Int(7), row)) == [Entry(Int(7), row)] + es;
  }

  lemma SearchTwoLeaves(pool: seq<string>, k: Value, left: Leaf, right: Leaf)
    requires k == Int(7)
    requires left == [Entry(k, 4), Entry(k, 3)] && right == [Entry(k, 2), Entry(k, 1), Entry(k, 0)]
    ensures EqualRows(pool, Contents(Flat([left, right], [k])), k) == [4, 3, 2, 1, 0]
    ensures FindEqual(pool, Flat([left, right], [k]), k) == [2, 1, 0]
    ensures !Erases(pool, Flat([left, right], [k]), k, 4)
  {
    var f := Flat([left, right], [k]);
    assert Route(pool, [k], k) == 1 by { assert [k][1..] == []; }
    assert f.leaves[1..] == [right] && [right][1..] == [];
    assert Concat([right]) == right;
    assert Contents(f) == left + right;
    assert right[1..] == [Entry(k, 1), Entry(k, 0)] && right[1..][1..] == [Entry(k, 0)];
    assert right[1..][1..][1..] == [];
    assert EqualRows(pool, right, k) == [2, 1, 0] by {
      assert EqualRows(pool, right[1..][1..], k) == [0];
      assert EqualRows(pool, right[1..], k) == [1, 0];
    }
    assert EqualRows(pool, left, k) == [4, 3] by {
      assert left[1..] == [Entry(k, 3)] && left[1..][1..] == [];
      assert EqualRows(pool, left[1..], k) == [3];
    }
    EqualRowsAdd(pool, left, right, k);
    assert ScanEqual(pool, right, k) == [2, 1, 0] by {
      assert ScanEqual(pool, right[1..][1..], k) == [0];
      assert ScanEqual(pool, right[1..], k) == [1, 0];
    }
    MatchPosFinds(pool, right, k, 4);
    assert forall e | e in right :: e.row != 4;
  }

  lemma RangeRight(pool: seq<string>, k: Value, es: Leaf, b: Bounds)
    requires k == Int(7) && b == Bounds(k, k, true, true) && es == [Entry(k, 2), Entry(k, 1), Entry(k, 0)]
    ensures RowsWithin(pool, es, b) == [2, 1, 0] && ScanRange(pool, es, b) == [2, 1, 0]
  {
    var t := [Entry(k, 1), Entry(k, 0)];
    var u := [Entry(k, 0)];
    assert es[1..] == t && t[1..] == u && u[1..] == [];
    assert RowsWithin(pool, u, b) == [0] && ScanRange(pool, u, b) == [0];
    assert RowsWithin(pool, t, b) == [1, 0] && ScanRange(pool, t, b) == [1, 0];
  }

  lemma RangeLeft(pool: seq<string>, k: Value, es: Leaf, b: Bounds)
    requires k == Int(7) && b == Bounds(k, k, true, true) && es == [Entry(k, 4), Entry(k, 3)]
    ensures RowsWithin(pool, es, b) == [4, 3]
  {
    var t := [Entry(k, 3)];
    assert es[1..] == t && t[1..] == [];
    assert RowsWithin(pool, t, b) == [3];
  }

  lemma RangeTwoLeaves(pool: seq<string>, k: Value, left: Leaf, right: Leaf)
    requires k == Int(7)
    requires left == [Entry(k, 4), Entry(k, 3)] && right == [Entry(k, 2), Entry(k, 1), Entry(k, 0)]
    ensures var f, b := Flat([left, right], [k]), Bounds(k, k, true, true);
      RowsWithin(pool, Contents(f), b) == [4, 3, 2, 1, 0] && Range(pool, f, b) == [2, 1, 0]
  {
    hide RowsWithin, ScanRange;
    var f, b := Flat([left, right], [k]), Bounds(k, k, true, true);
    assert Route(pool, [k], k) == 1 by { assert [k][1..] == []; }
    assert f.leaves[1..] == [right] && [right][1..] == [];
    assert Concat([right]) == right;
    assert Contents(f) == left + right;
    RangeLeft(pool, k, left, b);
    RangeRight(pool, k, right, b);
    RowsWithinAdd(pool, left, right, b);
  }
}
