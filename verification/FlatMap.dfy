/** An index whose live keys are distinct is a map from keys to rows, over every history. */
module FlatMap {
  import opened Values
  import opened FlatIndex
  import opened FlatSearch

  /** The index holds exactly the pairs of `live`, and its searches can find them. */
  predicate Represents(pool: seq<string>, f: Flat, live: map<Value, nat>) {
    && PoolOk(pool) && Sorted(pool, f) && Strict(pool, f) && AllInterned(pool, f)
    && KeysDiffer(pool, Contents(f))
    && Holds(Contents(f), live)
  }

  lemma RepresentsIs(pool: seq<string>, f: Flat, live: map<Value, nat>)
    requires Represents(pool, f, live)
    ensures PoolOk(pool) && Shape(f) && Sorted(pool, f) && Strict(pool, f) && AllInterned(pool, f)
    ensures KeysDiffer(pool, Contents(f)) && Holds(Contents(f), live)
  {
    hide Strict, AllInterned, KeysDiffer, Holds;
  }

  predicate Holds(es: Leaf, live: map<Value, nat>) {
    && (forall e | e in es :: e.key in live && live[e.key] == e.row)
    && (forall k | k in live :: Entry(k, live[k]) in es)
  }

  lemma EmptyRepresents(pool: seq<string>)
    requires PoolOk(pool)
    ensures Represents(pool, EMPTY, map[])
  {
  }

  // ----- insertion

  lemma SpliceDiffers(pool: seq<string>, es: Leaf, at: nat, e: Entry)
    requires KeysDiffer(pool, es) && at <= |es|
    requires forall x | x in es :: Cmp(pool, x.key, e.key) != 0
    ensures KeysDiffer(pool, es[..at] + [e] + es[at..])
  {
    hide Cmp;
    var r := es[..at] + [e] + es[at..];
    forall i, j | 0 <= i < j < |r|
      ensures Cmp(pool, r[i].key, r[j].key) != 0
    {
      assert r[i] == if i < at then es[i] else if i == at then e else es[i - 1];
      assert r[j] == if j < at then es[j] else if j == at then e else es[j - 1];
      CmpMirror(pool, r[i].key, r[j].key);
    }
  }

  lemma SpliceHolds(es: Leaf, at: nat, e: Entry, live: map<Value, nat>)
    requires Holds(es, live) && at <= |es| && e.key !in live
    ensures Holds(es[..at] + [e] + es[at..], live[e.key := e.row])
  {
    var r := es[..at] + [e] + es[at..];
    assert es == es[..at] + es[at..];
    assert forall x :: x in r <==> x == e || x in es;
  }

  /** The only separator that an insertion adds is a key of the leaf it splits. */
  lemma NewSeparator(pool: seq<string>, order: nat, f: Flat, e: Entry, s: Value)
    requires Shape(f) && f.leaves != [] && s in Insert(pool, order, f, e).seps && s !in f.seps
    ensures s == e.key || exists x :: x in Contents(f) && s == x.key
  {
    hide Cmp, Route, Slot;
    var p := Route(pool, f.seps, e.key);
    var leaf := WithEntry(pool, f.leaves[p], e);
    assert s == leaf[|leaf| / 2].key;
    ConcatAround(f.leaves, p);
    assert leaf[|leaf| / 2] == e || leaf[|leaf| / 2] in f.leaves[p];
  }

  lemma InsertInterned(pool: seq<string>, order: nat, f: Flat, e: Entry)
    requires Shape(f) && AllInterned(pool, f) && Interned(pool, e.key)
    ensures AllInterned(pool, Insert(pool, order, f, e))
  {
    hide Interned, Insert, Contents;
    var r := Insert(pool, order, f, e);
    var at := InsertContents(pool, order, f, e);
    InsertedElements(Contents(f), at, e);
    forall s | s in r.seps
      ensures Interned(pool, s)
    {
      if f.leaves == [] {
        FirstHasNoSeparators(pool, order, f, e);
      } else if s !in f.seps {
        NewSeparator(pool, order, f, e, s);
      }
    }
  }

  lemma InsertedElements(c: Leaf, at: nat, e: Entry)
    requires at <= |c|
    ensures forall x :: x in c[..at] + [e] + c[at..] <==> x == e || x in c
  {
    assert c == c[..at] + c[at..];
  }

  lemma FirstHasNoSeparators(pool: seq<string>, order: nat, f: Flat, e: Entry)
    requires Shape(f) && f.leaves == []
    ensures Insert(pool, order, f, e).seps == []
  {
  }

  /** Inserting a key that is not live adds exactly it to the map. */
  lemma InsertRefines(pool: seq<string>, order: nat, f: Flat, live: map<Value, nat>, e: Entry)
    requires Represents(pool, f, live) && Interned(pool, e.key) && e.key !in live
    ensures Represents(pool, Insert(pool, order, f, e), live[e.key := e.row])
  {
    var c := Contents(f);
    var at := InsertContents(pool, order, f, e);
    forall x | x in c
      ensures Cmp(pool, x.key, e.key) != 0
    {
      CmpZeroIffEqual(pool, x.key, e.key);
    }
    SpliceDiffers(pool, c, at, e);
    SpliceHolds(c, at, e, live);
    hide Insert, Cmp, Interned;
    InsertSorted(pool, order, f, e);
    InsertStrict(pool, order, f, e);
    InsertInterned(pool, order, f, e);
  }

  // ----- erasure

  lemma WithoutDiffers(pool: seq<string>, es: Leaf, m: nat)
    requires KeysDiffer(pool, es)
    ensures KeysDiffer(pool, Without(es, m))
  {
    hide Cmp;
    var r := Without(es, m);
    assert forall i | 0 <= i < |r| :: r[i] == es[if i < m then i else i + 1];
  }

  lemma WithoutHolds(es: Leaf, m: nat, live: map<Value, nat>)
    requires Holds(es, live) && m < |es|
    requires forall i, j | 0 <= i < j < |es| :: es[i].key != es[j].key
    ensures Holds(Without(es, m), live - {es[m].key})
  {
    var r := Without(es, m);
    assert forall i | 0 <= i < |r| :: r[i] == es[if i < m then i else i + 1];
    forall k | k in live && k != es[m].key
      ensures Entry(k, live[k]) in r
    {
      var i :| 0 <= i < |es| && es[i] == Entry(k, live[k]);
      assert r[if i < m then i else i - 1] == es[i];
    }
    forall e | e in r
      ensures e.key in live && e.key != es[m].key && live[e.key] == e.row
    {
      var i :| 0 <= i < |r| && r[i] == e;
      assert e == es[if i < m then i else i + 1];
    }
  }

  /** Whether erasing (k, row) removes something, and what. */
  function Removed(live: map<Value, nat>, k: Value, row: nat): map<Value, nat> {
    if k in live && live[k] == row then live - {k} else live
  }

  lemma MatchIsLivePair(pool: seq<string>, f: Flat, live: map<Value, nat>, k: Value, row: nat)
    requires Represents(pool, f, live) && Interned(pool, k)
    ensures forall e | e in Contents(f) :: Matches(pool, e, k, row) <==> e.key == k && e.row == row
    ensures (exists e :: e in Contents(f) && Matches(pool, e, k, row)) <==> k in live && live[k] == row
  {
    forall e | e in Contents(f)
      ensures Matches(pool, e, k, row) <==> e.key == k && e.row == row
    {
      CmpZeroIffEqual(pool, e.key, k);
    }
    hide Matches, Cmp;
    if k in live && live[k] == row {
      assert Entry(k, row) in Contents(f);
    }
  }

  lemma DifferentKeysAreDistinct(pool: seq<string>, es: Leaf)
    requires KeysDiffer(pool, es)
    ensures forall i, j | 0 <= i < j < |es| :: es[i].key != es[j].key
  {
    forall i, j | 0 <= i < j < |es|
      ensures es[i].key != es[j].key
    {
      CmpMirror(pool, es[i].key, es[i].key);
    }
  }

  /** A flat index without entry m of another, for a pair that was live. */
  lemma ErasedRepresents(pool: seq<string>, f: Flat, g: Flat, live: map<Value, nat>, k: Value, row: nat, m: nat)
    requires Represents(pool, f, live) && Shape(g) && Sorted(pool, g) && Strict(pool, g) && g.seps == f.seps
    requires Contents(g) == Without(Contents(f), m) && KeysDiffer(pool, Contents(g))
    requires m < |Contents(f)| <==> k in live && live[k] == row
    requires m < |Contents(f)| ==> Contents(f)[m].key == k
    requires forall i, j | 0 <= i < j < |Contents(f)| :: Contents(f)[i].key != Contents(f)[j].key
    ensures Represents(pool, g, Removed(live, k, row))
  {
    var c := Contents(f);
    hide Sorted, Strict, Shape, KeysDiffer, Contents;
    if m < |c| {
      WithoutHolds(c, m, live);
    }
    hide Holds;
    assert forall e | e in Without(c, m) :: e in c;
  }

  lemma EraseSeps(pool: seq<string>, f: Flat, k: Value, row: nat)
    requires Shape(f)
    ensures Shape(Erase(pool, f, k, row)) && Erase(pool, f, k, row).seps == f.seps
  {
  }

  /** The position of the first match, which is a live pair. */
  lemma MatchKey(pool: seq<string>, f: Flat, live: map<Value, nat>, k: Value, row: nat)
    requires Represents(pool, f, live) && Interned(pool, k)
    ensures var m := MatchPos(pool, Contents(f), k, row);
      && (m < |Contents(f)| <==> k in live && live[k] == row)
      && (m < |Contents(f)| ==> Contents(f)[m].key == k)
  {
    var c := Contents(f);
    var m := MatchPos(pool, c, k, row);
    MatchIsLivePair(pool, f, live, k, row);
    MatchPosFinds(pool, c, k, row);
    hide Cmp, Matches, Contents, Represents;
    if m < |c| { assert c[m] in c; }
  }

  /** `erase` returns true exactly when the pair is live, and removes exactly it, past emptied leaves
      and stale separators. */
  lemma EraseRefines(pool: seq<string>, f: Flat, live: map<Value, nat>, k: Value, row: nat)
    requires Represents(pool, f, live) && Interned(pool, k)
    ensures Erases(pool, f, k, row) <==> k in live && live[k] == row
    ensures Represents(pool, Erase(pool, f, k, row), Removed(live, k, row))
  {
    hide *;
    var m := MatchPos(pool, Contents(f), k, row);
    RepresentsIs(pool, f, live);
    MatchIsLivePair(pool, f, live, k, row);
    MatchKey(pool, f, live, k, row);
    EraseExact(pool, f, k, row);
    EraseSorted(pool, f, k, row);
    EraseSeps(pool, f, k, row);
    WithoutDiffers(pool, Contents(f), m);
    DifferentKeysAreDistinct(pool, Contents(f));
    ErasedRepresents(pool, f, Erase(pool, f, k, row), live, k, row, m);
  }

  // ----- searches

  /** `find_equal` is the map's lookup. */
  lemma FindEqualRefines(pool: seq<string>, f: Flat, live: map<Value, nat>, k: Value)
    requires Represents(pool, f, live) && Interned(pool, k)
    ensures FindEqual(pool, f, k) == if k in live then [live[k]] else []
  {
    var c := Contents(f);
    FindEqualExact(pool, f, k);
    if k in live {
      var i :| 0 <= i < |c| && c[i] == Entry(k, live[k]);
      CmpMirror(pool, k, k);
      EqualRowsUnique(pool, c, i, k);
    } else {
      forall e | e in c
        ensures Cmp(pool, e.key, k) != 0
      {
        CmpZeroIffEqual(pool, e.key, k);
      }
      NoEqualRows(pool, c, k);
    }
  }

  predicate StrictlyAscending(pool: seq<string>, ks: seq<Value>) {
    forall i, j | 0 <= i < j < |ks| :: Cmp(pool, ks[i], ks[j]) < 0
  }

  /** The keys within the bounds, in the order the index stores them. */
  function KeysWithin(pool: seq<string>, es: Leaf, b: Bounds): seq<Value> {
    if es == [] then []
    else (if InBounds(pool, b, es[0].key) then [es[0].key] else []) + KeysWithin(pool, es[1..], b)
  }

  function RowsOf(live: map<Value, nat>, ks: seq<Value>): seq<nat>
    requires forall k | k in ks :: k in live
  {
    seq(|ks|, i requires 0 <= i < |ks| => live[ks[i]])
  }

  lemma {:induction false} KeysWithinMember(pool: seq<string>, es: Leaf, b: Bounds, k: Value)
    ensures k in KeysWithin(pool, es, b) <==> InBounds(pool, b, k) && exists e :: e in es && e.key == k
  {
    hide InBounds;
    if es != [] {
      KeysWithinMember(pool, es[1..], b, k);
      assert forall e :: e in es <==> e == es[0] || e in es[1..];
      assert es[0] in es;
    }
  }

  lemma {:induction false} KeysWithinAscend(pool: seq<string>, es: Leaf, b: Bounds)
    requires Ordered(pool, es) && KeysDiffer(pool, es)
    ensures StrictlyAscending(pool, KeysWithin(pool, es, b))
  {
    hide InBounds, Cmp;
    if es != [] {
      KeysWithinAscend(pool, es[1..], b);
      var rest := KeysWithin(pool, es[1..], b);
      forall j | 0 <= j < |rest|
        ensures Cmp(pool, es[0].key, rest[j]) < 0
      {
        KeysWithinMember(pool, es[1..], b, rest[j]);
        var i: nat :| i < |es[1..]| && es[1..][i].key == rest[j];
        assert es[i + 1].key == rest[j];
      }
    }
  }

  lemma {:induction false} RowsWithinAreRowsOf(pool: seq<string>, es: Leaf, b: Bounds, live: map<Value, nat>)
    requires forall e | e in es :: e.key in live && live[e.key] == e.row
    ensures forall k | k in KeysWithin(pool, es, b) :: k in live
    ensures RowsWithin(pool, es, b) == RowsOf(live, KeysWithin(pool, es, b))
  {
    hide InBounds;
    if es != [] {
      RowsWithinAreRowsOf(pool, es[1..], b, live);
      var rest := KeysWithin(pool, es[1..], b);
      assert es[0] in es;
      assert RowsOf(live, [es[0].key] + rest) == [es[0].row] + RowsOf(live, rest);
    }
  }

  /** `range` returns the rows of exactly the live keys within the bounds, in ascending key order. */
  lemma RangeRefines(pool: seq<string>, f: Flat, live: map<Value, nat>, b: Bounds) returns (ks: seq<Value>)
    requires Represents(pool, f, live)
    ensures StrictlyAscending(pool, ks)
    ensures forall k :: k in ks <==> k in live && InBounds(pool, b, k)
    ensures Range(pool, f, b) == RowsOf(live, ks)
  {
    var c := Contents(f);
    ks := KeysWithin(pool, c, b);
    RangeExact(pool, f, b);
    ContentsOrdered(pool, f);
    KeysWithinAscend(pool, c, b);
    RowsWithinAreRowsOf(pool, c, b, live);
    hide KeysWithin, InBounds, Cmp, Contents;
    forall k
      ensures k in ks <==> k in live && InBounds(pool, b, k)
    {
      KeysWithinMember(pool, c, b, k);
      if k in live { assert Entry(k, live[k]) in c; }
    }
  }

  /** The key lies within the bounds, said of what they contain. */
  ghost predicate Within(pool: seq<string>, b: Bounds, k: Value) {
    var x, low, high := Content(pool, k), Content(pool, b.low), Content(pool, b.high);
    && (Before(low, x) || (b.lowIncl && x == low))
    && (Before(x, high) || (b.highIncl && x == high))
  }

  lemma InBoundsIsWithin(pool: seq<string>, b: Bounds, k: Value)
    ensures InBounds(pool, b, k) <==> Within(pool, b, k)
  {
    CmpIsOrder(pool, k, b.low);
    CmpIsOrder(pool, k, b.high);
    hide Cmp, Content, Before;
  }

  /** `range`, said of contents: the rows of the live keys within the bounds, those with smaller contents first. */
  lemma RangeByContent(pool: seq<string>, f: Flat, live: map<Value, nat>, b: Bounds) returns (ks: seq<Value>)
    requires Represents(pool, f, live)
    ensures forall i, j | 0 <= i < j < |ks| :: Before(Content(pool, ks[i]), Content(pool, ks[j]))
    ensures forall k :: k in ks <==> k in live && Within(pool, b, k)
    ensures |Range(pool, f, b)| == |ks| && forall i | 0 <= i < |ks| :: ks[i] in live && Range(pool, f, b)[i] == live[ks[i]]
  {
    hide Represents, InBounds, Within, Cmp, Content, Before, Range;
    ks := RangeRefines(pool, f, live, b);
    forall k
      ensures k in ks <==> k in live && Within(pool, b, k)
    {
      InBoundsIsWithin(pool, b, k);
    }
    forall i, j | 0 <= i < j < |ks|
      ensures Before(Content(pool, ks[i]), Content(pool, ks[j]))
    {
      CmpIsOrder(pool, ks[i], ks[j]);
    }
  }

  /** Between integers `range` returns the rows of the live integers between them, the smaller first. */
  lemma RangeOfIntegers(pool: seq<string>, f: Flat, live: map<Value, nat>, low: int, high: int, lowIncl: bool, highIncl: bool)
    returns (ms: seq<int>)
    requires Represents(pool, f, live)
    ensures forall i, j | 0 <= i < j < |ms| :: ms[i] < ms[j]
    ensures forall m :: m in ms <==>
              Int(m) in live && (low < m || (lowIncl && low == m)) && (m < high || (highIncl && m == high))
    ensures var out := Range(pool, f, Bounds(Int(low), Int(high), lowIncl, highIncl));
      |out| == |ms| && forall i | 0 <= i < |ms| :: Int(ms[i]) in live && out[i] == live[Int(ms[i])]
  {
    hide Represents, Range;
    var b := Bounds(Int(low), Int(high), lowIncl, highIncl);
    var ks := RangeByContent(pool, f, live, b);
    forall i | 0 <= i < |ks|
      ensures ks[i].Int?
    {
      assert ks[i] in ks;
    }
    ms := seq(|ks|, i requires 0 <= i < |ks| => ks[i].n);
    forall m
      ensures m in ms <==> Int(m) in ks
    {
      if m in ms { var i :| 0 <= i < |ms| && ms[i] == m; assert ks[i] == Int(m); }
      if Int(m) in ks { var i :| 0 <= i < |ks| && ks[i] == Int(m); assert ms[i] == m; }
    }
  }

  // ----- the contents depend on the live pairs only

  lemma {:induction false} AscendingUnique(pool: seq<string>, a: seq<Value>, b: seq<Value>)
    requires StrictlyAscending(pool, a) && StrictlyAscending(pool, b)
    requires forall k :: k in a <==> k in b
    ensures a == b
    decreases a
  {
    hide Cmp;
    assert b == [] || b[0] in b;
    if a != [] {
      assert a[0] in a && a[0] in b;
      assert b[0] in b && b[0] in a;
      assert a[0] == b[0] by {
        var i :| 0 <= i < |b| && b[i] == a[0];
        var j :| 0 <= j < |a| && a[j] == b[0];
        CmpMirror(pool, a[0], b[0]);
      }
      TailMembers(pool, a);
      TailMembers(pool, b);
      AscendingUnique(pool, a[1..], b[1..]);
    }
  }

  lemma TailMembers(pool: seq<string>, a: seq<Value>)
    requires StrictlyAscending(pool, a) && a != []
    ensures forall k :: k in a[1..] <==> k in a && k != a[0]
    ensures StrictlyAscending(pool, a[1..])
  {
    hide Cmp;
    CmpMirror(pool, a[0], a[0]);
    assert a == [a[0]] + a[1..];
    forall k | k in a[1..]
      ensures k != a[0]
    {
      var i :| 0 <= i < |a[1..]| && a[1..][i] == k;
      assert Cmp(pool, a[0], a[i + 1]) < 0;
    }
  }

  function KeysOf(es: Leaf): seq<Value> {
    seq(|es|, i requires 0 <= i < |es| => es[i].key)
  }

  /** Two indexes that hold the same pairs list the same entries in the same order, however their
      histories split leaves; so every search answers alike on both. */
  lemma ContentsDependOnLivePairs(pool: seq<string>, f: Flat, g: Flat, live: map<Value, nat>, b: Bounds)
    requires Represents(pool, f, live) && Represents(pool, g, live)
    ensures Contents(f) == Contents(g)
    ensures Range(pool, f, b) == Range(pool, g, b)
    ensures FindEqual(pool, f, b.low) == FindEqual(pool, g, b.low)
  {
    FindEqualExact(pool, f, b.low);
    FindEqualExact(pool, g, b.low);
    RangeExact(pool, f, b);
    RangeExact(pool, g, b);
    var c, d := Contents(f), Contents(g);
    KeysOfHolds(pool, f, live);
    KeysOfHolds(pool, g, live);
    hide *;
    AscendingUnique(pool, KeysOf(c), KeysOf(d));
    HoldsDetermines(c, d, live);
  }

  lemma HoldsDetermines(c: Leaf, d: Leaf, live: map<Value, nat>)
    requires Holds(c, live) && Holds(d, live) && KeysOf(c) == KeysOf(d)
    ensures c == d
  {
    assert |KeysOf(c)| == |c| == |d|;
    forall i | 0 <= i < |c|
      ensures c[i] == d[i]
    {
      assert KeysOf(c)[i] == c[i].key && KeysOf(d)[i] == d[i].key;
      assert c[i] in c && d[i] in d;
    }
  }

  lemma KeyIsHeld(es: Leaf, live: map<Value, nat>, k: Value)
    requires Holds(es, live)
    ensures k in KeysOf(es) <==> k in live
  {
    if k in live {
      var i :| 0 <= i < |es| && es[i] == Entry(k, live[k]);
      assert KeysOf(es)[i] == k;
    }
    if k in KeysOf(es) {
      var i :| 0 <= i < |es| && KeysOf(es)[i] == k;
      assert es[i] in es;
    }
  }

  lemma DifferingAscend(pool: seq<string>, es: Leaf)
    requires Ordered(pool, es) && KeysDiffer(pool, es)
    ensures StrictlyAscending(pool, KeysOf(es))
  {
    hide Cmp;
  }

  lemma KeysOfHolds(pool: seq<string>, f: Flat, live: map<Value, nat>)
    requires Represents(pool, f, live)
    ensures StrictlyAscending(pool, KeysOf(Contents(f)))
    ensures forall k :: k in KeysOf(Contents(f)) <==> k in live
    ensures Holds(Contents(f), live)
  {
    hide *;
    RepresentsIs(pool, f, live);
    ContentsOrdered(pool, f);
    DifferingAscend(pool, Contents(f));
    forall k
      ensures k in KeysOf(Contents(f)) <==> k in live
    {
      KeyIsHeld(Contents(f), live, k);
    }
  }

  // ----- the pool grows under a live index

  lemma LeafStable(pool: seq<string>, bigger: seq<string>, seps: seq<Value>, i: nat, leaf: Leaf)
    requires pool <= bigger && LeafOk(pool, seps, i, leaf)
    requires forall e | e in leaf :: Interned(pool, e.key)
    requires forall s | s in seps :: Interned(pool, s)
    ensures LeafOk(bigger, seps, i, leaf)
    ensures StrictLeaf(pool, seps, i, leaf) ==> StrictLeaf(bigger, seps, i, leaf)
  {
    forall a, b | Interned(pool, a) && Interned(pool, b)
      ensures Cmp(bigger, a, b) == Cmp(pool, a, b)
    {
      CmpStable(pool, bigger, a, b);
    }
    hide Cmp, Interned;
    assert forall x | 0 <= x < |leaf| :: leaf[x] in leaf;
  }

  /** Interning more strings while the index is live leaves it sorted under the new pool. */
  lemma GrowSorted(pool: seq<string>, bigger: seq<string>, f: Flat)
    requires Sorted(pool, f) && AllInterned(pool, f) && pool <= bigger
    ensures Sorted(bigger, f) && AllInterned(bigger, f)
    ensures Strict(pool, f) ==> Strict(bigger, f)
  {
    forall i | 0 <= i < |f.leaves|
      ensures LeafOk(bigger, f.seps, i, f.leaves[i])
      ensures Strict(pool, f) ==> StrictLeaf(bigger, f.seps, i, f.leaves[i])
    {
      assert LeafOk(pool, f.seps, i, f.leaves[i]);
      assert Strict(pool, f) ==> StrictLeaf(pool, f.seps, i, f.leaves[i]);
      LeafInterned(pool, f, i);
      hide *;
      LeafStable(pool, bigger, f.seps, i, f.leaves[i]);
    }
    forall i, j | 0 <= i < j < |f.seps|
      ensures Cmp(bigger, f.seps[i], f.seps[j]) <= 0
    {
      CmpStable(pool, bigger, f.seps[i], f.seps[j]);
    }
  }

  lemma LeafInterned(pool: seq<string>, f: Flat, i: nat)
    requires AllInterned(pool, f) && i < |f.leaves|
    ensures forall e | e in f.leaves[i] :: Interned(pool, e.key)
    ensures forall s | s in f.seps :: Interned(pool, s)
  {
    ConcatAround(f.leaves, i);
  }

  lemma GrowDiffers(pool: seq<string>, bigger: seq<string>, es: Leaf)
    requires pool <= bigger && KeysDiffer(pool, es)
    requires forall e | e in es :: Interned(pool, e.key)
    ensures KeysDiffer(bigger, es)
  {
    forall i, j | 0 <= i < j < |es|
      ensures Cmp(bigger, es[i].key, es[j].key) != 0
    {
      CmpStable(pool, bigger, es[i].key, es[j].key);
    }
  }

  /** An index keeps representing its map while the pool its comparator reads grows. */
  lemma GrowRefines(pool: seq<string>, bigger: seq<string>, f: Flat, live: map<Value, nat>)
    requires Represents(pool, f, live) && pool <= bigger && PoolOk(bigger)
    ensures Represents(bigger, f, live)
  {
    GrowSorted(pool, bigger, f);
    GrowDiffers(pool, bigger, Contents(f));
  }
}
