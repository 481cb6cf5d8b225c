/** Searching and erasing in an index: when the single descent of `find_equal`, `range` and `erase`
    sees every entry there is. */
module FlatSearch {
  import opened Values
  import opened FlatIndex

  /** The rows of the entries whose key equals k, in order: the answer without any index. */
  function EqualRows(pool: seq<string>, es: Leaf, k: Value): seq<nat> {
    if es == [] then []
    else (if Cmp(pool, es[0].key, k) == 0 then [es[0].row] else []) + EqualRows(pool, es[1..], k)
  }

  /** The rows of the entries whose key lies within the bounds, in order. */
  function RowsWithin(pool: seq<string>, es: Leaf, b: Bounds): seq<nat> {
    if es == [] then []
    else (if InBounds(pool, b, es[0].key) then [es[0].row] else []) + RowsWithin(pool, es[1..], b)
  }

  /** The entries that the search for k leaves behind, in the leaves it does not visit. */
  function Head(pool: seq<string>, f: Flat, k: Value): Leaf
    requires Shape(f)
  {
    Concat(f.leaves[..Route(pool, f.seps, k)])
  }

  lemma ContentsAround(pool: seq<string>, f: Flat, k: Value)
    requires Shape(f)
    ensures Contents(f) == Head(pool, f, k) + Concat(Tail(pool, f, k))
  {
    var p := Route(pool, f.seps, k);
    ConcatAdd(f.leaves[..p], f.leaves[p..]);
    assert f.leaves == f.leaves[..p] + f.leaves[p..];
  }

  // ----- what lies left and right of the search

  /** Entries left behind are at most k, and less than k when no leaf holds its own separator. */
  lemma HeadBelow(pool: seq<string>, f: Flat, k: Value, e: Entry)
    requires Sorted(pool, f) && e in Head(pool, f, k)
    ensures Cmp(pool, e.key, k) <= 0
    ensures Strict(pool, f) ==> Cmp(pool, e.key, k) < 0
  {
    var p := Route(pool, f.seps, k);
    var i, x := ConcatMember(f.leaves[..p], e);
    var s := f.seps[i];
    assert LeafOk(pool, f.seps, i, f.leaves[i]) && Fits(pool, f.seps, i, f.leaves[i][x].key);
    assert Cmp(pool, e.key, s) <= 0 && Cmp(pool, s, k) <= 0;
    CmpTransitive(pool, e.key, s, k);
    if Strict(pool, f) {
      assert StrictLeaf(pool, f.seps, i, f.leaves[i]);
    }
  }

  /** All entries left of a separator are at most it, all entries right of it at least. */
  lemma {:induction false} PrefixOrdered(pool: seq<string>, f: Flat, n: nat)
    requires Sorted(pool, f) && n <= |f.leaves|
    ensures Ordered(pool, Concat(f.leaves[..n]))
    ensures 0 < n <= |f.seps| ==>
              forall e | e in Concat(f.leaves[..n]) :: Cmp(pool, e.key, f.seps[n - 1]) <= 0
  {
    if n > 0 {
      PrefixOrdered(pool, f, n - 1);
      var before, leaf := Concat(f.leaves[..n - 1]), f.leaves[n - 1];
      assert f.leaves[..n] == f.leaves[..n - 1] + [leaf];
      ConcatAdd(f.leaves[..n - 1], [leaf]);
      assert Concat([leaf]) == leaf;
      assert LeafOk(pool, f.seps, n - 1, leaf);
      if n > 1 {
        JoinOrdered(pool, before, leaf, f.seps[n - 2]);
        if n <= |f.seps| {
          assert Cmp(pool, f.seps[n - 2], f.seps[n - 1]) <= 0;
          LiftBound(pool, before, f.seps[n - 2], f.seps[n - 1]);
        }
      } else {
        assert before == [] && before + leaf == leaf;
      }
    }
  }

  lemma JoinOrdered(pool: seq<string>, a: Leaf, b: Leaf, s: Value)
    requires Ordered(pool, a) && Ordered(pool, b)
    requires forall e | e in a :: Cmp(pool, e.key, s) <= 0
    requires forall x | 0 <= x < |b| :: Cmp(pool, s, b[x].key) <= 0
    ensures Ordered(pool, a + b)
  {
    hide Cmp;
    var r := a + b;
    forall i, j | 0 <= i < j < |r|
      ensures Cmp(pool, r[i].key, r[j].key) <= 0
    {
      if i < |a| <= j {
        assert r[i] in a && r[j] == b[j - |a|];
        CmpTransitive(pool, r[i].key, s, r[j].key);
      }
    }
  }

  lemma LiftBound(pool: seq<string>, es: Leaf, s: Value, t: Value)
    requires Cmp(pool, s, t) <= 0
    requires forall e | e in es :: Cmp(pool, e.key, s) <= 0
    ensures forall e | e in es :: Cmp(pool, e.key, t) <= 0
  {
    forall e | e in es
      ensures Cmp(pool, e.key, t) <= 0
    {
      CmpTransitive(pool, e.key, s, t);
    }
  }

  /** Reading the leaves from left to right gives the keys in ascending order. */
  lemma ContentsOrdered(pool: seq<string>, f: Flat)
    requires Sorted(pool, f)
    ensures Ordered(pool, Contents(f))
  {
    PrefixOrdered(pool, f, |f.leaves|);
    assert f.leaves[..|f.leaves|] == f.leaves;
  }

  lemma TailOrdered(pool: seq<string>, f: Flat, k: Value)
    requires Sorted(pool, f)
    ensures Ordered(pool, Concat(Tail(pool, f, k)))
  {
    ContentsOrdered(pool, f);
    ContentsAround(pool, f, k);
    SuffixOrdered(pool, Head(pool, f, k), Concat(Tail(pool, f, k)));
  }

  lemma SuffixOrdered(pool: seq<string>, a: Leaf, b: Leaf)
    requires Ordered(pool, a + b)
    ensures Ordered(pool, b)
  {
    hide Cmp;
    forall i, j | 0 <= i < j < |b|
      ensures Cmp(pool, b[i].key, b[j].key) <= 0
    {
      assert (a + b)[|a| + i] == b[i] && (a + b)[|a| + j] == b[j];
    }
  }

  // ----- equality search

  lemma EqualRowsCons(pool: seq<string>, e: Entry, es: Leaf, k: Value)
    ensures EqualRows(pool, [e] + es, k) == (if Cmp(pool, e.key, k) == 0 then [e.row] else []) + EqualRows(pool, es, k)
  {
    hide Cmp;
    assert ([e] + es)[1..] == es;
  }

  lemma EqualRowsNone(pool: seq<string>, b: Leaf, k: Value)
    ensures EqualRows(pool, [] + b, k) == EqualRows(pool, [], k) + EqualRows(pool, b, k)
  {
    hide Cmp;
    assert [] + b == b;
  }

  lemma Regroup<T>(a: seq<T>, b: seq<T>, c: seq<T>)
    ensures (a + b) + c == a + (b + c)
  {
  }

  lemma {:induction false} EqualRowsAdd(pool: seq<string>, a: Leaf, b: Leaf, k: Value)
    ensures EqualRows(pool, a + b, k) == EqualRows(pool, a, k) + EqualRows(pool, b, k)
  {
    hide *;
    if a == [] {
      EqualRowsNone(pool, b, k);
    } else {
      var hit: seq<nat> := if Cmp(pool, a[0].key, k) == 0 then [a[0].row] else [];
      EqualRowsCons(pool, a[0], a[1..], k);
      EqualRowsCons(pool, a[0], a[1..] + b, k);
      EqualRowsAdd(pool, a[1..], b, k);
      Regroup(hit, EqualRows(pool, a[1..], k), EqualRows(pool, b, k));
      Regroup([a[0]], a[1..], b);
      assert [a[0]] + a[1..] == a;
    }
  }

  lemma {:induction false} NoEqualRows(pool: seq<string>, es: Leaf, k: Value)
    ensures EqualRows(pool, es, k) == [] <==> forall e | e in es :: Cmp(pool, e.key, k) != 0
  {
    hide Cmp;
    if es != [] {
      NoEqualRows(pool, es[1..], k);
      assert forall e :: e in es <==> e == es[0] || e in es[1..];
    }
  }

  /** Stopping at the first greater key loses nothing in an ordered sequence. */
  lemma {:induction false} ScanEqualIsFilter(pool: seq<string>, es: Leaf, k: Value)
    requires Ordered(pool, es)
    ensures ScanEqual(pool, es, k) == EqualRows(pool, es, k)
  {
    hide Cmp;
    if es != [] {
      if Cmp(pool, es[0].key, k) > 0 {
        forall e | e in es
          ensures Cmp(pool, e.key, k) > 0
        {
          CmpMirror(pool, es[0].key, e.key);
          CmpMirror(pool, e.key, k);
          if Cmp(pool, e.key, k) <= 0 { CmpTransitive(pool, es[0].key, e.key, k); }
        }
        NoEqualRows(pool, es, k);
      } else {
        SuffixOrdered(pool, [es[0]], es[1..]);
        assert [es[0]] + es[1..] == es;
        ScanEqualIsFilter(pool, es[1..], k);
      }
    }
  }

  /** What `find_equal` returns in every sorted index, duplicates or not: it answers as the index-free
      search if and only if no equal key was left behind in the leaves before the one it descends to. */
  lemma FindEqualExactIff(pool: seq<string>, f: Flat, k: Value)
    requires Sorted(pool, f)
    ensures FindEqual(pool, f, k) == EqualRows(pool, Contents(f), k) <==>
              forall e | e in Head(pool, f, k) :: Cmp(pool, e.key, k) != 0
    ensures EqualRows(pool, Contents(f), k) == EqualRows(pool, Head(pool, f, k), k) + FindEqual(pool, f, k)
  {
    var head, tail := Head(pool, f, k), Concat(Tail(pool, f, k));
    ContentsAround(pool, f, k);
    TailOrdered(pool, f, k);
    ScanEqualIsFilter(pool, tail, k);
    EqualRowsAdd(pool, head, tail, k);
    NoEqualRows(pool, head, k);
    hide *;
    assert |EqualRows(pool, head, k) + EqualRows(pool, tail, k)|
        == |EqualRows(pool, head, k)| + |EqualRows(pool, tail, k)|;
  }

  /** Without equal live keys the descent sees everything. */
  lemma FindEqualExact(pool: seq<string>, f: Flat, k: Value)
    requires Sorted(pool, f) && Strict(pool, f)
    ensures FindEqual(pool, f, k) == EqualRows(pool, Contents(f), k)
  {
    forall e | e in Head(pool, f, k)
      ensures Cmp(pool, e.key, k) != 0
    {
      HeadBelow(pool, f, k, e);
    }
    FindEqualExactIff(pool, f, k);
  }

  /** With distinct keys the answer is the one row holding the key, or nothing. */
  lemma EqualRowsUnique(pool: seq<string>, es: Leaf, i: nat, k: Value)
    requires KeysDiffer(pool, es) && i < |es| && Cmp(pool, es[i].key, k) == 0
    ensures EqualRows(pool, es, k) == [es[i].row]
  {
    var a, b := es[..i], es[i + 1..];
    assert es == a + ([es[i]] + b);
    EqualRowsAdd(pool, a, [es[i]] + b, k);
    EqualRowsAdd(pool, [es[i]], b, k);
    assert EqualRows(pool, [es[i]], k) == [es[i].row] by { assert [es[i]][1..] == []; }
    forall j: nat | j < |es| && j != i
      ensures Cmp(pool, es[j].key, k) != 0
    {
      OnlyEqualKey(pool, es, i, j, k);
    }
    hide Cmp, EqualRows;
    NoEqualRows(pool, a, k);
    NoEqualRows(pool, b, k);
  }

  lemma OnlyEqualKey(pool: seq<string>, es: Leaf, i: nat, j: nat, k: Value)
    requires KeysDiffer(pool, es) && i < |es| && j < |es| && i != j && Cmp(pool, es[i].key, k) == 0
    ensures Cmp(pool, es[j].key, k) != 0
  {
    hide Cmp;
    EqualKeysTransfer(pool, es[i].key, es[j].key, k);
    CmpMirror(pool, es[i].key, es[j].key);
  }

  lemma EqualKeysTransfer(pool: seq<string>, a: Value, b: Value, k: Value)
    requires Cmp(pool, a, k) == 0
    ensures Cmp(pool, b, k) == 0 ==> Cmp(pool, a, b) == 0
  {
    hide Cmp;
    CmpMirror(pool, b, k);
    CmpMirror(pool, a, b);
    CmpMirror(pool, a, k);
    if Cmp(pool, b, k) == 0 {
      CmpTransitive(pool, a, k, b);
      CmpTransitive(pool, b, k, a);
    }
  }

  // ----- range search

  lemma {:induction false} RowsWithinAdd(pool: seq<string>, a: Leaf, c: Leaf, b: Bounds)
    ensures RowsWithin(pool, a + c, b) == RowsWithin(pool, a, b) + RowsWithin(pool, c, b)
  {
    hide Cmp, InBounds;
    if a == [] {
      assert a + c == c;
    } else {
      RowsWithinAdd(pool, a[1..], c, b);
      assert (a + c)[1..] == a[1..] + c && (a + c)[0] == a[0];
    }
  }

  lemma {:induction false} NoRowsWithin(pool: seq<string>, es: Leaf, b: Bounds)
    ensures RowsWithin(pool, es, b) == [] <==> forall e | e in es :: !InBounds(pool, b, e.key)
  {
    hide Cmp, InBounds;
    if es != [] {
      NoRowsWithin(pool, es[1..], b);
      assert forall e :: e in es <==> e == es[0] || e in es[1..];
    }
  }

  lemma {:induction false} ScanRangeIsFilter(pool: seq<string>, es: Leaf, b: Bounds)
    requires Ordered(pool, es)
    ensures ScanRange(pool, es, b) == RowsWithin(pool, es, b)
  {
    hide Cmp;
    if es != [] {
      SuffixOrdered(pool, [es[0]], es[1..]);
      assert [es[0]] + es[1..] == es;
      if Cmp(pool, es[0].key, b.high) > 0 {
        forall e | e in es[1..]
          ensures !InBounds(pool, b, e.key)
        {
          assert e in es;
          CmpMirror(pool, es[0].key, e.key);
          if Cmp(pool, e.key, b.high) <= 0 { CmpTransitive(pool, es[0].key, e.key, b.high); }
        }
        NoRowsWithin(pool, es[1..], b);
      } else {
        ScanRangeIsFilter(pool, es[1..], b);
      }
    }
  }

  /** What `range` returns in every sorted index: all rows within the bounds in ascending key order, if
      and only if no key within the bounds was left behind. */
  lemma RangeExactIff(pool: seq<string>, f: Flat, b: Bounds)
    requires Sorted(pool, f)
    ensures Range(pool, f, b) == RowsWithin(pool, Contents(f), b) <==>
              forall e | e in Head(pool, f, b.low) :: !InBounds(pool, b, e.key)
  {
    var head, tail := Head(pool, f, b.low), Concat(Tail(pool, f, b.low));
    ContentsAround(pool, f, b.low);
    TailOrdered(pool, f, b.low);
    ScanRangeIsFilter(pool, tail, b);
    RowsWithinAdd(pool, head, tail, b);
    NoRowsWithin(pool, head, b);
    hide *;
    assert |RowsWithin(pool, head, b) + RowsWithin(pool, tail, b)|
        == |RowsWithin(pool, head, b)| + |RowsWithin(pool, tail, b)|;
  }

  /** An exclusive lower bound makes the range exact even with duplicates; an inclusive one needs
      strict separators. */
  lemma RangeExact(pool: seq<string>, f: Flat, b: Bounds)
    requires Sorted(pool, f) && (Strict(pool, f) || !b.lowIncl)
    ensures Range(pool, f, b) == RowsWithin(pool, Contents(f), b)
  {
    forall e | e in Head(pool, f, b.low)
      ensures !InBounds(pool, b, e.key)
    {
      HeadBelow(pool, f, b.low, e);
    }
    RangeExactIff(pool, f, b);
  }

  // ----- erasure

  lemma WithoutAdd<T>(a: seq<T>, b: seq<T>, q: nat)
    ensures a + Without(b, q) == Without(a + b, |a| + q)
  {
    if q < |b| {
      assert (a + b)[..|a| + q] == a + b[..q] && (a + b)[|a| + q + 1..] == b[q + 1..];
    }
  }

  lemma WithoutHere<T>(a: seq<T>, b: seq<T>, q: nat)
    requires q < |a|
    ensures Without(a, q) + b == Without(a + b, q)
  {
  }

  lemma ConcatCons(l: Leaf, ls: seq<Leaf>)
    ensures Concat([l] + ls) == l + Concat(ls)
  {
    assert ([l] + ls)[1..] == ls;
  }

  lemma {:induction false} EraseLeavesContents(pool: seq<string>, ls: seq<Leaf>, k: Value, row: nat)
    ensures Concat(EraseLeaves(pool, ls, k, row)) ==
              Without(Concat(ls), MatchPos(pool, Concat(ls), k, row))
  {
    hide *;
    if ls == [] {
      EraseNoLeaves(pool, ls, k, row);
    } else {
      var m := MatchPos(pool, ls[0], k, row);
      var rest, restErased := Concat(ls[1..]), EraseLeaves(pool, ls[1..], k, row);
      EraseUnfold(pool, ls, k, row);
      EraseLeavesContents(pool, ls[1..], k, row);
      MatchPosAdd(pool, ls[0], rest, k, row);
      if m < |ls[0]| {
        ConcatCons(Without(ls[0], m), ls[1..]);
        WithoutHere(ls[0], rest, m);
      } else {
        ConcatCons(ls[0], restErased);
        WithoutAdd(ls[0], rest, MatchPos(pool, rest, k, row));
      }
    }
  }

  lemma EraseNoLeaves(pool: seq<string>, ls: seq<Leaf>, k: Value, row: nat)
    requires ls == []
    ensures Concat(EraseLeaves(pool, ls, k, row)) == Without(Concat(ls), MatchPos(pool, Concat(ls), k, row))
  {
  }

  lemma EraseUnfold(pool: seq<string>, ls: seq<Leaf>, k: Value, row: nat)
    requires ls != []
    ensures Concat(ls) == ls[0] + Concat(ls[1..])
    ensures var m := MatchPos(pool, ls[0], k, row);
      EraseLeaves(pool, ls, k, row) ==
        if m < |ls[0]| then [Without(ls[0], m)] + ls[1..] else [ls[0]] + EraseLeaves(pool, ls[1..], k, row)
  {
    hide MatchPos, Without;
  }

  lemma {:induction false} MatchPosAdd(pool: seq<string>, a: Leaf, b: Leaf, k: Value, row: nat)
    ensures MatchPos(pool, a + b, k, row) ==
              if MatchPos(pool, a, k, row) < |a| then MatchPos(pool, a, k, row)
              else |a| + MatchPos(pool, b, k, row)
  {
    hide Matches, Cmp;
    if a == [] {
      assert a + b == b;
    } else {
      MatchPosAdd(pool, a[1..], b, k, row);
      assert (a + b)[1..] == a[1..] + b && (a + b)[0] == a[0];
    }
  }

  /** `erase` takes out exactly one entry, a match the search reaches, or nothing when it reaches none. */
  lemma EraseContents(pool: seq<string>, f: Flat, k: Value, row: nat)
    requires Shape(f)
    ensures var tail := Concat(Tail(pool, f, k));
            Contents(Erase(pool, f, k, row)) ==
              Head(pool, f, k) + Without(tail, MatchPos(pool, tail, k, row))
    ensures !Erases(pool, f, k, row) ==> Contents(Erase(pool, f, k, row)) == Contents(f)
  {
    ContentsAround(pool, f, k);
    if f.leaves != [] {
      var p := Route(pool, f.seps, k);
      EraseLeavesContents(pool, f.leaves[p..], k, row);
      ConcatAdd(f.leaves[..p], EraseLeaves(pool, f.leaves[p..], k, row));
    }
  }

  /** With strict separators the erasure finds a match wherever it is, and the contents lose exactly it. */
  lemma EraseExact(pool: seq<string>, f: Flat, k: Value, row: nat)
    requires Sorted(pool, f) && Strict(pool, f)
    ensures Erases(pool, f, k, row) <==> exists e :: e in Contents(f) && Matches(pool, e, k, row)
    ensures Contents(Erase(pool, f, k, row)) == Without(Contents(f), MatchPos(pool, Contents(f), k, row))
  {
    hide Cmp, Matches, MatchPos, Without, Strict, Erase, Route, Concat, LeafOk, Ascending;
    var head, tail := Head(pool, f, k), Concat(Tail(pool, f, k));
    ContentsAround(pool, f, k);
    EraseContents(pool, f, k, row);
    MatchPosAdd(pool, head, tail, k, row);
    MatchPosFinds(pool, Contents(f), k, row);
    HeadHasNoMatch(pool, f, k, row);
    hide *;
    WithoutAdd(head, tail, MatchPos(pool, tail, k, row));
  }

  lemma HeadHasNoMatch(pool: seq<string>, f: Flat, k: Value, row: nat)
    requires Sorted(pool, f) && Strict(pool, f)
    ensures MatchPos(pool, Head(pool, f, k), k, row) == |Head(pool, f, k)|
  {
    var head := Head(pool, f, k);
    var m := MatchPos(pool, head, k, row);
    if m < |head| {
      HeadBelow(pool, f, k, head[m]);
    }
  }

  /** `erase` returns true exactly when a match lies in the leaves the search visits. */
  lemma ErasesIff(pool: seq<string>, f: Flat, k: Value, row: nat)
    requires Shape(f)
    ensures Erases(pool, f, k, row) <==>
              exists e :: e in Concat(Tail(pool, f, k)) && Matches(pool, e, k, row)
  {
    MatchPosFinds(pool, Concat(Tail(pool, f, k)), k, row);
  }

  lemma MatchPosFinds(pool: seq<string>, es: Leaf, k: Value, row: nat)
    ensures MatchPos(pool, es, k, row) < |es| <==> exists e :: e in es && Matches(pool, e, k, row)
  {
    hide Matches, Cmp;
    var m := MatchPos(pool, es, k, row);
    if m < |es| {
      assert es[m] in es;
    }
  }

  /** Every leaf is kept or loses one entry. */
  lemma {:induction false} EraseLeavesShape(pool: seq<string>, ls: seq<Leaf>, k: Value, row: nat, i: nat)
    requires i < |ls|
    ensures exists m: nat :: EraseLeaves(pool, ls, k, row)[i] == Without(ls[i], m)
  {
    var r := EraseLeaves(pool, ls, k, row);
    var m := MatchPos(pool, ls[0], k, row);
    if i == 0 {
      assert r[0] == Without(ls[0], m);
    } else if m < |ls[0]| {
      assert r[i] == ls[i] == Without(ls[i], |ls[i]|);
    } else {
      EraseLeavesShape(pool, ls[1..], k, row, i - 1);
    }
  }

  lemma WithoutLeafOk(pool: seq<string>, seps: seq<Value>, i: nat, leaf: Leaf, m: nat)
    ensures LeafOk(pool, seps, i, leaf) ==> LeafOk(pool, seps, i, Without(leaf, m))
    ensures StrictLeaf(pool, seps, i, leaf) ==> StrictLeaf(pool, seps, i, Without(leaf, m))
  {
    hide Cmp, Fits;
    var r := Without(leaf, m);
    assert forall x | 0 <= x < |r| :: r[x] == leaf[if x < m then x else x + 1];
  }

  /** A leaf after an erasure: as it was, or with one entry less. */
  lemma ErasedLeaf(pool: seq<string>, f: Flat, k: Value, row: nat, i: nat)
    requires Shape(f) && i < |f.leaves|
    ensures var r := Erase(pool, f, k, row);
      |r.leaves| == |f.leaves| && r.seps == f.seps && exists m: nat :: r.leaves[i] == Without(f.leaves[i], m)
  {
    hide Route, Without, MatchPos, EraseLeaves;
    var p := Route(pool, f.seps, k);
    if i >= p {
      EraseLeavesShape(pool, f.leaves[p..], k, row, i - p);
    } else {
      WithoutNothing(f.leaves[i]);
    }
  }

  lemma WithoutNothing(es: Leaf)
    ensures Without(es, |es|) == es
  {
  }

  lemma ErasedLeafOk(pool: seq<string>, f: Flat, k: Value, row: nat, i: nat)
    requires Sorted(pool, f) && i < |f.leaves| && |Erase(pool, f, k, row).leaves| == |f.leaves|
    ensures var r := Erase(pool, f, k, row);
      LeafOk(pool, r.seps, i, r.leaves[i]) && (Strict(pool, f) ==> StrictLeaf(pool, r.seps, i, r.leaves[i]))
  {
    hide Erase, LeafOk, StrictLeaf, Without, Ascending;
    assert LeafOk(pool, f.seps, i, f.leaves[i]);
    assert Strict(pool, f) ==> StrictLeaf(pool, f.seps, i, f.leaves[i]);
    ErasedLeaf(pool, f, k, row, i);
    var m: nat :| Erase(pool, f, k, row).leaves[i] == Without(f.leaves[i], m);
    WithoutLeafOk(pool, f.seps, i, f.leaves[i], m);
  }

  lemma EraseShape(pool: seq<string>, f: Flat, k: Value, row: nat)
    requires Shape(f)
    ensures var r := Erase(pool, f, k, row); Shape(r) && |r.leaves| == |f.leaves| && r.seps == f.seps
  {
  }

  lemma EraseSorted(pool: seq<string>, f: Flat, k: Value, row: nat)
    requires Sorted(pool, f)
    ensures Sorted(pool, Erase(pool, f, k, row))
    ensures Strict(pool, f) ==> Strict(pool, Erase(pool, f, k, row))
  {
    hide Erase, LeafOk, StrictLeaf, Ascending, Shape;
    var r := Erase(pool, f, k, row);
    EraseShape(pool, f, k, row);
    forall i | 0 <= i < |r.leaves|
      ensures LeafOk(pool, r.seps, i, r.leaves[i])
      ensures Strict(pool, f) ==> StrictLeaf(pool, r.seps, i, r.leaves[i])
    {
      ErasedLeafOk(pool, f, k, row, i);
    }
  }

  // ----- strictness survives insertions that leave all keys different

  /** If all keys differ after an insertion, every leaf is still below its separator. */
  lemma InsertStrict(pool: seq<string>, order: nat, f: Flat, e: Entry)
    requires Sorted(pool, f) && Strict(pool, f)
    requires KeysDiffer(pool, Contents(Insert(pool, order, f, e)))
    ensures Strict(pool, Insert(pool, order, f, e))
  {
    if f.leaves != [] {
      var p := Route(pool, f.seps, e.key);
      var leaf := WithEntry(pool, f.leaves[p], e);
      var r := Put(order, f, p, leaf);
      RouteFits(pool, f.seps, e.key);
      WithEntryOk(pool, f.seps, p, f.leaves[p], e);
      WithEntryStrict(pool, f.seps, p, f.leaves[p], e);
      PutContents(order, f, p, leaf);
      MiddleDiffers(pool, Concat(f.leaves[..p]), leaf, Concat(f.leaves[p + 1..]));
      PutStrict(pool, order, f, p, leaf);
    }
  }

  lemma WithEntryStrict(pool: seq<string>, seps: seq<Value>, i: nat, es: Leaf, e: Entry)
    requires StrictLeaf(pool, seps, i, es) && (i < |seps| ==> Cmp(pool, e.key, seps[i]) < 0)
    ensures StrictLeaf(pool, seps, i, WithEntry(pool, es, e))
  {
    hide Cmp, Slot;
    var r := WithEntry(pool, es, e);
    forall x | 0 <= x < |r| && i < |seps|
      ensures Cmp(pool, r[x].key, seps[i]) < 0
    {
      assert r[x] == e || r[x] in es;
    }
  }

  lemma MiddleDiffers(pool: seq<string>, a: Leaf, b: Leaf, c: Leaf)
    requires KeysDiffer(pool, a + b + c)
    ensures KeysDiffer(pool, b)
  {
    hide Cmp;
    var r := a + b + c;
    forall i, j | 0 <= i < j < |b|
      ensures Cmp(pool, b[i].key, b[j].key) != 0
    {
      assert r[|a| + i] == b[i] && r[|a| + j] == b[j];
    }
  }

  lemma PutStrict(pool: seq<string>, order: nat, f: Flat, p: nat, leaf: Leaf)
    requires Sorted(pool, f) && Strict(pool, f) && p < |f.leaves| && leaf != []
    requires Ordered(pool, leaf) && KeysDiffer(pool, leaf) && StrictLeaf(pool, f.seps, p, leaf)
    ensures Strict(pool, Put(order, f, p, leaf))
  {
    hide Cmp;
    var r := Put(order, f, p, leaf);
    forall i | 0 <= i < |r.leaves|
      ensures StrictLeaf(pool, r.seps, i, r.leaves[i])
    {
      var o := if i < p || |leaf| <= order then i else i - 1;
      if i < p || i > p + 1 || |leaf| <= order {
        assert StrictLeaf(pool, f.seps, o, f.leaves[o]);
      } else if i == p {
        var mid := |leaf| / 2;
        assert r.leaves[p] == leaf[..mid] && r.seps[p] == leaf[mid].key;
        assert forall x | 0 <= x < mid :: Cmp(pool, leaf[x].key, leaf[mid].key) <= 0;
      } else {
        assert i == p + 1 && r.leaves[i] == leaf[|leaf| / 2..];
      }
    }
  }

  // ----- exactly which indexes answer exactly

  lemma {:induction false} ConcatHas(ls: seq<Leaf>, i: nat, x: nat)
    requires i < |ls| && x < |ls[i]|
    ensures ls[i][x] in Concat(ls)
  {
    if i == 0 {
      assert ls[0][x] in ls[0];
    } else {
      ConcatHas(ls[1..], i - 1, x);
    }
  }

  /** The descent goes right of every separator that is not greater. */
  lemma RouteBeyond(pool: seq<string>, seps: seq<Value>, i: nat, k: Value)
    requires Ascending(pool, seps) && i < |seps| && Cmp(pool, seps[i], k) <= 0
    ensures Route(pool, seps, k) > i
  {
    var p := Route(pool, seps, k);
    RouteFits(pool, seps, k);
    hide Cmp, Route;
    forall j | 0 <= j <= i
      ensures Cmp(pool, seps[j], k) <= 0
    {
      if j < i { CmpTransitive(pool, seps[j], seps[i], k); }
    }
    if p < |seps| { CmpMirror(pool, k, seps[p]); }
  }

  /** An entry at its own separator is left behind by the search for any key equal to it. */
  lemma AtSeparator(pool: seq<string>, f: Flat, i: nat, x: nat, k: Value)
    requires Sorted(pool, f) && i < |f.seps| && i < |f.leaves| && x < |f.leaves[i]|
    requires Cmp(pool, f.leaves[i][x].key, f.seps[i]) == 0 && Cmp(pool, f.seps[i], k) == 0
    ensures f.leaves[i][x] in Head(pool, f, k) && Cmp(pool, f.leaves[i][x].key, k) == 0
    ensures f.leaves[i][x] in Contents(f)
  {
    var p := Route(pool, f.seps, k);
    RouteBeyond(pool, f.seps, i, k);
    CmpTransitive(pool, f.leaves[i][x].key, f.seps[i], k);
    CmpMirror(pool, f.leaves[i][x].key, f.seps[i]);
    CmpMirror(pool, f.seps[i], k);
    CmpMirror(pool, f.leaves[i][x].key, k);
    CmpTransitive(pool, k, f.seps[i], f.leaves[i][x].key);
    hide Cmp;
    assert f.leaves[..p][i] == f.leaves[i];
    ConcatHas(f.leaves[..p], i, x);
    ConcatHas(f.leaves, i, x);
  }

  /** Where an index is not strict: an entry at the separator on the right of its leaf. */
  lemma NotStrict(pool: seq<string>, f: Flat) returns (i: nat, x: nat)
    requires Sorted(pool, f) && !Strict(pool, f)
    ensures i < |f.seps| && i < |f.leaves| && x < |f.leaves[i]| && Cmp(pool, f.leaves[i][x].key, f.seps[i]) == 0
  {
    i :| 0 <= i < |f.leaves| && !StrictLeaf(pool, f.seps, i, f.leaves[i]);
    x :| 0 <= x < |f.leaves[i]| && Cmp(pool, f.leaves[i][x].key, f.seps[i]) >= 0;
    assert LeafOk(pool, f.seps, i, f.leaves[i]) && Fits(pool, f.seps, i, f.leaves[i][x].key);
  }

  /** `find_equal` is complete for every key if and only if no leaf holds a key equal to the separator on its
      right. */
  lemma FindEqualExactIffStrict(pool: seq<string>, f: Flat)
    requires Sorted(pool, f)
    ensures Strict(pool, f) <==> forall k :: FindEqual(pool, f, k) == EqualRows(pool, Contents(f), k)
  {
    if Strict(pool, f) {
      forall k
        ensures FindEqual(pool, f, k) == EqualRows(pool, Contents(f), k)
      {
        FindEqualExact(pool, f, k);
      }
    } else {
      var i, x := NotStrict(pool, f);
      var k := f.seps[i];
      CmpMirror(pool, k, k);
      AtSeparator(pool, f, i, x, k);
      FindEqualExactIff(pool, f, k);
      hide *;
      assert FindEqual(pool, f, k) != EqualRows(pool, Contents(f), k);
    }
  }

  /** The same for `range` and all bounds. */
  lemma RangeExactIffStrict(pool: seq<string>, f: Flat)
    requires Sorted(pool, f)
    ensures Strict(pool, f) <==> forall b :: Range(pool, f, b) == RowsWithin(pool, Contents(f), b)
  {
    if Strict(pool, f) {
      forall b
        ensures Range(pool, f, b) == RowsWithin(pool, Contents(f), b)
      {
        RangeExact(pool, f, b);
      }
    } else {
      var i, x := NotStrict(pool, f);
      var k := f.seps[i];
      var b := Bounds(k, k, true, true);
      CmpMirror(pool, k, k);
      AtSeparator(pool, f, i, x, k);
      assert InBounds(pool, b, f.leaves[i][x].key);
      RangeExactIff(pool, f, b);
      hide *;
      assert Range(pool, f, b) != RowsWithin(pool, Contents(f), b);
    }
  }

  ghost predicate HasMatch(pool: seq<string>, es: Leaf, k: Value, row: nat) {
    exists e :: e in es && Matches(pool, e, k, row)
  }

  /** `erase` succeeds exactly when the pair is anywhere in the index, if and only if the pair is not just among
      the entries it leaves behind. */
  lemma EraseExactIff(pool: seq<string>, f: Flat, k: Value, row: nat)
    requires Shape(f)
    ensures (Erases(pool, f, k, row) <==> HasMatch(pool, Contents(f), k, row)) <==>
              (HasMatch(pool, Head(pool, f, k), k, row) ==> HasMatch(pool, Concat(Tail(pool, f, k)), k, row))
  {
    ContentsAround(pool, f, k);
    ErasesIff(pool, f, k, row);
    hide Matches, Erases, Contents, Head, Tail, Concat;
    var head, tail := Head(pool, f, k), Concat(Tail(pool, f, k));
    assert forall e :: e in head + tail <==> e in head || e in tail;
  }

  lemma RouteOfEqual(pool: seq<string>, f: Flat, k: Value, m: Value)
    requires Sorted(pool, f) && Cmp(pool, m, k) == 0
    ensures Route(pool, f.seps, m) == Route(pool, f.seps, k)
  {
    var p := Route(pool, f.seps, k);
    RouteFits(pool, f.seps, k);
    CmpMirror(pool, m, k);
    if p > 0 { CmpTransitive(pool, f.seps[p - 1], k, m); }
    if p < |f.seps| {
      CmpMirror(pool, k, f.seps[p]);
      CmpMirror(pool, m, f.seps[p]);
      if Cmp(pool, f.seps[p], m) <= 0 { CmpTransitive(pool, f.seps[p], m, k); }
    }
    hide Route, Cmp;
    RouteUnique(pool, f.seps, m, p);
  }

  /** The entry stands at the separator on the right of its leaf. */
  predicate Exposed(pool: seq<string>, f: Flat, i: nat, x: nat) {
    i < |f.seps| && i < |f.leaves| && x < |f.leaves[i]| && Cmp(pool, f.leaves[i][x].key, f.seps[i]) == 0
  }

  /** `erase` is complete for every key and row if and only if each entry that stands at the separator on the
      right of its leaf has a match in the leaves that the search for it visits. */
  lemma EraseExactEverywhereIff(pool: seq<string>, f: Flat)
    requires Sorted(pool, f)
    ensures (forall k, row: nat :: Erases(pool, f, k, row) <==> HasMatch(pool, Contents(f), k, row)) <==>
              forall i: nat, x: nat | Exposed(pool, f, i, x) ::
                HasMatch(pool, Concat(Tail(pool, f, f.leaves[i][x].key)), f.leaves[i][x].key, f.leaves[i][x].row)
  {
    if forall k, row: nat :: Erases(pool, f, k, row) <==> HasMatch(pool, Contents(f), k, row) {
      forall i: nat, x: nat | Exposed(pool, f, i, x)
        ensures HasMatch(pool, Concat(Tail(pool, f, f.leaves[i][x].key)), f.leaves[i][x].key, f.leaves[i][x].row)
      {
        ExposedIsLeft(pool, f, i, x);
      }
    }
    if forall i: nat, x: nat | Exposed(pool, f, i, x) ::
      HasMatch(pool, Concat(Tail(pool, f, f.leaves[i][x].key)), f.leaves[i][x].key, f.leaves[i][x].row)
    {
      forall k, row: nat
        ensures Erases(pool, f, k, row) <==> HasMatch(pool, Contents(f), k, row)
      {
        EraseExactIff(pool, f, k, row);
        if HasMatch(pool, Head(pool, f, k), k, row) {
          var i, x := HeadMatchExposed(pool, f, k, row);
          TailMatch(pool, f, k, row, f.leaves[i][x]);
        }
      }
    }
  }

  lemma ExposedIsLeft(pool: seq<string>, f: Flat, i: nat, x: nat)
    requires Sorted(pool, f) && Exposed(pool, f, i, x)
    ensures var e := f.leaves[i][x];
      (Erases(pool, f, e.key, e.row) <==> HasMatch(pool, Contents(f), e.key, e.row)) ==>
        HasMatch(pool, Concat(Tail(pool, f, e.key)), e.key, e.row)
  {
    var e := f.leaves[i][x];
    CmpMirror(pool, e.key, f.seps[i]);
    CmpMirror(pool, e.key, e.key);
    AtSeparator(pool, f, i, x, e.key);
    assert Matches(pool, e, e.key, e.row);
    EraseExactIff(pool, f, e.key, e.row);
  }

  /** A match that the search leaves behind is exposed. */
  lemma HeadMatchExposed(pool: seq<string>, f: Flat, k: Value, row: nat) returns (i: nat, x: nat)
    requires Sorted(pool, f) && HasMatch(pool, Head(pool, f, k), k, row)
    ensures Exposed(pool, f, i, x) && Matches(pool, f.leaves[i][x], k, row)
  {
    var e :| e in Head(pool, f, k) && Matches(pool, e, k, row);
    var p := Route(pool, f.seps, k);
    i, x := ConcatMember(f.leaves[..p], e);
    var s := f.seps[i];
    assert LeafOk(pool, f.seps, i, f.leaves[i]) && Fits(pool, f.seps, i, f.leaves[i][x].key);
    CmpMirror(pool, e.key, s);
    CmpMirror(pool, e.key, k);
    CmpTransitive(pool, s, k, e.key);
  }

  lemma TailMatch(pool: seq<string>, f: Flat, k: Value, row: nat, m: Entry)
    requires Sorted(pool, f) && Matches(pool, m, k, row)
    requires HasMatch(pool, Concat(Tail(pool, f, m.key)), m.key, m.row)
    ensures HasMatch(pool, Concat(Tail(pool, f, k)), k, row)
  {
    RouteOfEqual(pool, f, k, m.key);
    var e :| e in Concat(Tail(pool, f, m.key)) && Matches(pool, e, m.key, m.row);
    CmpLaws(pool);
    CmpTransitive(pool, e.key, m.key, k);
    assert Cmp(pool, e.key, k) == 0;
    assert Matches(pool, e, k, row);
  }
}
